/** What `GitlabVariablesManager.get_variables` computes, as functions of the
    listed variables and the environment filter, and what those functions mean.

    The folds `Unfiltered`, `Defaults` and `TargetPass` follow the source's loops
    record by record (the first `n` records of the list); `LastComposite`,
    `LastWith`, `Effective` and `ExpectedLog` say the same thing without the
    running dictionary, and the lemmas connect the two. */
module Resolution {
  import opened Records

  /** The dictionary and the override log of one call. */
  datatype Pass = Pass(variables: map<string, Resolved>, log: seq<Override>)

  /** Unfiltered mode after the first `n` records: every record is stored
      under its composite key, a later record replacing an earlier one. */
  function Unfiltered(rs: seq<Var>, n: nat): map<string, Resolved>
    requires n <= |rs|
  {
    if n == 0 then map[] else Unfiltered(rs, n - 1)[Composite(rs[n - 1]) := Entry(rs[n - 1])]
  }

  /** The first filtered pass after the first `n` records: records of the
      default scope stored under their plain key. */
  function Defaults(rs: seq<Var>, n: nat): map<string, Resolved>
    requires n <= |rs|
  {
    if n == 0 then map[]
    else
      var m := Defaults(rs, n - 1);
      if rs[n - 1].scope == DefaultScope then m[rs[n - 1].key := Entry(rs[n - 1])] else m
  }

  /** The second filtered pass after the first `n` records, starting from
      `init`: a record of scope `env` is stored under its plain key, and when
      that key is already present an override is logged first. */
  function TargetPass(rs: seq<Var>, env: string, init: map<string, Resolved>, n: nat): Pass
    requires n <= |rs|
  {
    if n == 0 then Pass(init, [])
    else
      var p := TargetPass(rs, env, init, n - 1);
      var v := rs[n - 1];
      if v.scope != env then p
      else
        var logged :=
          if v.key in p.variables
          then [Override(v.key, p.variables[v.key].value, p.variables[v.key].scope, v.value, v.scope)]
          else [];
        Pass(p.variables[v.key := Entry(v)], p.log + logged)
  }

  /** The result of `get_variables(env)` over the listed records `rs`, with the
      log the call leaves behind. The empty filter selects unfiltered mode. */
  function Resolve(rs: seq<Var>, env: string): Pass {
    if env == "" then Pass(Unfiltered(rs, |rs|), [])
    else TargetPass(rs, env, Defaults(rs, |rs|), |rs|)
  }

  // ---------------------------------------------------------------------------
  // Declarative descriptions

  /** The index of the last of the first `n` records whose composite key is
      `c`, or -1 when there is none. */
  function LastComposite(rs: seq<Var>, n: nat, c: string): (r: int)
    requires n <= |rs|
    ensures -1 <= r < n
    ensures r >= 0 ==> Composite(rs[r]) == c
    ensures forall i :: r < i < n ==> Composite(rs[i]) != c
  {
    if n == 0 then -1
    else if Composite(rs[n - 1]) == c then n - 1
    else LastComposite(rs, n - 1, c)
  }

  /** The index of the last of the first `n` records with key `k` and scope
      `s`, or -1 when there is none. */
  function LastWith(rs: seq<Var>, n: nat, k: string, s: string): (r: int)
    requires n <= |rs|
    ensures -1 <= r < n
    ensures r >= 0 ==> rs[r].key == k && rs[r].scope == s
    ensures forall i :: r < i < n ==> !(rs[i].key == k && rs[i].scope == s)
  {
    if n == 0 then -1
    else if rs[n - 1].key == k && rs[n - 1].scope == s then n - 1
    else LastWith(rs, n - 1, k, s)
  }

  /** The entry the filtered dictionary holds for `k` once all defaults are
      loaded and the first `n` records have been scanned for scope `env`: the
      last of those records with scope `env`, else the last default for `k`
      in the whole list, else nothing. */
  function Effective(rs: seq<Var>, env: string, n: nat, k: string): Option<Resolved>
    requires n <= |rs|
  {
    var t := LastWith(rs, n, k, env);
    if t >= 0 then Some(Entry(rs[t]))
    else
      var d := LastWith(rs, |rs|, k, DefaultScope);
      if d >= 0 then Some(Entry(rs[d])) else None
  }

  /** Record `i` replaces an entry: its scope is the filter and an entry for
      its key is already there when it is reached. */
  predicate OverrideAt(rs: seq<Var>, env: string, i: nat)
    requires i < |rs|
  {
    rs[i].scope == env && Effective(rs, env, i, rs[i].key).Some?
  }

  /** The overrides among the first `n` records, in list order, each naming
      the entry it replaces and the record that replaces it. */
  function ExpectedLog(rs: seq<Var>, env: string, n: nat): seq<Override>
    requires n <= |rs|
  {
    if n == 0 then []
    else if OverrideAt(rs, env, n - 1) then
      var prior := Effective(rs, env, n - 1, rs[n - 1].key).value;
      ExpectedLog(rs, env, n - 1) + [Override(rs[n - 1].key, prior.value, prior.scope, rs[n - 1].value, rs[n - 1].scope)]
    else ExpectedLog(rs, env, n - 1)
  }

  /** The (key, scope) pairs present in the list. */
  function Pairs(rs: seq<Var>): set<(string, string)> {
    set v | v in rs :: (v.key, v.scope)
  }

  /** No two distinct (key, scope) pairs of the list share a composite key. */
  predicate CompositeInjective(rs: seq<Var>) {
    forall v, w :: v in rs && w in rs && Composite(v) == Composite(w) ==> v.key == w.key && v.scope == w.scope
  }

  function Join(p: (string, string)): string {
    p.0 + "_" + p.1
  }

  function JoinAll(ps: set<(string, string)>): set<string> {
    set p | p in ps :: Join(p)
  }

  // ---------------------------------------------------------------------------
  // Unfiltered mode

  lemma {:induction false} UnfilteredState(rs: seq<Var>, n: nat)
    requires n <= |rs|
    ensures forall c :: c in Unfiltered(rs, n) <==> LastComposite(rs, n, c) >= 0
    ensures forall c :: c in Unfiltered(rs, n) ==> Unfiltered(rs, n)[c] == Entry(rs[LastComposite(rs, n, c)])
  {
    if n > 0 {
      UnfilteredState(rs, n - 1);
    }
  }

  /** Unfiltered mode keys every record by its composite key, holds for each
      composite key the last record in list order that produces it, and logs
      nothing. */
  lemma ResolveUnfiltered(rs: seq<Var>)
    ensures Resolve(rs, "").log == []
    ensures Resolve(rs, "").variables.Keys == set v | v in rs :: Composite(v)
    ensures forall c :: c in Resolve(rs, "").variables ==>
              Resolve(rs, "").variables[c] == Entry(rs[LastComposite(rs, |rs|, c)])
  {
    var m := Resolve(rs, "").variables;
    UnfilteredState(rs, |rs|);
    forall c | c in set v | v in rs :: Composite(v)
      ensures c in m
    {
      var v :| v in rs && Composite(v) == c;
      var i :| 0 <= i < |rs| && rs[i] == v;
      assert LastComposite(rs, |rs|, c) >= i;
    }
  }

  lemma {:induction false} JoinAllSize(ps: set<(string, string)>)
    ensures |JoinAll(ps)| <= |ps|
    ensures (forall p, q :: p in ps && q in ps && Join(p) == Join(q) ==> p == q) ==> |JoinAll(ps)| == |ps|
  {
    if ps != {} {
      var p :| p in ps;
      var rest := ps - {p};
      JoinAllSize(rest);
      assert JoinAll(ps) == JoinAll(rest) + {Join(p)};
      if forall p, q :: p in ps && q in ps && Join(p) == Join(q) ==> p == q {
        assert Join(p) !in JoinAll(rest);
      }
    }
  }

  /** Unfiltered mode never has more entries than there are distinct (key,
      scope) pairs, and exactly as many when no two pairs share a composite
      key. */
  lemma UnfilteredSize(rs: seq<Var>)
    ensures |Resolve(rs, "").variables| <= |Pairs(rs)|
    ensures CompositeInjective(rs) ==> |Resolve(rs, "").variables| == |Pairs(rs)|
  {
    ResolveUnfiltered(rs);
    var m := Resolve(rs, "").variables;
    assert m.Keys == JoinAll(Pairs(rs)) by {
      forall c | c in JoinAll(Pairs(rs)) ensures c in m.Keys {
        var p :| p in Pairs(rs) && Join(p) == c;
        var v :| v in rs && (v.key, v.scope) == p;
        assert Composite(v) == c;
      }
      forall c | c in m.Keys ensures c in JoinAll(Pairs(rs)) {
        var v :| v in rs && Composite(v) == c;
        assert (v.key, v.scope) in Pairs(rs);
        assert Join((v.key, v.scope)) == c;
      }
    }
    assert |m| == |m.Keys|;
    JoinAllSize(Pairs(rs));
    if CompositeInjective(rs) {
      forall p, q | p in Pairs(rs) && q in Pairs(rs) && Join(p) == Join(q) ensures p == q {
        var v :| v in rs && (v.key, v.scope) == p;
        var w :| w in rs && (w.key, w.scope) == q;
        assert Composite(v) == Composite(w);
      }
    }
  }

  /** Composite keys collide: key "A_B" in scope "C" and key "A" in scope
      "B_C" are two distinct pairs but one entry, the later record winning. */
  lemma CompositeCollision()
    ensures var rs := [Var("A_B", "1", "C", false), Var("A", "2", "B_C", false)];
      && |Pairs(rs)| == 2
      && Resolve(rs, "").variables == map["A_B_C" := Entry(rs[1])]
  {
    var rs := [Var("A_B", "1", "C", false), Var("A", "2", "B_C", false)];
    assert Pairs(rs) == {("A_B", "C"), ("A", "B_C")} by {
      assert rs[0] in rs && rs[1] in rs;
    }
    assert ("A_B", "C") != ("A", "B_C");
    assert Composite(rs[0]) == "A_B_C";
    assert Composite(rs[1]) == "A_B_C";
  }

  // ---------------------------------------------------------------------------
  // Filtered mode

  lemma {:induction false} DefaultsState(rs: seq<Var>, n: nat)
    requires n <= |rs|
    ensures forall k :: k in Defaults(rs, n) <==> LastWith(rs, n, k, DefaultScope) >= 0
    ensures forall k :: k in Defaults(rs, n) ==> Defaults(rs, n)[k] == Entry(rs[LastWith(rs, n, k, DefaultScope)])
  {
    if n > 0 {
      DefaultsState(rs, n - 1);
    }
  }

  function Lookup(m: map<string, Resolved>, k: string): Option<Resolved> {
    if k in m then Some(m[k]) else None
  }

  /** After the defaults and the first `n` records of the second pass, the
      dictionary holds for every key what `Effective` says, and the log is
      `ExpectedLog`. */
  lemma {:induction false} TargetPassState(rs: seq<Var>, env: string, n: nat)
    requires n <= |rs|
    ensures forall k :: Lookup(TargetPass(rs, env, Defaults(rs, |rs|), n).variables, k) == Effective(rs, env, n, k)
    ensures TargetPass(rs, env, Defaults(rs, |rs|), n).log == ExpectedLog(rs, env, n)
  {
    var init := Defaults(rs, |rs|);
    if n == 0 {
      DefaultsState(rs, |rs|);
    } else {
      TargetPassState(rs, env, n - 1);
      var p := TargetPass(rs, env, init, n - 1);
      var v := rs[n - 1];
      forall k ensures Lookup(TargetPass(rs, env, init, n).variables, k) == Effective(rs, env, n, k) {
        assert Lookup(p.variables, k) == Effective(rs, env, n - 1, k);
      }
      if v.scope == env {
        assert Lookup(p.variables, v.key) == Effective(rs, env, n - 1, v.key);
      }
    }
  }

  /** Filtered mode: the keys are exactly those of the records whose scope is
      the default or the filter; each key holds its last record of the filter
      scope, or failing that its last default; the log is one line per record
      of the filter scope that finds its key already present, in list order. */
  lemma ResolveFiltered(rs: seq<Var>, env: string)
    requires env != ""
    ensures Resolve(rs, env).variables.Keys == set v | v in rs && (v.scope == DefaultScope || v.scope == env) :: v.key
    ensures forall k :: Lookup(Resolve(rs, env).variables, k) == Effective(rs, env, |rs|, k)
    ensures Resolve(rs, env).log == ExpectedLog(rs, env, |rs|)
  {
    var m := Resolve(rs, env).variables;
    TargetPassState(rs, env, |rs|);
    forall k | k in set v | v in rs && (v.scope == DefaultScope || v.scope == env) :: v.key
      ensures k in m
    {
      var v :| v in rs && (v.scope == DefaultScope || v.scope == env) && v.key == k;
      var i :| 0 <= i < |rs| && rs[i] == v;
      assert LastWith(rs, |rs|, k, v.scope) >= i;
      assert Lookup(m, k) == Effective(rs, env, |rs|, k);
    }
    forall k | k in m
      ensures k in set v | v in rs && (v.scope == DefaultScope || v.scope == env) :: v.key
    {
      assert Lookup(m, k) == Effective(rs, env, |rs|, k);
      var t := LastWith(rs, |rs|, k, env);
      var i := if t >= 0 then t else LastWith(rs, |rs|, k, DefaultScope);
      assert rs[i] in rs;
    }
  }

  /** Every entry is copied from one listed record, and only records of the
      default or the filter scope supply entries in filtered mode. */
  lemma ResolvedFromInput(rs: seq<Var>, env: string)
    ensures forall k :: k in Resolve(rs, env).variables ==>
      var e := Resolve(rs, env).variables[k];
      && e.origin in rs
      && e == Entry(e.origin)
      && (env == "" ==> k == Composite(e.origin))
      && (env != "" ==> k == e.key && (e.scope == DefaultScope || e.scope == env))
  {
    var m := Resolve(rs, env).variables;
    if env == "" {
      ResolveUnfiltered(rs);
      forall k | k in m ensures m[k].origin in rs {
        assert rs[LastComposite(rs, |rs|, k)] in rs;
      }
    } else {
      ResolveFiltered(rs, env);
      forall k | k in m
        ensures m[k].origin in rs && m[k] == Entry(m[k].origin)
        ensures k == m[k].key && (m[k].scope == DefaultScope || m[k].scope == env)
      {
        assert Lookup(m, k) == Effective(rs, env, |rs|, k);
        var t := LastWith(rs, |rs|, k, env);
        var i := if t >= 0 then t else LastWith(rs, |rs|, k, DefaultScope);
        assert rs[i] in rs;
      }
    }
  }

  // ---------------------------------------------------------------------------
  // The override log

  lemma {:induction false} ExpectedLogEmpty(rs: seq<Var>, env: string, n: nat)
    requires n <= |rs|
    ensures ExpectedLog(rs, env, n) == [] <==> forall i :: 0 <= i < n ==> !OverrideAt(rs, env, i)
  {
    if n > 0 {
      ExpectedLogEmpty(rs, env, n - 1);
    }
  }

  /** In filtered mode the log is empty exactly when no record of the filter
      scope finds its key already present. */
  lemma LogEmptyIff(rs: seq<Var>, env: string)
    requires env != ""
    ensures Resolve(rs, env).log == [] <==> forall i :: 0 <= i < |rs| ==> !OverrideAt(rs, env, i)
  {
    ResolveFiltered(rs, env);
    ExpectedLogEmpty(rs, env, |rs|);
  }

  lemma {:induction false} TargetPassIdle(rs: seq<Var>, env: string, init: map<string, Resolved>, n: nat)
    requires n <= |rs|
    requires forall i :: 0 <= i < n ==> rs[i].scope != env
    ensures TargetPass(rs, env, init, n) == Pass(init, [])
  {
    if n > 0 {
      TargetPassIdle(rs, env, init, n - 1);
    }
  }

  /** When every record has the default scope and the filter is neither empty
      nor the default scope, the result is the defaults indexed by plain key,
      and nothing is logged. */
  lemma DefaultsOnly(rs: seq<Var>, env: string)
    requires env != "" && env != DefaultScope
    requires forall i :: 0 <= i < |rs| ==> rs[i].scope == DefaultScope
    ensures Resolve(rs, env) == Pass(Defaults(rs, |rs|), [])
  {
    TargetPassIdle(rs, env, Defaults(rs, |rs|), |rs|);
  }

  lemma {:induction false} SelfOverrides(rs: seq<Var>, n: nat)
    requires n <= |rs|
    requires forall i :: 0 <= i < |rs| ==> rs[i].scope == DefaultScope
    ensures |ExpectedLog(rs, DefaultScope, n)| == n
  {
    if n > 0 {
      SelfOverrides(rs, n - 1);
      var v := rs[n - 1];
      assert LastWith(rs, |rs|, v.key, DefaultScope) >= n - 1;
      assert OverrideAt(rs, DefaultScope, n - 1);
    }
  }

  /** With the default scope as the filter, every default record is logged as
      overriding the entry for its own key, so a list of defaults logs one
      line per record. */
  lemma StarFilterLogsEveryDefault(rs: seq<Var>)
    requires forall i :: 0 <= i < |rs| ==> rs[i].scope == DefaultScope
    ensures forall i :: 0 <= i < |rs| ==> OverrideAt(rs, DefaultScope, i)
    ensures |Resolve(rs, DefaultScope).log| == |rs|
  {
    forall i | 0 <= i < |rs| ensures OverrideAt(rs, DefaultScope, i) {
      assert LastWith(rs, |rs|, rs[i].key, DefaultScope) >= i;
    }
    ResolveFiltered(rs, DefaultScope);
    SelfOverrides(rs, |rs|);
  }

  // ---------------------------------------------------------------------------
  // Worked examples

  /** A default "A" = "1" and a "prod" record "A" = "2": filtering on "prod"
      keeps "2" and logs the replacement of "1" (scope *) by "2" (scope prod). */
  lemma OverrideExample()
    ensures var rs := [Var("A", "1", "*", false), Var("A", "2", "prod", false)];
      Resolve(rs, "prod") == Pass(map["A" := Entry(rs[1])], [Override("A", "1", "*", "2", "prod")])
  {
    var rs := [Var("A", "1", "*", false), Var("A", "2", "prod", false)];
    var d := map["A" := Entry(rs[0])];
    assert Defaults(rs, 1) == d;
    assert Defaults(rs, 2) == d;
    assert TargetPass(rs, "prod", d, 1) == Pass(d, []);
  }

  /** A "prod" record without a default is added and logs nothing. */
  lemma TargetOnlyExample()
    ensures var rs := [Var("B", "x", "prod", false)];
      Resolve(rs, "prod") == Pass(map["B" := Entry(rs[0])], [])
  {
    var rs := [Var("B", "x", "prod", false)];
    assert Defaults(rs, 1) == map[];
    assert TargetPass(rs, "prod", map[], 0) == Pass(map[], []);
  }

  /** A "staging" record does not reach a dictionary filtered on "prod". */
  lemma OtherScopeExample()
    ensures var rs := [Var("A", "1", "staging", false), Var("B", "2", "*", false)];
      Resolve(rs, "prod") == Pass(map["B" := Entry(rs[1])], [])
  {
    var rs := [Var("A", "1", "staging", false), Var("B", "2", "*", false)];
    var d := map["B" := Entry(rs[1])];
    assert Defaults(rs, 1) == map[];
    assert Defaults(rs, 2) == d;
    assert TargetPass(rs, "prod", d, 1) == Pass(d, []);
  }

  /** Two "prod" records for the same key: the later one wins and the
      replacement of the earlier one is logged although no default exists. */
  lemma DuplicateTargetExample()
    ensures var rs := [Var("A", "1", "prod", false), Var("A", "2", "prod", false)];
      Resolve(rs, "prod") == Pass(map["A" := Entry(rs[1])], [Override("A", "1", "prod", "2", "prod")])
  {
    var rs := [Var("A", "1", "prod", false), Var("A", "2", "prod", false)];
    assert Defaults(rs, 1) == map[];
    assert Defaults(rs, 2) == map[];
    assert TargetPass(rs, "prod", map[], 1) == Pass(map["A" := Entry(rs[0])], []);
  }
}
