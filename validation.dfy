/** The advisory checks of the export action: a key must consist of letters,
    digits and underscores only, and a value must not contain a double quote,
    a colon or a hash. The entries are visited in ascending key order and each
    gets the list of warnings that apply to it, key warning first. */
module Validation {
  import opened Records
  import opened Ordering

  // ---------------------------------------------------------------------------
  // containsAny

  /** 1 when some character of `s` belongs to `chars`, else 0. */
  function ContainsAny(s: string, chars: set<char>): (r: int)
    ensures r == 0 || r == 1
    ensures r == 1 <==> exists i :: 0 <= i < |s| && s[i] in chars
  {
    if s == [] then 0
    else if s[0] in chars then 1
    else
      var rest := ContainsAny(s[1..], chars);
      assert rest == 1 ==> exists i :: 0 < i < |s| && s[i] in chars by {
        if rest == 1 {
          var i :| 0 <= i < |s[1..]| && s[1..][i] in chars;
          assert s[i + 1] in chars;
        }
      }
      rest
  }

  // ---------------------------------------------------------------------------
  // containsNotSupported

  /** The character class `[A-Za-z0-9_]`. */
  predicate IsSupportedChar(c: char) {
    ('A' <= c <= 'Z') || ('a' <= c <= 'z') || ('0' <= c <= '9') || c == '_'
  }

  /** The strings `^[A-Za-z0-9_]+$` matches from the start: one or more
      supported characters, optionally followed by the single trailing newline
      before which Python's `$` also matches. */
  predicate MatchesKeyPattern(s: string) {
    || (|s| > 0 && forall i :: 0 <= i < |s| ==> IsSupportedChar(s[i]))
    || (|s| > 1 && s[|s| - 1] == '\n' && forall i :: 0 <= i < |s| - 1 ==> IsSupportedChar(s[i]))
  }

  /** The length of the longest prefix of supported characters: what the
      greedy `[A-Za-z0-9_]+` consumes. */
  function SupportedRun(s: string): (n: nat)
    ensures n <= |s|
    ensures forall i :: 0 <= i < n ==> IsSupportedChar(s[i])
    ensures n < |s| ==> !IsSupportedChar(s[n])
  {
    if s == [] || !IsSupportedChar(s[0]) then 0 else 1 + SupportedRun(s[1..])
  }

  /** 0 when the key pattern matches `s`, else 1: after the greedy run, `$`
      must stand at the end of the string or before its final newline. */
  function ContainsNotSupported(s: string): (r: int)
    ensures r == 0 || r == 1
    ensures r == 0 <==> MatchesKeyPattern(s)
  {
    var n := SupportedRun(s);
    if n > 0 && (n == |s| || (n == |s| - 1 && s[n] == '\n')) then 0 else 1
  }

  // ---------------------------------------------------------------------------
  // Warnings of the export action

  datatype Warning = UnsupportedKey | SpecialValue

  /** The characters a value is checked for. */
  const SpecialCharacters: set<char> := {'"', ':', '#'}

  function Message(w: Warning): string {
    match w
    case UnsupportedKey => "!!WARNING!! Key contains not supported characters!"
    case SpecialValue => "!!WARNING!! Value contains special character!"
  }

  /** The warnings collected for one dictionary entry, in the order the
      export action checks them. */
  function WarningsOf(e: Resolved): seq<Warning> {
    (if ContainsNotSupported(e.key) == 1 then [UnsupportedKey] else [])
      + (if ContainsAny(e.value, SpecialCharacters) == 1 then [SpecialValue] else [])
  }

  /** An entry draws the key warning exactly when its own key does not match
      the key pattern, the value warning exactly when its value holds a
      special character, each at most once and the key warning first. */
  lemma WarningsMeaning(e: Resolved)
    ensures UnsupportedKey in WarningsOf(e) <==> !MatchesKeyPattern(e.key)
    ensures SpecialValue in WarningsOf(e) <==> exists i :: 0 <= i < |e.value| && e.value[i] in SpecialCharacters
    ensures |WarningsOf(e)| <= 2
    ensures |WarningsOf(e)| == 2 ==> WarningsOf(e) == [UnsupportedKey, SpecialValue]
  {
  }

  /** What the export action reports about one dictionary entry. */
  datatype Report = Report(name: string, entry: Resolved, warnings: seq<Warning>)

  function Names(reports: seq<Report>): (ns: seq<string>)
    ensures |ns| == |reports|
    ensures forall i :: 0 <= i < |reports| ==> ns[i] == reports[i].name
  {
    if reports == [] then [] else Names(reports[..|reports| - 1]) + [reports[|reports| - 1].name]
  }

  /** `reports` covers every entry of `variables` once, in ascending key
      order, each with its own warnings. */
  ghost predicate IsReportOf(variables: map<string, Resolved>, reports: seq<Report>) {
    && StrictlySorted(Names(reports))
    && (forall k :: k in variables <==> k in Names(reports))
    && (forall i :: 0 <= i < |reports| ==>
          && reports[i].name in variables
          && reports[i].entry == variables[reports[i].name]
          && reports[i].warnings == WarningsOf(reports[i].entry))
  }

  /** The keys of `keys` in ascending order. */
  method SortedKeys(keys: set<string>) returns (ks: seq<string>)
    ensures StrictlySorted(ks)
    ensures forall k :: k in ks <==> k in keys
  {
    ks := [];
    var rest := keys;
    while rest != {}
      invariant rest <= keys
      invariant StrictlySorted(ks)
      invariant forall k :: k in ks <==> k in keys && k !in rest
      decreases rest
    {
      var k :| k in rest;
      ks := Insert(ks, k);
      rest := rest - {k};
    }
  }

  /** The warning decisions of the export action: the entries in ascending
      key order, each with the warnings collected for it. */
  method ValidateVariables(variables: map<string, Resolved>) returns (reports: seq<Report>)
    ensures IsReportOf(variables, reports)
  {
    var names := SortedKeys(variables.Keys);
    assert forall j :: 0 <= j < |names| ==> names[j] in variables;
    reports := [];
    for i := 0 to |names|
      invariant |reports| == i
      invariant forall j :: 0 <= j < i ==>
        reports[j] == Report(names[j], variables[names[j]], WarningsOf(variables[names[j]]))
    {
      var e := variables[names[i]];
      var errors: seq<Warning> := [];
      if ContainsNotSupported(e.key) == 1 {
        errors := errors + [UnsupportedKey];
      }
      if ContainsAny(e.value, SpecialCharacters) == 1 {
        errors := errors + [SpecialValue];
      }
      assert errors == WarningsOf(e);
      reports := reports + [Report(names[i], e, errors)];
    }
    assert Names(reports) == names;
  }

  /** The report is determined by the dictionary alone: validating the same
      dictionary twice gives the same entries, warnings and order. */
  lemma ReportIsUnique(variables: map<string, Resolved>, a: seq<Report>, b: seq<Report>)
    requires IsReportOf(variables, a) && IsReportOf(variables, b)
    ensures a == b
  {
    SortedUnique(Names(a), Names(b));
    assert |a| == |b|;
    forall i | 0 <= i < |a| ensures a[i] == b[i] {
      assert a[i].name == Names(a)[i] == Names(b)[i] == b[i].name;
    }
  }

  // ---------------------------------------------------------------------------
  // Worked examples

  /** Entries with keys "b", "A!" and "a" (values without special
      characters) are visited as "A!", "a", "b", and only the "A!" entry
      draws a warning, the key warning. */
  lemma KeyOrderExample(ns: seq<string>)
    requires StrictlySorted(ns)
    requires forall k :: k in ns <==> k in {"b", "A!", "a"}
    ensures ns == ["A!", "a", "b"]
    ensures WarningsOf(Entry(Var("A!", "1", "*", false))) == [UnsupportedKey]
    ensures WarningsOf(Entry(Var("a", "1", "*", false))) == []
    ensures WarningsOf(Entry(Var("b", "1", "*", false))) == []
  {
    var sorted := ["A!", "a", "b"];
    assert LexLess("A!", "a") && LexLess("a", "b") && LexLess("A!", "b");
    assert StrictlySorted(sorted);
    SortedUnique(ns, sorted);
    assert !IsSupportedChar('!');
    assert !MatchesKeyPattern("A!");
    assert ContainsAny("1", SpecialCharacters) == 0;
  }

  /** A value with a double quote is flagged, a plain phrase is not. */
  lemma SpecialValueExample()
    ensures ContainsAny("say \"hi\"", SpecialCharacters) == 1
    ensures ContainsAny("hello world", SpecialCharacters) == 0
  {
  }

  /** The empty key is flagged; a key with one trailing newline is not. */
  lemma KeyPatternEdgeCases()
    ensures ContainsNotSupported("") == 1
    ensures ContainsNotSupported("ABC\n") == 0
    ensures ContainsNotSupported("AB\n\n") == 1
  {
  }
}
