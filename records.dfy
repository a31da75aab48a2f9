/** The values the GitLab variables adaptor works on: the project variables it
    lists, the entries of the dictionary it builds from them, and the override
    lines it logs while building it. */
module Records {

  datatype Option<T> = None | Some(value: T)

  /** The scope GitLab gives a variable that applies to every environment. */
  const DefaultScope: string := "*"

  /** One project variable as the GitLab API lists it: `key`, `value`,
      `environment_scope` and `masked` (carried for display only). */
  datatype Var = Var(key: string, value: string, scope: string, masked: bool)

  /** One entry of the dictionary `get_variables` returns. `origin` stands for
      the reference to the listed variable the source keeps in each entry. */
  datatype Resolved = Resolved(key: string, value: string, scope: string, origin: Var)

  /** The entry the source builds for one listed variable. */
  function Entry(v: Var): Resolved {
    Resolved(v.key, v.value, v.scope, v)
  }

  /** The dictionary key of a variable when no environment filter is given:
      its key and its scope joined by an underscore. */
  function Composite(v: Var): string {
    v.key + "_" + v.scope
  }

  /** One override noticed during the filtered pass: the entry held for `key`
      before (`oldValue`, `oldScope`) and the record replacing it. */
  datatype Override = Override(key: string, oldValue: string, oldScope: string,
                               newValue: string, newScope: string)

  /** The human-readable log line for one override. */
  function Line(o: Override): string {
    o.key + ": " + o.oldValue + " (scope " + o.oldScope + ") -> "
      + o.key + ": " + o.newValue + " (scope " + o.newScope + ")"
  }

  /** The log lines for a sequence of overrides, in the same order. */
  function Lines(os: seq<Override>): (ls: seq<string>)
    ensures |ls| == |os|
    ensures forall i :: 0 <= i < |os| ==> ls[i] == Line(os[i])
  {
    if os == [] then [] else Lines(os[..|os| - 1]) + [Line(os[|os| - 1])]
  }
}
