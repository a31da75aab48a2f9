/** The GitLab variables manager: builds the dictionary of project variables,
    optionally filtered on one environment, and keeps the override log of its
    last call in a field. The GitLab client is not modelled: the listed
    variables are passed to each call. */
module GitlabVariables {
  import opened Records
  import opened Resolution

  class VariablesManager {
    /** The override lines of the last `GetVariables` call. */
    var log: seq<string>

    /** Stands for `__init__`, whose GitLab client and project lookup are not
        modelled. Like the source it does not set the log. */
    constructor ()
    {
    }

    /** Builds the dictionary of the listed variables `records`. With an empty
        `filterEnv` every variable is kept under its composite key; otherwise
        the defaults are loaded first and the variables of scope `filterEnv`
        then replace them, each replacement of a present key being logged.
        The log is reset at the start of the call. */
    method GetVariables(records: seq<Var>, filterEnv: string) returns (variables: map<string, Resolved>)
      modifies this
      ensures variables == Resolve(records, filterEnv).variables
      ensures log == Lines(Resolve(records, filterEnv).log)
    {
      variables := map[];
      log := [];
      if filterEnv == "" {
        for i := 0 to |records|
          invariant variables == Unfiltered(records, i)
          invariant log == []
        {
          var v := records[i];
          variables := variables[Composite(v) := Entry(v)];
        }
      } else {
        for i := 0 to |records|
          invariant variables == Defaults(records, i)
          invariant log == []
        {
          var v := records[i];
          if v.scope == DefaultScope {
            variables := variables[v.key := Entry(v)];
          }
        }
        ghost var defaults := variables;
        ghost var overrides: seq<Override> := [];
        for i := 0 to |records|
          invariant Pass(variables, overrides) == TargetPass(records, filterEnv, defaults, i)
          invariant log == Lines(overrides)
        {
          var v := records[i];
          if v.scope == filterEnv {
            if v.key in variables {
              var o := Override(v.key, variables[v.key].value, variables[v.key].scope, v.value, v.scope);
              log := log + [Line(o)];
              overrides := overrides + [o];
            }
            variables := variables[v.key := Entry(v)];
          }
        }
      }
    }

    /** The dictionary of `GetVariables` together with the log of that same
        call. */
    method GetVariablesWithLogs(records: seq<Var>, filterEnv: string)
      returns (variables: map<string, Resolved>, logs: seq<string>)
      modifies this
      ensures variables == Resolve(records, filterEnv).variables
      ensures logs == log == Lines(Resolve(records, filterEnv).log)
    {
      variables := GetVariables(records, filterEnv);
      logs := log;
    }
  }
}
