# GitLab variables: scope resolution and export warnings

This project models the core of `src/adaptors/gitlab_variables.py` from the
secrets-transfer tool and proves properties of the model in Dafny.

The core takes the list of CI/CD variables of a GitLab project and builds a dictionary from it.
Each variable has a key, a value, an environment scope and a masked flag.
The scope `*` means "every environment".

- With no environment filter, every variable is kept under the composite key `key_scope`.
- With a filter, the `*` defaults are loaded first, keyed by plain key.
  A second pass then lets the variables whose scope equals the filter replace them.
  Each time such a variable finds its key already present, a line is appended to the manager's `log`.
- The export action visits the dictionary in ascending key order.
  It warns when an entry's key is not made of `[A-Za-z0-9_]`.
  It also warns when the entry's value holds `"`, `:` or `#`.

Files:

- `records.dfy` (module `Records`): the listed variable `Var`, the dictionary entry `Resolved`, the override `Override` and its log line.
- `resolution.dfy` (module `Resolution`): what `get_variables` computes, as functions of the list and the filter.
  The folds `Unfiltered`, `Defaults` and `TargetPass` follow the source's loops.
  The declarative descriptions `LastComposite`, `LastWith`, `Effective` and `ExpectedLog` say the same without a running dictionary.
  The lemmas connect the two.
- `manager.dfy` (module `GitlabVariables`): the class `VariablesManager` with its `log` field.
  Its methods build the dictionary with the source's loops.
  They are proved equal to `Resolution.Resolve`.
- `ordering.dfy` (module `Ordering`): Python's string order (`LexLess`), strictly sorted sequences, sorted insertion, and the uniqueness of a sorted arrangement.
- `validation.dfy` (module `Validation`): `containsAny`, `containsNotSupported`, the warnings of one entry, and the sorted export loop.

The source behaves as follows, and the model keeps it:

- The override log is not limited to a default being replaced.
  A line is logged whenever the key is already present.
  That includes an earlier variable of the filter scope for the same key (`DuplicateTargetExample`).
  It also includes every default "overriding" itself when the filter is `*` (`StarFilterLogsEveryDefault`).
- "With only defaults, nothing is logged" holds only for filters other than `*` (`DefaultsOnly`).
- Unfiltered mode can drop a variable.
  Composite keys collide: key `A_B` in scope `C` and key `A` in scope `B_C` are both stored under `A_B_C`, and the later one wins (`CompositeCollision`).
  The entry count equals the number of distinct (key, scope) pairs only when no composite keys collide (`UnfilteredSize`).
- The key check uses Python's `$`, which also matches before one trailing newline.
  So `"ABC\n"` is not flagged (`KeyPatternEdgeCases`).
- The key check reads the entry's own `key` field, not the dictionary key.
  In unfiltered mode the dictionary key is the composite key.

## Model

| member | source | states |
|---|---|---|
| `GitlabVariables.VariablesManager.constructor` | src/adaptors/gitlab_variables.py:9-12 | stands for `__init__` without the GitLab client and project lookup; like the source it does not set `log` |
| `Records.Entry` | src/adaptors/gitlab_variables.py:25-30 | the dictionary entry built for one listed variable: its key, value and scope, and the variable itself as `origin` (the same literal appears at lines 36-41 and 50-55) |
| `Records.Composite` | src/adaptors/gitlab_variables.py:25 | the unfiltered dictionary key: the variable's key, an underscore, then its scope |
| `Records.Line` | src/adaptors/gitlab_variables.py:48 | the override log line: `key: old value (scope old scope) -> key: new value (scope new scope)` |
| `Resolution.Unfiltered` | src/adaptors/gitlab_variables.py:22-30 | the unfiltered loop over the first n records: each stored under its composite key, a later one replacing an earlier one; its meaning is proved in `ResolveUnfiltered` |
| `Resolution.Defaults` | src/adaptors/gitlab_variables.py:33-41 | the first filtered loop over the first n records: `*` records stored under their plain key; its meaning is proved in `DefaultsState` |
| `Resolution.TargetPass` | src/adaptors/gitlab_variables.py:43-55 | the second filtered loop over the first n records: a record of the filter scope logs an override when its key is present, then is stored under its plain key; its meaning is proved in `TargetPassState` |
| `Resolution.Resolve` | src/adaptors/gitlab_variables.py:17-57 | `get_variables` as a function: the unfiltered loop for the empty filter, otherwise the defaults then the filter pass, with the log of that call; its meaning is proved in `ResolveUnfiltered` and `ResolveFiltered` |
| `GitlabVariables.VariablesManager.GetVariables` | src/adaptors/gitlab_variables.py:17-57 | the dictionary built by the source's loops is `Resolve(records, filterEnv).variables`; the log field is reset and ends as the lines of exactly that call's overrides |
| `GitlabVariables.VariablesManager.GetVariablesWithLogs` | src/adaptors/gitlab_variables.py:59-60 | returns the dictionary and the log of the same call, and the returned log is the one left in the field |
| `Resolution.LastComposite` | src/adaptors/gitlab_variables.py:24-25 | the index of the last record in list order with a given composite key, or -1 when there is none |
| `Resolution.LastWith` | src/adaptors/gitlab_variables.py:34-45 | the index of the last record in list order with a given key and scope, or -1 when there is none |
| `Resolution.ResolveUnfiltered` | src/adaptors/gitlab_variables.py:22-30 | with the empty filter, the keys are exactly the composite keys `key_scope` of the records; each holds the last record producing that composite key; the log is empty |
| `Resolution.UnfilteredSize` | src/adaptors/gitlab_variables.py:24-30 | unfiltered mode has at most as many entries as distinct (key, scope) pairs, and exactly as many when no composite keys collide |
| `Resolution.CompositeCollision` | src/adaptors/gitlab_variables.py:25 | two distinct pairs, (`A_B`, `C`) and (`A`, `B_C`), give a single entry `A_B_C` holding the later record |
| `Resolution.DefaultsState` | src/adaptors/gitlab_variables.py:33-41 | after the first pass over n records, a key is present iff some of them is a `*` record with that key, and it holds the last such record |
| `Resolution.TargetPassState` | src/adaptors/gitlab_variables.py:43-55 | after the defaults and n records of the second pass, each key holds its last filter-scope record seen so far, else its last default, else nothing; the log is one override per filter-scope record that found its key present, naming the entry it replaced |
| `Resolution.ResolveFiltered` | src/adaptors/gitlab_variables.py:32-55 | with a filter, the keys are exactly those of records whose scope is `*` or the filter; each key holds its last filter-scope record, else its last default; the log is one override per filter-scope record that found its key present, in list order, old value and scope before the new ones |
| `Resolution.ResolvedFromInput` | src/adaptors/gitlab_variables.py:24-55 | every entry is a copy of some listed record (its origin); in unfiltered mode it sits under that record's composite key; in filtered mode it sits under its own key and has scope `*` or the filter |
| `Resolution.LogEmptyIff` | src/adaptors/gitlab_variables.py:44-48 | in filtered mode the log is empty iff no filter-scope record finds its key already present |
| `Resolution.DefaultsOnly` | src/adaptors/gitlab_variables.py:32-55 | when all records have scope `*` and the filter is neither empty nor `*`, the result is the defaults indexed by key and the log is empty |
| `Resolution.StarFilterLogsEveryDefault` | src/adaptors/gitlab_variables.py:44-48 | with the filter `*` and only `*` records, every record finds its key already present (`OverrideAt`), so the log has one line per record |
| `Resolution.OverrideExample` | src/adaptors/gitlab_variables.py:34-55 | default `A`=`1` and `prod` `A`=`2`, filtered on `prod`: the entry is `2`, and the one log entry names `1` (scope `*`) then `2` (scope `prod`) |
| `Resolution.TargetOnlyExample` | src/adaptors/gitlab_variables.py:44-55 | a `prod` record with no default is added and nothing is logged |
| `Resolution.OtherScopeExample` | src/adaptors/gitlab_variables.py:34-45 | a `staging` record does not appear when filtering on `prod` |
| `Resolution.DuplicateTargetExample` | src/adaptors/gitlab_variables.py:44-55 | two `prod` records for one key: the later wins and the replacement of the earlier is logged |
| `Validation.ContainsAny` | src/adaptors/gitlab_variables.py:64-66 | 1 iff some character of the string is in the set, else 0 (0 for the empty string) |
| `Validation.MatchesKeyPattern` | src/adaptors/gitlab_variables.py:69 | the strings `re.match('^[A-Za-z0-9_]+$', s)` accepts: one or more class characters, optionally followed by a single trailing newline |
| `Validation.SupportedRun` | src/adaptors/gitlab_variables.py:69 | the length of the longest leading run of `[A-Za-z0-9_]` characters, which is what the greedy class match consumes |
| `Validation.ContainsNotSupported` | src/adaptors/gitlab_variables.py:68-69 | 0 iff the string is one or more `[A-Za-z0-9_]` characters, optionally followed by one trailing newline; otherwise 1, including for the empty string |
| `Validation.Message` | src/adaptors/gitlab_variables.py:83-85 | the text of the key warning and of the value warning |
| `Validation.WarningsOf` | src/adaptors/gitlab_variables.py:81-85 | the warnings collected for one entry, key check first, then value check; its meaning is proved in `WarningsMeaning` |
| `Validation.WarningsMeaning` | src/adaptors/gitlab_variables.py:81-85 | an entry gets the key warning iff its key fails the pattern, and the value warning iff its value holds `"`, `:` or `#`; each warning at most once, the key warning first |
| `Validation.SortedKeys` | src/adaptors/gitlab_variables.py:77 | the keys of the dictionary in strictly ascending Python string order, each exactly once |
| `Validation.ValidateVariables` | src/adaptors/gitlab_variables.py:75-87 | visits every entry once in ascending key order and pairs it with the warnings collected for it |
| `Validation.ReportIsUnique` | src/adaptors/gitlab_variables.py:77-87 | the report is determined by the dictionary alone, so validating the same dictionary twice gives identical warnings in identical order |
| `Validation.KeyOrderExample` | src/adaptors/gitlab_variables.py:77-83 | keys `b`, `A!`, `a` are visited as `A!`, `a`, `b`; of entries with those keys and value `1`, the `A!` entry gets exactly the key warning and the others none |
| `Validation.SpecialValueExample` | src/adaptors/gitlab_variables.py:84 | `say "hi"` is flagged and `hello world` is not |
| `Validation.KeyPatternEdgeCases` | src/adaptors/gitlab_variables.py:68-69 | the empty key is flagged, `ABC` followed by one newline is not, and `AB` followed by two newlines is |
| `Ordering.LexLess` | src/adaptors/gitlab_variables.py:77 | Python's string order used by `sorted`: the first differing character decides, and a proper prefix comes first; `LexLessTransitive` and `LexLessTotal` prove it a strict total order |
| `Ordering.SortedUnique` | src/adaptors/gitlab_variables.py:77 | two strictly ascending sequences with the same members are equal, so the visiting order of the keys is unique |

## Left out

- `GitlabVariablesManager.__init__` and `fetch_all_variables` (lines 9-15) call the python-gitlab client. The listed variables are a parameter of `GetVariables` instead.
- The `log` field is unset until the first `get_variables` call. The constructor does not set it, so its initial value is unconstrained.
- `origin` is a reference to the listed object in the source. The model holds a copy of the record, so aliasing is not modelled.
- `masked` is carried on each record and never read, as in the resolution logic of the source.
- `containsNotSupported` takes an optional character-class pattern. Only the default `A-Za-z0-9_` is used, and the model fixes it. The regular-expression engine is not modelled: the check is stated directly as a greedy class run followed by Python's `$` rule.
- `print_variables_as_list` and every `print` of `print_variables_with_validation` are console output. This includes the comment lines, the `, `-joined warning line, the blank lines and the log section. The model keeps the visiting order, the warnings per entry and their messages (`Message`).
- `main` (lines 97-142) handles argument and environment-variable parsing, client construction and action dispatch.
- `src/adaptors/aws_secrets.py` holds AWS Secrets Manager calls, JSON handling and stdin reading; it is not part of this model.
- Python strings are sequences of Unicode code points; the model's `char` is Dafny's character type. Both the order and the character classes compare code points.
