# Course filter subsystem of the course status report

A Dafny model of the filter framework behind the course status report. It
covers three things:

- **The registry.** `get_field` maps a known field name to a filter object.
  The `coursesstatus_filtering` constructor keeps one filter per requested
  name that `get_field` knows and drops the other names. When no names are
  requested, it uses a default table.
- **The session filter map.** `$SESSION->coursesstatus_filtering` maps a
  field name to the list of active filters stored under it. On each request
  the constructor appends what the add-filter form produced. When no add
  form was processed, it applies the active-filter form instead: remove
  all, or remove selected.
- **The WHERE-clause assembly.** `get_sql_filter` walks the session map,
  asks each registered field for its fragment and parameters, joins the
  fragments with ` AND ` and merges the parameters with PHP's array `+`.

The code of the yes/no filter (`coursesstatus_filter_yesno`) in
filters/yesno.php is modelled completely: its constructor and its
`get_sql_filter`. It has a fixed 0/1 option set and a function-static
counter that names its SQL parameters `ex_yesno0`, `ex_yesno1`, …. The
`check_data`, `setupForm` and `get_label` it inherits are not modelled (see
"Left out").

Modules, one per concern:

| file | module | models |
|---|---|---|
| php.dfy | `Php` | PHP values used by the code: `empty()` on strings, integer-to-string, array `+`, `implode` |
| filter_type.dfy | `FilterType` | the field object (`coursesstatus_filter_type` and its kinds), filter data, a field's SQL result, `$this->_fields[$name]` |
| yesno.dfy | `YesNo` | the yes/no filter; class `YesNoCounter` holds the static counter |
| registry.dfy | `Registry` | `get_field`, the default table and the constructor's registry loop |
| filter_set.dfy | `FilterSet` | the session map as values (`Append`, `AddAll`, `RemoveSelected`); class `FilterSession` with the constructor's add, remove-all and remove-selected loops |
| assembly.dfy | `Assembly` | `get_sql_filter` as a specification: the visited filters (`Jobs`), one loop step (`Step`), the whole loop (`Run`) and the result (`Assemble`), plus an independent reading (`Fragments`) |
| filtering.dfy | `Filtering` | class `Filtering`: the constructor over one request, and `get_sql_filter` as loops proved against `Assemble` |

How PHP is represented:

- A PHP array with ordered keys is a `seq` of entries with distinct names.
  An index list is a `seq<Item>`, where each item keeps the integer index
  PHP gave it.
- `$list[] = $data` uses one more than the last index, or 0 for an empty
  list. The session map is re-read from the session on every request, so
  this is PHP's next free index at the time of the append.
- A filter whose `get_sql_filter` returns `array()` makes `list($s, $p)`
  yield nulls. `$params + null` then raises PHP's "Unsupported operand
  types" error. The model returns the outcome `OperandError` there and
  visits no later filter.

## Model

| member | source | states |
|---|---|---|
| Php.IsEmptyIff | filters/lib.php:102-108 | PHP's `empty()` on a submitted string is false exactly when the string has two or more characters, or one character other than '0' |
| Php.DecimalString | filters/yesno.php:53 | the counter prints as decimal digits only, with no leading zero; it is one digit exactly when the value is below 10 |
| Php.DecimalStringValue | filters/yesno.php:53 | reading the printed digits back gives the counter value |
| Php.DecimalStringInjective | filters/yesno.php:52-53 | distinct counter values print as distinct digit strings |
| Php.JoinSingle | filters/lib.php:200 | `implode` of a single fragment is that fragment, with no separator |
| Php.JoinConcat | filters/lib.php:200 | `implode` of two non-empty lists, one after the other, is the two results with one separator between them |
| Php.LeftUnion | filters/lib.php:192 | `$params + $p` has the keys of both; a key already in `$params` keeps its value, and a new key takes `$p`'s value |
| FilterType.LookupField | filters/lib.php:185-188 | the field found under a name is in the registry and carries that name; no field is found only when no registered field has the name |
| Registry.GetField | filters/lib.php:132-166 | a filter is returned exactly for the eight known names. Name, advanced flag and column come from the request. The kind is text for fullname/shortname/idnumber, date for startdate/timecreated/timemodified, select for category (with the category options) and yes/no for visible. Other names give null |
| Registry.ResolveContents | filters/lib.php:70-74 | every requested known name has its filter in the registry, and every registered filter comes from some request |
| Registry.ResolveDistinct | filters/lib.php:70-74 | unique requested names give a registry with unique names, each of them a known name |
| Registry.ResolveAllKnown | filters/lib.php:70-74 | when every requested name is known, the registry has one filter per request, in request order |
| Registry.DefaultDistinct | filters/lib.php:63-65 | the default table names each field once |
| Registry.RequestedDistinct | filters/lib.php:63-74 | unique requested names, or the default table when none are requested, give a registry with unique names |
| Registry.ResolveFields | filters/lib.php:63-74 | the constructor's loop builds the registry from the requests, or from the default table when none are given |
| Registry.DefaultRegistry | filters/lib.php:63-66 | with no names requested, all eight default fields are registered in table order; fullname is basic and the other seven are advanced |
| YesNo.YesNoField | filters/yesno.php:41-43 | the yes/no field is a select whose options are exactly 0 => 'no' and 1 => 'yes', with the given name, label, advanced flag and column |
| YesNo.ParamName | filters/yesno.php:53 | the parameter name is `ex_yesno` followed by exactly the counter's decimal digits, with nothing in between or after |
| YesNo.ParamNameZero | filters/yesno.php:52-53 | the first name handed out is `ex_yesno0` |
| YesNo.ParamNamesDistinct | filters/yesno.php:52-53 | different counter values give different parameter names |
| YesNo.YesNoSql | filters/yesno.php:51-61 | no condition exactly when the value is ''. Otherwise the fragment is `<column>=:<name>` and the parameters bind exactly that one name to the value |
| YesNo.VisibleSqlAtZero | filters/yesno.php:51-61 | `visible` set to 1 with the counter at 0 gives `visible=:ex_yesno0` binding `ex_yesno0` to '1' |
| YesNo.YesNoCallsBindDisjointNames | filters/yesno.php:52-60 | two calls at different counter values bind disjoint parameter names |
| YesNo.YesNoCounter.constructor | filters/yesno.php:52 | the static counter starts at 0 |
| YesNo.YesNoCounter.SqlFilter | filters/yesno.php:51-61 | every call, including one that returns no condition, takes the current counter value for its name and advances the counter by one |
| FilterSet.AppendItems | filters/lib.php:86-89 | appending under a name adds the new filter at the end of that key's list under the next index. The key is created last when absent. No other key changes, and the map stays well formed |
| FilterSet.AddAllItems | filters/lib.php:80-90 | the add step appends each registered field's non-false `check_data` result to that field's list. Fields whose result is false, and keys of unregistered names, keep their lists. Existing keys keep their places |
| FilterSet.Push | filters/lib.php:86-89 | creating the key with an empty list when it is absent and then pushing onto it is the same as `Append` |
| FilterSet.WithoutMembers | filters/lib.php:106-112 | after the unsets, a stored filter remains exactly when its index was not unset; the remaining filters keep their indexes |
| FilterSet.UnsetMarked | filters/lib.php:106-112 | the checkbox loop unsets exactly the indexes whose submitted value is not empty |
| FilterSet.RemovePassItems | filters/lib.php:106-115 | one field's pass unsets its marked indexes and deletes the key only when nothing is left. Every other key and the key order are kept |
| FilterSet.RemoveSelectedItems | filters/lib.php:105-116 | remove-selected leaves under each key exactly the filters whose index was not marked, with their original indexes. A key is deleted only when emptied, the key order is kept and the map stays well formed |
| FilterSet.UnselectedUntouched | filters/lib.php:105-116 | a key that no submitted selection names keeps its list |
| FilterSet.AddThenRemoveRestores | filters/lib.php:80-116 | adding a filter under a name and then removing the index it received restores the map, including deleting a key that only that filter created |
| FilterSet.FilterSession.constructor | filters/lib.php:59 | a session in which the filter map was never set |
| FilterSet.FilterSession.Initialise | filters/lib.php:59-61 | afterwards the map is set; an unset map becomes the empty map and a set one is unchanged |
| FilterSet.FilterSession.Add | filters/lib.php:80-90 | the add loop leaves the map that `AddAll` describes, and keeps it well formed |
| FilterSet.FilterSession.RemoveAll | filters/lib.php:102-103 | the map is set and empty, whatever it held |
| FilterSet.FilterSession.RemoveSelectedFilters | filters/lib.php:105-116 | the remove loop leaves the map that `RemoveSelected` describes, and keeps it well formed |
| Assembly.EntryJobs | filters/lib.php:184-193 | a key contributes no filter to the assembly exactly when its name is unregistered or its list is empty. Every filter it contributes is rendered by the registered field of the key's own name |
| Assembly.JobsEmptyIff | filters/lib.php:183-193 | the assembly visits no filter exactly when every key is either unregistered or holds no filter |
| Assembly.UnregisteredEntryIgnored | filters/lib.php:185-187 | taking out a key whose name is not registered changes neither the visited filters nor the result |
| Assembly.RunFailsIff | filters/lib.php:189-193 | the loop ends in the `$params + null` error exactly when some visited filter's `get_sql_filter` returns `array()` |
| Assembly.RunAbortsAt | filters/lib.php:189-193 | after the error no later filter is visited |
| Assembly.FragmentsAt | filters/lib.php:184-193 | the k-th fragment is the k-th visited filter rendered with the counter moved once per yes/no filter before it |
| Assembly.RunFragments | filters/lib.php:177-193 | when no error is raised, `$sqls` is the caller fragment (if not '') followed by one fragment per visited filter in visiting order, and the counter has moved once per yes/no filter |
| Assembly.CallerParamsKept | filters/lib.php:181-192 | every parameter the caller passed is still present, with its original value |
| Assembly.RunParams | filters/lib.php:181-193 | without the error, `$params` binds a name exactly when the caller or some visited filter binds it. A name the caller does not bind has the value given by the first filter that binds it |
| Assembly.AssembleShape | filters/lib.php:174-203 | the result is the error exactly when some visited filter returns `array()`. It is `('', [])` when there is no caller fragment and no filter was visited. Otherwise it is the caller fragment and the filter fragments joined with ' AND '. The parameters are then the caller's, with their values, plus every name a filter binds that the caller does not, with the first binding filter's value |
| Assembly.AssembleNoFilters | filters/lib.php:174-203 | with no stored filter under any registered name, the result is the caller's fragment with the caller's parameters, or `('', [])` when the fragment is '' |
| Assembly.YesNoParamsDistinct | filters/lib.php:189-193 | over valued yes/no filters, when the caller's parameters use no `ex_yesno` name, the k-th filter's value is bound under `ex_yesno<counter + k>`, so no binding is lost to a key clash |
| Assembly.VisibleOnlyScenario | filters/lib.php:174-203 | a session holding one `visible` filter with value 1, with the counter at 0, assembles to `visible=:ex_yesno0` binding `ex_yesno0` to '1' |
| Filtering.RequestOutcomes | filters/lib.php:79-121 | a processed add submission appends and removes nothing, whatever the active form held. Otherwise 'remove all' empties the map. A request with neither form submitted only creates the map when it is unset |
| Filtering.RequestKeepsWellFormed | filters/lib.php:56-124 | one request (create if unset, then add, or else remove all or remove selected) keeps the session map well formed |
| Filtering.RequestRemovesOnlyMarked | filters/lib.php:101-116 | a remove-selected submission leaves under each key exactly the filters that were not marked |
| Filtering.Filtering.constructor | filters/lib.php:56-124 | the registry is the resolved request list, with unique names. The session map is set, well formed, and equal to the map after the add step. When no add form was processed, it is instead the map after the active-filter step |
| Filtering.Filtering.SqlFilter | filters/lib.php:174-203 | the result is `Assemble` over the session map (none when unset). The counter ends where the specification loop leaves it |
| Filtering.RenderEntries | filters/lib.php:183-195 | the outer loop over the session keys ends in the state `Run` gives for the visited filters, the error included |
| Filtering.RenderFilters | filters/lib.php:189-193 | the inner loop over one field's stored filters ends in the state `Run` gives for those filters |
| Filtering.FieldSqlFilter | filters/lib.php:190 | a field's `get_sql_filter` is the yes/no one for yes/no fields and the external one otherwise; only yes/no fields move the counter |
| Filtering.AbortAfter | filters/lib.php:184-195 | an error raised while visiting the first keys is the result of the whole loop |

## Left out

- The bodies of `check_data` and `get_sql_filter` of the text, date and select filters are not part of this model. Nor is `coursesstatus_filter_simpleselect`, whose `check_data` the yes/no filter inherits. `check_data` of every kind, the yes/no filter included, is the function parameter `check`. The other kinds' `get_sql_filter` is the parameter `other`. The model states its results for any such functions.
- The abstract methods of `coursesstatus_filter_type` (filters/lib.php:263-291) only raise `print_error`. They are not modelled as error paths. A field's kind chooses its behaviour.
- `get_label`, `setupForm`, the add and active forms, `display_add` and `display_active` are left out: they render HTML.
- Clearing `$_POST` is modelled only by its effect on the active form: after a processed add submission, the active form reads no data, so nothing is removed on that request (`ActiveSeen`). Rebuilding the forms for display is left out.
- `other` is a pure function of the field and the filter data. A text, date or select filter whose `get_sql_filter` named its parameters from a static counter of its own, as the yes/no filter does, cannot be expressed; only the yes/no counter is threaded through the loop.
- `get_string` is left out. A field keeps the language-string key of its label (`labelKey`) rather than the translated text.
- The category options that `get_field` reads from the database, and their "name (idnumber)" labels, are an input (`categories`).
- The key order of the `$params` array is left out. `Params` is a map, and only which names are bound to which values is modelled.
- PHP values are strings in the model. The loose `==` between the yes/no value and '' is modelled as string equality, and a missing `value` key reads as ''.
- Within one request PHP's next free index does not go back after `unset`. The model uses one past the last remaining index, which is what PHP uses once the map has been re-read from the session on a later request. One request either appends or removes, never both, so it never appends after a removal.
- index.php and settings.php (page output, database queries, export, admin settings) are not part of this model.
- Filtering.Filtering.SqlFilter: the PHP error raised by `$params + null` is the outcome `OperandError`, not an exception. The fragment the failing filter added to `$sqls` before the error is not observable and is not modelled.
- The model follows the code, not the documented intent, in two places:
  - A filter returning `array()` is not skipped. It raises the error (filters/lib.php:190-192).
  - With no fragments at all, the caller's parameters are dropped and `('', [])` is returned (filters/lib.php:197-198).
