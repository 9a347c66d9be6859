/**
 * The shared vocabulary of the filter framework: a filter field (the
 * `coursesstatus_filter_type` base object and its subclasses), the data one
 * active filter stores, and what a field's SQL generation returns.
 */
module FilterType {
  import opened Php

  type FieldName = string

  /** The data a field's `check_data` produces and the session stores, e.g. `value` => "1". */
  type FilterData = map<string, string>

  /** The submitted add-filter form, control name => submitted value. */
  type FormData = map<string, string>

  /** The filter classes the registry can construct. */
  datatype Kind = Text | Date | Select | YesNo

  /**
   * One constructed filter field. `labelKey` holds the language-string
   * identifier passed to `get_string`; `column` is the table column the
   * SQL fragment compares; `options` is the option map of select kinds.
   */
  datatype Field = Field(
    name: FieldName,
    labelKey: string,
    advanced: bool,
    column: string,
    kind: Kind,
    options: map<int, string>)

  /**
   * What a field's `get_sql_filter` returns: `array()` (no condition) or
   * `array($sql, $params)`.
   */
  datatype SqlResult = NoCondition | Condition(sql: string, params: Params)

  /** The field registered under `name`, as `$this->_fields[$name]`. */
  function LookupField(registry: seq<Field>, name: FieldName): (r: Option<Field>)
    ensures r.Some? ==> r.value in registry && r.value.name == name
    ensures r.None? ==> forall i :: 0 <= i < |registry| ==> registry[i].name != name
  {
    if |registry| == 0 then None
    else if registry[0].name == name then Some(registry[0])
    else LookupField(registry[1..], name)
  }

  /** Registry keys are unique, as the keys of a PHP array are. */
  ghost predicate DistinctFieldNames(registry: seq<Field>) {
    forall i, j :: 0 <= i < j < |registry| ==> registry[i].name != registry[j].name
  }
}
