/**
 * The yes/no filter (`coursesstatus_filter_yesno`): a simple select over
 * the two options 0 and 1 whose SQL condition compares an integer column
 * with a named parameter. The parameter name comes from a counter shared by
 * every yes/no field, which `YesNoCounter` holds.
 */
module YesNo {
  import opened Php
  import opened FilterType

  const ParamPrefix: string := "ex_yesno"

  /**
   * The constructor: a simple select whose options are fixed to
   * 0 => get_string('no') and 1 => get_string('yes').
   */
  function YesNoField(name: FieldName, labelKey: string, advanced: bool, column: string): (f: Field)
    ensures f.kind == YesNo && f.options.Keys == {0, 1}
    ensures f.options[0] == "no" && f.options[1] == "yes"
    ensures f.name == name && f.labelKey == labelKey && f.advanced == advanced && f.column == column
  {
    Field(name, labelKey, advanced, column, YesNo, map[0 := "no", 1 := "yes"])
  }

  /** The parameter name for counter value `counter`: 'ex_yesno' followed by its digits. */
  function ParamName(counter: nat): (n: string)
    ensures |n| > |ParamPrefix| && n[..|ParamPrefix|] == ParamPrefix
    ensures n[|ParamPrefix|..] == DecimalString(counter)
  {
    ParamPrefix + DecimalString(counter)
  }

  /** The first name the counter hands out. */
  lemma ParamNameZero()
    ensures ParamName(0) == "ex_yesno0"
  {
    assert DecimalString(0) == [DigitChar(0)] == "0";
  }

  /** Distinct counter values name distinct parameters. */
  lemma ParamNamesDistinct(a: nat, b: nat)
    requires a != b
    ensures ParamName(a) != ParamName(b)
  {
    if ParamName(a) == ParamName(b) {
      assert DecimalString(a) == ParamName(a)[|ParamPrefix|..];
      assert DecimalString(b) == ParamName(b)[|ParamPrefix|..];
      DecimalStringInjective(a, b);
    }
  }

  /** `$data['value']`; a missing key reads as null, which compares equal to ''. */
  function Value(data: FilterData): string {
    if "value" in data then data["value"] else ""
  }

  /**
   * `get_sql_filter` for counter value `counter`: no condition when the
   * value is '', otherwise "<column>=:<name>" binding the one parameter
   * <name> to the value.
   */
  function YesNoSql(column: string, data: FilterData, counter: nat): (r: SqlResult)
    ensures r.NoCondition? <==> Value(data) == ""
    ensures r.Condition? ==> r.params.Keys == {ParamName(counter)}
    ensures r.Condition? ==> r.params[ParamName(counter)] == Value(data)
    ensures r.Condition? ==> r.sql == column + "=:" + ParamName(counter)
  {
    var name := ParamName(counter);
    if Value(data) == "" then NoCondition
    else Condition(column + "=:" + name, map[name := Value(data)])
  }

  /** The `visible` column set to 1 with the counter at 0 binds ex_yesno0. */
  lemma VisibleSqlAtZero()
    ensures YesNoSql("visible", map["value" := "1"], 0) == Condition("visible=:ex_yesno0", map["ex_yesno0" := "1"])
  {
    ParamNameZero();
    assert "visible" + "=:" + "ex_yesno0" == "visible=:ex_yesno0";
  }

  /** Two calls made at different counter values bind disjoint parameter names. */
  lemma YesNoCallsBindDisjointNames(column1: string, data1: FilterData, c1: nat,
                                    column2: string, data2: FilterData, c2: nat)
    requires c1 != c2
    requires YesNoSql(column1, data1, c1).Condition? && YesNoSql(column2, data2, c2).Condition?
    ensures YesNoSql(column1, data1, c1).params.Keys !! YesNoSql(column2, data2, c2).params.Keys
  {
    ParamNamesDistinct(c1, c2);
  }

  /** The function-static `$counter` of `get_sql_filter`, shared by every yes/no field. */
  class YesNoCounter {
    var counter: nat

    constructor ()
      ensures counter == 0
    {
      counter := 0;
    }

    /** `get_sql_filter($data)` of the yes/no field `field`: takes a name, then bumps the counter. */
    method SqlFilter(field: Field, data: FilterData) returns (r: SqlResult)
      modifies this
      ensures counter == old(counter) + 1
      ensures r == YesNoSql(field.column, data, old(counter))
    {
      var name := ParamName(counter);
      counter := counter + 1;
      var value := Value(data);
      if value == "" {
        return NoCondition;
      }
      r := Condition(field.column + "=:" + name, map[name := value]);
    }
  }
}
