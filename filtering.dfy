/**
 * `coursesstatus_filtering` itself: the constructor, which resolves the
 * registry and then applies one request's add-filter and active-filter
 * submissions to the session filter set, and `get_sql_filter`, which walks
 * the session filter set and assembles the WHERE clause.
 */
module Filtering {
  import opened Php
  import opened FilterType
  import opened YesNo
  import opened Registry
  import opened FilterSet
  import opened Assembly

  /**
   * The submitted active-filter form: the two buttons and the checkboxes
   * `filter[<field>][<index>]`, grouped by field in submission order.
   */
  datatype ActiveForm = ActiveForm(removeAll: string, removeSelected: string, filter: seq<Selection>)

  /** The session filter set after the add step: unchanged when no add form was submitted. */
  function AfterAdd(entries: seq<Entry>, fields: seq<Field>, addData: Option<FormData>,
                    check: (Field, FormData) -> Option<FilterData>): seq<Entry>
  {
    match addData
    case None => entries
    case Some(form) => AddAll(entries, fields, form, check)
  }

  /**
   * The session filter set after the active-filter step: 'remove all'
   * empties it, otherwise 'remove selected' with a non-empty selection
   * unsets the marked filters; any other submission leaves it alone.
   */
  function AfterActive(entries: seq<Entry>, activeData: Option<ActiveForm>): seq<Entry> {
    match activeData
    case None => entries
    case Some(a) =>
      if !IsEmpty(a.removeAll) then []
      else if !IsEmpty(a.removeSelected) && a.filter != [] then RemoveSelected(entries, a.filter)
      else entries
  }

  /**
   * What the active-filter form reads on a request. Processing an add
   * submission empties `$_POST` before the active form is built, so that
   * form then reads nothing.
   */
  function ActiveSeen(addData: Option<FormData>, activeData: Option<ActiveForm>): Option<ActiveForm> {
    if addData.Some? then None else activeData
  }

  /** The session filter set one constructor call leaves: create if unset, add, then remove. */
  function AfterRequest(present: bool, entries: seq<Entry>, fields: seq<Field>, addData: Option<FormData>,
                        check: (Field, FormData) -> Option<FilterData>, activeData: Option<ActiveForm>): seq<Entry>
  {
    AfterActive(AfterAdd(if present then entries else [], fields, addData, check), ActiveSeen(addData, activeData))
  }

  /**
   * The outcomes of one request: a processed add submission appends and
   * removes nothing, whatever the active form held; otherwise 'remove all'
   * empties the set, and a request with neither submission creates the set
   * when it is unset and changes nothing else.
   */
  lemma RequestOutcomes(present: bool, entries: seq<Entry>, fields: seq<Field>, addData: Option<FormData>,
                        check: (Field, FormData) -> Option<FilterData>, activeData: Option<ActiveForm>)
    ensures addData.Some? ==>
      AfterRequest(present, entries, fields, addData, check, activeData)
        == AddAll(if present then entries else [], fields, addData.value, check)
    ensures addData.None? && activeData.Some? && !IsEmpty(activeData.value.removeAll) ==>
      AfterRequest(present, entries, fields, addData, check, activeData) == []
    ensures addData.None? && activeData.None? ==>
      AfterRequest(present, entries, fields, addData, check, activeData) == (if present then entries else [])
  {
  }

  /**
   * One request keeps the session filter set well formed: unique keys, no
   * empty list under a key, and increasing indexes along each list.
   */
  lemma RequestKeepsWellFormed(present: bool, entries: seq<Entry>, fields: seq<Field>, addData: Option<FormData>,
                               check: (Field, FormData) -> Option<FilterData>, activeData: Option<ActiveForm>)
    requires WellFormed(entries) && DistinctFieldNames(fields)
    ensures WellFormed(AfterRequest(present, entries, fields, addData, check, activeData))
  {
    var s0 := if present then entries else [];
    if addData.Some? {
      AddAllItems(s0, fields, addData.value, check);
    }
    var s1 := AfterAdd(s0, fields, addData, check);
    var seen := ActiveSeen(addData, activeData);
    if seen.Some? && IsEmpty(seen.value.removeAll) && !IsEmpty(seen.value.removeSelected)
       && seen.value.filter != [] {
      RemoveSelectedItems(s1, seen.value.filter);
    }
  }

  /**
   * A 'remove selected' submission leaves under each key exactly the filters
   * whose index was not marked with a non-empty value; keys it does not name
   * keep their lists.
   */
  lemma RequestRemovesOnlyMarked(entries: seq<Entry>, fields: seq<Field>, sel: seq<Selection>,
                                 check: (Field, FormData) -> Option<FilterData>)
    requires WellFormed(entries)
    requires sel != []
    ensures var r := AfterRequest(true, entries, fields, None, check, Some(ActiveForm("", "1", sel)));
      forall k :: ItemsOf(r, k) == Without(ItemsOf(entries, k), Selected(sel, k))
  {
    assert !IsEmpty("1") && IsEmpty("");
    var r := AfterRequest(true, entries, fields, None, check, Some(ActiveForm("", "1", sel)));
    assert r == RemoveSelected(entries, sel);
    RemoveSelectedItems(entries, sel);
  }

  /** The session filter map `get_sql_filter` walks: none when it was never set. */
  function StoredOf(session: FilterSession): seq<Entry>
    reads session
  {
    if session.present then session.entries else []
  }

  /** The one object the report creates: the fields it registered. */
  class Filtering {
    var fields: seq<Field>

    /**
     * `new coursesstatus_filtering($fieldnames)` on one request: create the
     * session set if unset, resolve the registry, apply the submitted
     * add-filter form when one was submitted, or else the submitted
     * active-filter form when one was submitted. The requested names are
     * the keys of a PHP array, so they are unique.
     */
    constructor (session: FilterSession, fieldnames: seq<Request>, categories: map<int, string>,
                 addData: Option<FormData>, check: (Field, FormData) -> Option<FilterData>,
                 activeData: Option<ActiveForm>)
      requires session.Valid()
      requires DistinctRequests(fieldnames)
      modifies session
      ensures fields == Resolve(Requested(fieldnames), categories)
      ensures DistinctFieldNames(fields)
      ensures session.Valid() && session.present
      ensures session.entries
           == AfterRequest(old(session.present), old(session.entries), fields, addData, check, activeData)
    {
      session.Initialise();
      var resolved := ResolveFields(fieldnames, categories);
      fields := resolved;
      RequestedDistinct(fieldnames, categories);
      if addData.Some? {
        session.Add(resolved, addData.value, check);
      }
      var seen := ActiveSeen(addData, activeData);
      if seen.Some? {
        var a := seen.value;
        if !IsEmpty(a.removeAll) {
          session.RemoveAll();
        } else if !IsEmpty(a.removeSelected) && a.filter != [] {
          session.RemoveSelectedFilters(a.filter);
        }
      }
    }

    /**
     * `get_sql_filter($extra, $params)`: one fragment per stored filter of
     * every registered field, each field's own `get_sql_filter` called in
     * map order and list order; the yes/no ones draw their parameter name
     * from `counter`. The other kinds' `get_sql_filter` is `other`.
     */
    method SqlFilter(session: FilterSession, counter: YesNoCounter, other: (Field, FilterData) -> SqlResult,
                     extra: string, params: Params) returns (out: SqlOutcome)
      modifies counter
      ensures out == Assemble(StoredOf(session), fields, extra, params, old(counter.counter), other)
      ensures counter.counter == Run(Jobs(StoredOf(session), fields), Start(extra, params, old(counter.counter)), other).counter
    {
      var es := if session.present then session.entries else [];
      var sqls: seq<string> := if extra != "" then [extra] else [];
      var failed, ps;
      failed, sqls, ps := RenderEntries(counter, fields, es, other, sqls, params);
      if failed {
        return OperandError;
      }
      if sqls == [] {
        out := Where("", map[]);
      } else {
        out := Where(Join(sqls, " AND "), ps);
      }
    }
  }

  /**
   * The outer loop of `get_sql_filter` over the session map in key order:
   * keys with no registered field are skipped, the others' stored filters
   * rendered in list order; `failed` reports the error that ends the loop.
   */
  method RenderEntries(counter: YesNoCounter, fields: seq<Field>, es: seq<Entry>, other: (Field, FilterData) -> SqlResult,
                       sqls0: seq<string>, ps0: Params) returns (failed: bool, sqls: seq<string>, ps: Params)
    modifies counter
    ensures Run(Jobs(es, fields), Acc(sqls0, ps0, old(counter.counter), false), other)
         == Acc(sqls, ps, counter.counter, failed)
  {
    ghost var start := Acc(sqls0, ps0, counter.counter, false);
    failed, sqls, ps := false, sqls0, ps0;
    var i := 0;
    while i < |es|
      invariant 0 <= i <= |es|
      invariant Run(Jobs(es[..i], fields), start, other) == Acc(sqls, ps, counter.counter, false)
    {
      JobsStep(es, i, fields, start, other);
      var found := LookupField(fields, es[i].name);
      if found.Some? {
        failed, sqls, ps := RenderFilters(counter, found.value, es[i].items, other, sqls, ps);
        if failed {
          AbortAfter(es, fields, i + 1, start, other);
          return;
        }
      }
      i := i + 1;
    }
    assert es[..i] == es;
  }

  /**
   * The inner loop of `get_sql_filter` over the stored filters of one
   * registered field: render each, append its fragment and merge its
   * parameters, and stop with `failed` at the first that renders to nothing.
   */
  method RenderFilters(counter: YesNoCounter, field: Field, items: seq<Item>, other: (Field, FilterData) -> SqlResult,
                       sqls0: seq<string>, ps0: Params) returns (failed: bool, sqls: seq<string>, ps: Params)
    modifies counter
    ensures Run(FieldJobs(field, items), Acc(sqls0, ps0, old(counter.counter), false), other)
         == Acc(sqls, ps, counter.counter, failed)
  {
    ghost var jobs := FieldJobs(field, items);
    ghost var start := Acc(sqls0, ps0, counter.counter, false);
    failed, sqls, ps := false, sqls0, ps0;
    assert jobs[..0] == [];
    var j := 0;
    while j < |items|
      invariant 0 <= j <= |items|
      invariant Run(jobs[..j], start, other) == Acc(sqls, ps, counter.counter, false)
    {
      ghost var c := counter.counter;
      assert jobs[j] == Job(field, items[j].data);
      var r := FieldSqlFilter(counter, field, items[j].data, other);
      RunPrefixStep(jobs, j, start, other);
      if r.NoCondition? {
        RunAbortsAt(jobs, j + 1, start, other);
        return true, sqls, ps;
      }
      sqls := sqls + [r.sql];
      ps := LeftUnion(ps, r.params);
      j := j + 1;
    }
    assert jobs[..j] == jobs;
  }

  /** `$field->get_sql_filter($data)`: the yes/no field's own method, the other kinds' through `other`. */
  method FieldSqlFilter(counter: YesNoCounter, field: Field, data: FilterData, other: (Field, FilterData) -> SqlResult)
      returns (r: SqlResult)
    modifies counter
    ensures r == Render(Job(field, data), old(counter.counter), other)
    ensures counter.counter == Tick(Job(field, data), old(counter.counter))
  {
    if field.kind == YesNo {
      r := counter.SqlFilter(field, data);
    } else {
      r := other(field, data);
    }
  }

  /** Visiting one more key runs its stored filters from where the earlier keys left the loop. */
  lemma JobsStep(es: seq<Entry>, i: nat, registry: seq<Field>, start: Acc, other: (Field, FilterData) -> SqlResult)
    requires i < |es|
    ensures Run(Jobs(es[..i + 1], registry), start, other)
         == Run(EntryJobs(es[i], registry), Run(Jobs(es[..i], registry), start, other), other)
  {
    assert es[..i + 1][..i] == es[..i];
    RunConcat(Jobs(es[..i], registry), EntryJobs(es[i], registry), start, other);
  }

  lemma RunPrefixStep(jobs: seq<Job>, j: nat, start: Acc, other: (Field, FilterData) -> SqlResult)
    requires j < |jobs|
    ensures Run(jobs[..j + 1], start, other) == Step(Run(jobs[..j], start, other), jobs[j], other)
  {
    assert jobs[..j + 1][..j] == jobs[..j];
  }

  /** An error raised while visiting the first `n` keys is the result of the whole assembly. */
  lemma AbortAfter(es: seq<Entry>, registry: seq<Field>, n: nat, start: Acc, other: (Field, FilterData) -> SqlResult)
    requires n <= |es| && Run(Jobs(es[..n], registry), start, other).failed
    ensures Run(Jobs(es, registry), start, other) == Run(Jobs(es[..n], registry), start, other)
  {
    JobsPrefix(es, n, registry);
    RunAbortsAt(Jobs(es, registry), |Jobs(es[..n], registry)|, start, other);
  }
}
