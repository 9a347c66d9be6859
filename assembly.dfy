/**
 * The WHERE-clause assembly of `coursesstatus_filtering::get_sql_filter`:
 * an optional caller fragment, then one fragment per stored filter of every
 * registered field (map order, then list order), joined with ' AND ', and
 * the parameters merged with PHP's left-biased array `+`.
 */
module Assembly {
  import opened Php
  import opened FilterType
  import opened YesNo
  import opened FilterSet

  /** One stored filter to render: the registered field and the stored data. */
  datatype Job = Job(field: Field, data: FilterData)

  /** The stored filters of one registered field, in list order. */
  function FieldJobs(f: Field, items: seq<Item>): seq<Job>
  {
    seq(|items|, i requires 0 <= i < |items| => Job(f, items[i].data))
  }

  /**
   * The filters of one key, in list order, when its name is registered;
   * nothing otherwise. A key contributes no filter exactly when it is
   * silent, and every filter it contributes is rendered by the registered
   * field of the key's own name.
   */
  function EntryJobs(e: Entry, registry: seq<Field>): (r: seq<Job>)
    ensures r == [] <==> Silent(e, registry)
    ensures forall j :: j in r ==> j.field in registry && j.field.name == e.name
  {
    match LookupField(registry, e.name)
    case None => []
    case Some(f) => FieldJobs(f, e.items)
  }

  /** Every filter the assembly loop visits, in visiting order. */
  function Jobs(es: seq<Entry>, registry: seq<Field>): seq<Job>
    decreases |es|
  {
    if |es| == 0 then []
    else Jobs(es[..|es| - 1], registry) + EntryJobs(es[|es| - 1], registry)
  }

  /** What `get_sql_filter` returns, or the error `$params + $p` raises when `$p` is null. */
  datatype SqlOutcome = Where(sql: string, params: Params) | OperandError

  /**
   * The assembly loop's state: `$sqls`, `$params`, the yes/no counter and
   * whether the loop has been aborted by the error.
   */
  datatype Acc = Acc(sqls: seq<string>, params: Params, counter: nat, failed: bool)

  /** A field's `get_sql_filter`: the yes/no field's own, the other kinds' through `other`. */
  function Render(job: Job, counter: nat, other: (Field, FilterData) -> SqlResult): SqlResult {
    if job.field.kind == YesNo then YesNoSql(job.field.column, job.data, counter)
    else other(job.field, job.data)
  }

  /** The yes/no counter after rendering `job`. */
  function Tick(job: Job, counter: nat): nat {
    if job.field.kind == YesNo then counter + 1 else counter
  }

  /** One iteration of the inner loop. */
  function Step(acc: Acc, job: Job, other: (Field, FilterData) -> SqlResult): Acc {
    if acc.failed then acc
    else
      match Render(job, acc.counter, other)
      case NoCondition => Acc(acc.sqls, acc.params, Tick(job, acc.counter), true)
      case Condition(s, p) => Acc(acc.sqls + [s], LeftUnion(acc.params, p), Tick(job, acc.counter), false)
  }

  /** The loop over `jobs` from state `start`. */
  function Run(jobs: seq<Job>, start: Acc, other: (Field, FilterData) -> SqlResult): Acc
    decreases |jobs|
  {
    if |jobs| == 0 then start
    else Step(Run(jobs[..|jobs| - 1], start, other), jobs[|jobs| - 1], other)
  }

  /** The state before the loop: `$sqls` holds `$extra` unless it is '', `$params` the caller's. */
  function Start(extra: string, params: Params, counter: nat): Acc {
    Acc(if extra != "" then [extra] else [], params, counter, false)
  }

  /** After the loop: `('', [])` when `$sqls` is empty, otherwise the joined fragments and `$params`. */
  function Finish(acc: Acc): SqlOutcome {
    if acc.failed then OperandError
    else if acc.sqls == [] then Where("", map[])
    else Where(Join(acc.sqls, " AND "), acc.params)
  }

  /** `get_sql_filter($extra, $params)` over the session map `es` with the yes/no counter at `counter`. */
  function Assemble(es: seq<Entry>, registry: seq<Field>, extra: string, params: Params, counter: nat,
                    other: (Field, FilterData) -> SqlResult): SqlOutcome
  {
    Finish(Run(Jobs(es, registry), Start(extra, params, counter), other))
  }

  // ------------------------------------------------ an independent reading

  /** How many yes/no filters `jobs` holds, i.e. how far the counter moves over them. */
  function YesNoCount(jobs: seq<Job>): nat
    decreases |jobs|
  {
    if |jobs| == 0 then 0
    else YesNoCount(jobs[..|jobs| - 1]) + (if jobs[|jobs| - 1].field.kind == YesNo then 1 else 0)
  }

  /** Whether a filter's `get_sql_filter` returns `array()`; for yes/no that is an empty value. */
  predicate YieldsNothing(job: Job, other: (Field, FilterData) -> SqlResult) {
    if job.field.kind == YesNo then Value(job.data) == "" else other(job.field, job.data).NoCondition?
  }

  function SqlOf(r: SqlResult): string {
    if r.Condition? then r.sql else ""
  }

  /**
   * The fragment of each job, each rendered with the counter moved by the
   * yes/no jobs before it; `FragmentsAt` reads it element by element.
   */
  function Fragments(jobs: seq<Job>, counter: nat, other: (Field, FilterData) -> SqlResult): (r: seq<string>)
    ensures |r| == |jobs|
    decreases |jobs|
  {
    if |jobs| == 0 then []
    else
      var pre := jobs[..|jobs| - 1];
      Fragments(pre, counter, other) + [SqlOf(Render(jobs[|jobs| - 1], counter + YesNoCount(pre), other))]
  }

  // ------------------------------------------------------------ lemmas

  lemma {:induction false} RunFailedStays(jobs: seq<Job>, start: Acc, other: (Field, FilterData) -> SqlResult)
    requires start.failed
    ensures Run(jobs, start, other) == start
    decreases |jobs|
  {
    if |jobs| > 0 {
      RunFailedStays(jobs[..|jobs| - 1], start, other);
    }
  }

  lemma RunSnoc(jobs: seq<Job>, start: Acc, other: (Field, FilterData) -> SqlResult)
    requires |jobs| > 0
    ensures Run(jobs, start, other) == Step(Run(jobs[..|jobs| - 1], start, other), jobs[|jobs| - 1], other)
  {
  }

  /** Running two lists of jobs one after the other is running their concatenation. */
  lemma {:induction false} RunConcat(a: seq<Job>, b: seq<Job>, start: Acc, other: (Field, FilterData) -> SqlResult)
    ensures Run(a + b, start, other) == Run(b, Run(a, start, other), other)
    decreases |b|
  {
    if |b| == 0 {
      assert a + b == a;
    } else {
      var b' := b[..|b| - 1];
      assert (a + b)[..|a + b| - 1] == a + b';
      assert (a + b)[|a + b| - 1] == b[|b| - 1];
      RunConcat(a, b', start, other);
    }
  }

  /** Once the error is raised the rest of the filters are never visited. */
  lemma {:induction false} RunAbortsAt(jobs: seq<Job>, n: nat, start: Acc, other: (Field, FilterData) -> SqlResult)
    requires n <= |jobs| && Run(jobs[..n], start, other).failed
    ensures Run(jobs, start, other) == Run(jobs[..n], start, other)
    decreases |jobs|
  {
    if n < |jobs| {
      assert jobs[..|jobs| - 1][..n] == jobs[..n];
      RunAbortsAt(jobs[..|jobs| - 1], n, start, other);
    } else {
      assert jobs[..n] == jobs;
    }
  }

  /** The jobs of a prefix of the map are a prefix of the jobs of the map. */
  lemma {:induction false} JobsPrefix(es: seq<Entry>, i: nat, registry: seq<Field>)
    requires i <= |es|
    ensures |Jobs(es[..i], registry)| <= |Jobs(es, registry)|
    ensures Jobs(es, registry)[..|Jobs(es[..i], registry)|] == Jobs(es[..i], registry)
    decreases |es|
  {
    if i < |es| {
      assert es[..|es| - 1][..i] == es[..i];
      JobsPrefix(es[..|es| - 1], i, registry);
    } else {
      assert es[..i] == es;
    }
  }

  /** `a == s + f` extended by `x` on both sides stays equal. */
  lemma ExtendBoth<T>(s: seq<T>, f: seq<T>, x: T, a: seq<T>, g: seq<T>, y: seq<T>)
    requires a == s + f && g == f + [x] && y == a + [x]
    ensures y == s + g
  {
    AppendAssociative(s, f, [x]);
  }

  lemma AppendAssociative<T>(x: seq<T>, y: seq<T>, z: seq<T>)
    ensures (x + y) + z == x + (y + z)
  {
  }

  lemma {:induction false} JobsConcat(a: seq<Entry>, b: seq<Entry>, registry: seq<Field>)
    ensures Jobs(a + b, registry) == Jobs(a, registry) + Jobs(b, registry)
    decreases |b|
  {
    if |b| == 0 {
      assert a + b == a;
    } else {
      var b', e := b[..|b| - 1], b[|b| - 1];
      assert (a + b)[..|a + b| - 1] == a + b' && (a + b)[|a + b| - 1] == e;
      JobsConcat(a, b', registry);
      var x, y, z := Jobs(a, registry), Jobs(b', registry), EntryJobs(e, registry);
      assert Jobs(a + b, registry) == (x + y) + z;
      assert Jobs(b, registry) == y + z;
      AppendAssociative(x, y, z);
    }
  }

  /**
   * A map entry whose name is not in the registry contributes nothing: the
   * assembly is the same with that entry taken out.
   */
  lemma UnregisteredEntryIgnored(es: seq<Entry>, i: nat, registry: seq<Field>, extra: string,
                                 params: Params, counter: nat, other: (Field, FilterData) -> SqlResult)
    requires i < |es| && LookupField(registry, es[i].name).None?
    ensures Jobs(es[..i] + es[i + 1..], registry) == Jobs(es, registry)
    ensures Assemble(es[..i] + es[i + 1..], registry, extra, params, counter, other)
         == Assemble(es, registry, extra, params, counter, other)
  {
    SplitAt(es, i);
    JobsSkipUnregistered(es[..i], es[i], es[i + 1..], registry);
  }

  lemma SplitAt<T>(s: seq<T>, i: nat)
    requires i < |s|
    ensures s[..i] + ([s[i]] + s[i + 1..]) == s
  {
    assert [s[i]] + s[i + 1..] == s[i..];
  }

  lemma JobsSkipUnregistered(a: seq<Entry>, e: Entry, b: seq<Entry>, registry: seq<Field>)
    requires LookupField(registry, e.name).None?
    ensures Jobs(a + ([e] + b), registry) == Jobs(a + b, registry)
  {
    assert Jobs([e], registry) == [] by {
      assert [e][..0] == [];
    }
    JobsConcat([e], b, registry);
    JobsConcat(a, [e] + b, registry);
    JobsConcat(a, b, registry);
  }

  /** An entry the loop visits no filter of: its name is unregistered or its list is empty. */
  ghost predicate Silent(e: Entry, registry: seq<Field>) {
    LookupField(registry, e.name).None? || e.items == []
  }

  ghost predicate AllSilent(es: seq<Entry>, registry: seq<Field>) {
    forall i :: 0 <= i < |es| ==> Silent(es[i], registry)
  }

  lemma AllSilentSnoc(es: seq<Entry>, registry: seq<Field>)
    requires |es| > 0
    ensures AllSilent(es, registry) <==> AllSilent(es[..|es| - 1], registry) && Silent(es[|es| - 1], registry)
  {
    var pre := es[..|es| - 1];
    assert forall i :: 0 <= i < |pre| ==> pre[i] == es[i];
  }

  /** No filter is visited exactly when no registered name holds a stored filter. */
  lemma {:induction false} JobsEmptyIff(es: seq<Entry>, registry: seq<Field>)
    ensures Jobs(es, registry) == [] <==> AllSilent(es, registry)
    decreases |es|
  {
    if |es| > 0 {
      var pre, e := es[..|es| - 1], es[|es| - 1];
      JobsEmptyIff(pre, registry);
      AllSilentSnoc(es, registry);
      assert Jobs(es, registry) == Jobs(pre, registry) + EntryJobs(e, registry);
    }
  }

  /** The loop aborts exactly when some visited filter's `get_sql_filter` returns `array()`. */
  lemma {:induction false} RunFailsIff(jobs: seq<Job>, start: Acc, other: (Field, FilterData) -> SqlResult)
    ensures Run(jobs, start, other).failed <==>
            start.failed || exists k :: 0 <= k < |jobs| && YieldsNothing(jobs[k], other)
    decreases |jobs|
  {
    if |jobs| > 0 {
      var pre := jobs[..|jobs| - 1];
      RunFailsIff(pre, start, other);
      assert forall k :: 0 <= k < |pre| ==> pre[k] == jobs[k];
      var acc := Run(pre, start, other);
      var last := jobs[|jobs| - 1];
      assert !acc.failed ==>
        (Render(last, acc.counter, other).NoCondition? <==> YieldsNothing(last, other));
    }
  }

  /** The k-th fragment is the k-th job rendered with the counter moved once per yes/no job before it. */
  ghost predicate RenderedAt(jobs: seq<Job>, counter: nat, other: (Field, FilterData) -> SqlResult, k: nat)
    requires k < |jobs|
  {
    Fragments(jobs, counter, other)[k] == SqlOf(Render(jobs[k], counter + YesNoCount(jobs[..k]), other))
  }

  /**
   * Every fragment is its job rendered with the counter moved once per
   * yes/no job before it, whatever the jobs after it are.
   */
  lemma {:induction false} FragmentsAt(jobs: seq<Job>, counter: nat, other: (Field, FilterData) -> SqlResult)
    ensures forall k :: 0 <= k < |jobs| ==> RenderedAt(jobs, counter, other, k)
    decreases |jobs|
  {
    if |jobs| > 0 {
      var pre := jobs[..|jobs| - 1];
      FragmentsAt(pre, counter, other);
      forall k | 0 <= k < |jobs|
        ensures RenderedAt(jobs, counter, other, k)
      {
        RenderedAtSnoc(jobs, counter, other, k);
      }
    }
  }

  lemma RenderedAtSnoc(jobs: seq<Job>, counter: nat, other: (Field, FilterData) -> SqlResult, k: nat)
    requires k < |jobs|
    requires k < |jobs| - 1 ==> RenderedAt(jobs[..|jobs| - 1], counter, other, k)
    ensures RenderedAt(jobs, counter, other, k)
  {
    if k < |jobs| - 1 {
      RenderedAtEarlier(jobs, counter, other, k);
    } else {
      RenderedAtLast(jobs, counter, other);
    }
  }

  lemma RenderedAtLast(jobs: seq<Job>, counter: nat, other: (Field, FilterData) -> SqlResult)
    requires |jobs| > 0
    ensures RenderedAt(jobs, counter, other, |jobs| - 1)
  {
  }

  lemma RenderedAtEarlier(jobs: seq<Job>, counter: nat, other: (Field, FilterData) -> SqlResult, k: nat)
    requires k < |jobs| - 1 && RenderedAt(jobs[..|jobs| - 1], counter, other, k)
    ensures RenderedAt(jobs, counter, other, k)
  {
    FragmentsKeepPrefix(jobs, counter, other, k);
    SameRendering(jobs, counter, other, k);
  }

  lemma SameRendering(jobs: seq<Job>, counter: nat, other: (Field, FilterData) -> SqlResult, k: nat)
    requires k < |jobs| - 1
    ensures var pre := jobs[..|jobs| - 1];
      SqlOf(Render(pre[k], counter + YesNoCount(pre[..k]), other))
        == SqlOf(Render(jobs[k], counter + YesNoCount(jobs[..k]), other))
  {
    var pre := jobs[..|jobs| - 1];
    assert pre[..k] == jobs[..k];
  }

  lemma FragmentsKeepPrefix(jobs: seq<Job>, counter: nat, other: (Field, FilterData) -> SqlResult, k: nat)
    requires k < |jobs| - 1
    ensures Fragments(jobs, counter, other)[k] == Fragments(jobs[..|jobs| - 1], counter, other)[k]
  {
  }

  /**
   * Without the error, `$sqls` is the starting list followed by one fragment
   * per visited filter in visiting order, and the counter has moved once per
   * yes/no filter.
   */
  lemma {:induction false} RunFragments(jobs: seq<Job>, start: Acc, other: (Field, FilterData) -> SqlResult)
    requires !Run(jobs, start, other).failed
    ensures Run(jobs, start, other).sqls == start.sqls + Fragments(jobs, start.counter, other)
    ensures Run(jobs, start, other).counter == start.counter + YesNoCount(jobs)
    decreases |jobs|
  {
    RunCounter(jobs, start, other);
    if |jobs| > 0 {
      var pre, last := jobs[..|jobs| - 1], jobs[|jobs| - 1];
      var acc := Run(pre, start, other);
      RunSnoc(jobs, start, other);
      StepKept(acc, last, other);
      RunFragments(pre, start, other);
      FragmentsSnoc(jobs, start.counter, other);
      ExtendBoth(start.sqls, Fragments(pre, start.counter, other), SqlOf(Render(last, acc.counter, other)),
                 acc.sqls, Fragments(jobs, start.counter, other), Run(jobs, start, other).sqls);
    }
  }

  lemma FragmentsSnoc(jobs: seq<Job>, counter: nat, other: (Field, FilterData) -> SqlResult)
    requires |jobs| > 0
    ensures var pre := jobs[..|jobs| - 1];
      Fragments(jobs, counter, other)
        == Fragments(pre, counter, other) + [SqlOf(Render(jobs[|jobs| - 1], counter + YesNoCount(pre), other))]
  {
  }

  lemma {:induction false} RunCounter(jobs: seq<Job>, start: Acc, other: (Field, FilterData) -> SqlResult)
    requires !Run(jobs, start, other).failed
    ensures Run(jobs, start, other).counter == start.counter + YesNoCount(jobs)
    decreases |jobs|
  {
    if |jobs| > 0 {
      var pre, last := jobs[..|jobs| - 1], jobs[|jobs| - 1];
      RunSnoc(jobs, start, other);
      StepKept(Run(pre, start, other), last, other);
      RunCounter(pre, start, other);
    }
  }

  /** A step that does not fail followed a state that had not failed, and added its fragment. */
  lemma StepKept(acc: Acc, job: Job, other: (Field, FilterData) -> SqlResult)
    requires !Step(acc, job, other).failed
    ensures !acc.failed && Render(job, acc.counter, other).Condition?
    ensures Step(acc, job, other).sqls == acc.sqls + [SqlOf(Render(job, acc.counter, other))]
    ensures Step(acc, job, other).counter == acc.counter + (if job.field.kind == YesNo then 1 else 0)
  {
  }

  /** Parameters the caller passed keep their values: PHP's array `+` never overwrites a key. */
  lemma {:induction false} CallerParamsKept(jobs: seq<Job>, start: Acc, other: (Field, FilterData) -> SqlResult)
    ensures forall k :: k in start.params ==>
              k in Run(jobs, start, other).params && Run(jobs, start, other).params[k] == start.params[k]
    decreases |jobs|
  {
    if |jobs| > 0 {
      CallerParamsKept(jobs[..|jobs| - 1], start, other);
    }
  }

  /**
   * The assembled result: `('', [])` when there is no caller fragment and no
   * registered field has a stored filter; otherwise the caller fragment and
   * then one fragment per stored filter, joined with ' AND '. The
   * parameters are then the caller's, with their values, and every name a
   * stored filter binds that the caller does not, with the value of the
   * first filter binding it. It is the error exactly when some stored
   * filter renders to nothing.
   */
  lemma AssembleShape(es: seq<Entry>, registry: seq<Field>, extra: string, params: Params, counter: nat,
                      other: (Field, FilterData) -> SqlResult)
    ensures var out := Assemble(es, registry, extra, params, counter, other);
            var jobs := Jobs(es, registry);
      && (out.OperandError? <==> exists k :: 0 <= k < |jobs| && YieldsNothing(jobs[k], other))
      && (out.Where? && extra == "" && jobs == [] ==> out == Where("", map[]))
      && (out.Where? && (extra != "" || jobs != []) ==>
            && out.sql == Join((if extra != "" then [extra] else []) + Fragments(jobs, counter, other), " AND ")
            && (forall k :: k in params ==> k in out.params && out.params[k] == params[k])
            && (forall n :: n in out.params <==> n in params || BoundBySome(jobs, counter, other, n))
            && (forall n, k :: n !in params && FirstBinds(jobs, counter, other, n, k) ==>
                  n in out.params && out.params[n] == BoundAt(jobs, counter, other, k)[n]))
  {
    var jobs := Jobs(es, registry);
    var start := Start(extra, params, counter);
    var acc := Run(jobs, start, other);
    assert Assemble(es, registry, extra, params, counter, other) == Finish(acc);
    RunFailsIff(jobs, start, other);
    assert Finish(acc).OperandError? <==> exists k :: 0 <= k < |jobs| && YieldsNothing(jobs[k], other);
    CallerParamsKept(jobs, start, other);
    if !acc.failed {
      RunFragments(jobs, start, other);
      RunParams(jobs, start, other);
      FinishWhere(acc, start.sqls, Fragments(jobs, counter, other), params);
    }
  }

  /**
   * With no stored filter under any registered name, the result is the
   * caller's fragment alone with the caller's parameters, or `('', [])`
   * when the caller passed ''.
   */
  lemma AssembleNoFilters(es: seq<Entry>, registry: seq<Field>, extra: string, params: Params, counter: nat,
                          other: (Field, FilterData) -> SqlResult)
    requires AllSilent(es, registry)
    ensures Assemble(es, registry, extra, params, counter, other)
         == if extra == "" then Where("", map[]) else Where(extra, params)
  {
    JobsEmptyIff(es, registry);
    JoinSingle(extra, " AND ");
  }

  /** `Finish` on a loop state that did not fail: empty exactly when no fragment was collected. */
  lemma FinishWhere(acc: Acc, head: seq<string>, frags: seq<string>, params: Params)
    requires !acc.failed && acc.sqls == head + frags
    requires forall k :: k in params ==> k in acc.params && acc.params[k] == params[k]
    ensures head == [] && frags == [] ==> Finish(acc) == Where("", map[])
    ensures head != [] || frags != [] ==>
              && Finish(acc) == Where(Join(head + frags, " AND "), acc.params)
              && forall k :: k in params ==> k in Finish(acc).params && Finish(acc).params[k] == params[k]
  {
  }

  // ------------------------------------------- which filter binds a name

  /** The parameters a field's `get_sql_filter` result carries; none for `array()`. */
  function ParamsOf(r: SqlResult): Params {
    if r.Condition? then r.params else map[]
  }

  /** The parameters the k-th job binds, rendered with the counter moved once per yes/no job before it. */
  ghost function BoundAt(jobs: seq<Job>, counter: nat, other: (Field, FilterData) -> SqlResult, k: nat): Params
    requires k < |jobs|
  {
    ParamsOf(Render(jobs[k], counter + YesNoCount(jobs[..k]), other))
  }

  /** Some job binds the name `n`. */
  ghost predicate BoundBySome(jobs: seq<Job>, counter: nat, other: (Field, FilterData) -> SqlResult, n: string) {
    exists k :: 0 <= k < |jobs| && n in BoundAt(jobs, counter, other, k)
  }

  /** The k-th job is the first to bind the name `n`. */
  ghost predicate FirstBinds(jobs: seq<Job>, counter: nat, other: (Field, FilterData) -> SqlResult, n: string, k: nat) {
    && k < |jobs|
    && n in BoundAt(jobs, counter, other, k)
    && forall j :: 0 <= j < k ==> n !in BoundAt(jobs, counter, other, j)
  }

  /**
   * Without the error, `$params` binds a name exactly when the caller or
   * some visited filter binds it. The caller's value wins; a name the caller
   * does not bind takes the value of the first filter that binds it, since
   * PHP's array `+` never overwrites a key.
   */
  lemma {:induction false} RunParams(jobs: seq<Job>, start: Acc, other: (Field, FilterData) -> SqlResult)
    requires !Run(jobs, start, other).failed
    ensures forall n :: n in Run(jobs, start, other).params <==>
              n in start.params || BoundBySome(jobs, start.counter, other, n)
    ensures forall n, k :: n !in start.params && FirstBinds(jobs, start.counter, other, n, k) ==>
              n in Run(jobs, start, other).params
              && Run(jobs, start, other).params[n] == BoundAt(jobs, start.counter, other, k)[n]
    decreases |jobs|
  {
    if |jobs| > 0 {
      var pre, last := jobs[..|jobs| - 1], jobs[|jobs| - 1];
      var acc := Run(pre, start, other);
      RunSnoc(jobs, start, other);
      StepKept(acc, last, other);
      RunCounter(pre, start, other);
      RunParams(pre, start, other);
      BoundAtLast(jobs, start.counter, other);
      var bound := BoundAt(jobs, start.counter, other, |jobs| - 1);
      assert Run(jobs, start, other).params == LeftUnion(acc.params, bound);
      forall n
        ensures n in Run(jobs, start, other).params <==>
                n in start.params || BoundBySome(jobs, start.counter, other, n)
      {
        BoundBySomeSnoc(jobs, start.counter, other, n);
      }
      forall n, k: nat | n !in start.params && FirstBinds(jobs, start.counter, other, n, k)
        ensures n in Run(jobs, start, other).params
             && Run(jobs, start, other).params[n] == BoundAt(jobs, start.counter, other, k)[n]
      {
        if k < |jobs| - 1 {
          FirstBindsEarlier(jobs, start.counter, other, n, k);
          BoundAtEarlier(jobs, start.counter, other, k);
        } else {
          FirstBindsLast(jobs, start.counter, other, n);
        }
      }
    }
  }

  lemma BoundAtEarlier(jobs: seq<Job>, counter: nat, other: (Field, FilterData) -> SqlResult, j: nat)
    requires j < |jobs| - 1
    ensures BoundAt(jobs, counter, other, j) == BoundAt(jobs[..|jobs| - 1], counter, other, j)
  {
    assert jobs[..|jobs| - 1][..j] == jobs[..j];
  }

  lemma BoundAtLast(jobs: seq<Job>, counter: nat, other: (Field, FilterData) -> SqlResult)
    requires |jobs| > 0
    ensures BoundAt(jobs, counter, other, |jobs| - 1)
         == ParamsOf(Render(jobs[|jobs| - 1], counter + YesNoCount(jobs[..|jobs| - 1]), other))
  {
  }

  lemma BoundBySomeSnoc(jobs: seq<Job>, counter: nat, other: (Field, FilterData) -> SqlResult, n: string)
    requires |jobs| > 0
    ensures BoundBySome(jobs, counter, other, n) <==>
            BoundBySome(jobs[..|jobs| - 1], counter, other, n) || n in BoundAt(jobs, counter, other, |jobs| - 1)
  {
    var pre, last := jobs[..|jobs| - 1], |jobs| - 1;
    if BoundBySome(pre, counter, other, n) {
      var k :| 0 <= k < |pre| && n in BoundAt(pre, counter, other, k);
      BoundAtEarlier(jobs, counter, other, k);
      assert n in BoundAt(jobs, counter, other, k);
    }
    if n in BoundAt(jobs, counter, other, last) {
      assert 0 <= last < |jobs|;
    }
    if !BoundBySome(pre, counter, other, n) && n !in BoundAt(jobs, counter, other, last) {
      forall k | 0 <= k < |jobs|
        ensures n !in BoundAt(jobs, counter, other, k)
      {
        if k < last {
          BoundAtEarlier(jobs, counter, other, k);
        }
      }
    }
  }

  lemma FirstBindsEarlier(jobs: seq<Job>, counter: nat, other: (Field, FilterData) -> SqlResult, n: string, k: nat)
    requires k < |jobs| - 1 && FirstBinds(jobs, counter, other, n, k)
    ensures FirstBinds(jobs[..|jobs| - 1], counter, other, n, k)
  {
    var pre := jobs[..|jobs| - 1];
    BoundAtEarlier(jobs, counter, other, k);
    forall j | 0 <= j < k
      ensures n !in BoundAt(pre, counter, other, j)
    {
      BoundAtEarlier(jobs, counter, other, j);
    }
  }

  lemma FirstBindsLast(jobs: seq<Job>, counter: nat, other: (Field, FilterData) -> SqlResult, n: string)
    requires |jobs| > 0 && FirstBinds(jobs, counter, other, n, |jobs| - 1)
    ensures !BoundBySome(jobs[..|jobs| - 1], counter, other, n)
  {
    var pre := jobs[..|jobs| - 1];
    forall j | 0 <= j < |pre|
      ensures n !in BoundAt(pre, counter, other, j)
    {
      BoundAtEarlier(jobs, counter, other, j);
    }
  }

  /** Yes/no filters that all hold a value: no error, and the counter moves once per filter. */
  lemma {:induction false} YesNoRunCounter(jobs: seq<Job>, start: Acc, other: (Field, FilterData) -> SqlResult)
    requires !start.failed
    requires forall k :: 0 <= k < |jobs| ==> jobs[k].field.kind == YesNo && Value(jobs[k].data) != ""
    ensures !Run(jobs, start, other).failed
    ensures Run(jobs, start, other).counter == start.counter + |jobs|
    decreases |jobs|
  {
    if |jobs| > 0 {
      var pre := jobs[..|jobs| - 1];
      assert forall k :: 0 <= k < |pre| ==> pre[k] == jobs[k];
      YesNoRunCounter(pre, start, other);
    }
  }

  /** The names yes/no filters can add: ex_yesno<c> for the counter values used. */
  ghost predicate NamedFrom(n: string, from: nat, count: nat) {
    exists c :: from <= c < from + count && n == ParamName(c)
  }

  /**
   * Over yes/no filters only, and caller parameters that use no 'ex_yesno'
   * name, the only names added are the ones the counter produced.
   */
  lemma {:induction false} YesNoRunAddsOwnNames(jobs: seq<Job>, start: Acc, other: (Field, FilterData) -> SqlResult)
    requires !start.failed
    requires forall k :: 0 <= k < |jobs| ==> jobs[k].field.kind == YesNo && Value(jobs[k].data) != ""
    ensures forall n :: n in Run(jobs, start, other).params ==>
              n in start.params || NamedFrom(n, start.counter, |jobs|)
    decreases |jobs|
  {
    if |jobs| > 0 {
      var pre, last := jobs[..|jobs| - 1], jobs[|jobs| - 1];
      assert forall k :: 0 <= k < |pre| ==> pre[k] == jobs[k];
      YesNoRunAddsOwnNames(pre, start, other);
      YesNoRunCounter(pre, start, other);
      var acc := Run(pre, start, other);
      var bound := YesNoSql(last.field.column, last.data, acc.counter);
      assert bound.params.Keys == {ParamName(acc.counter)};
      assert Run(jobs, start, other).params == LeftUnion(acc.params, bound.params);
      forall n | n in Run(jobs, start, other).params
        ensures n in start.params || NamedFrom(n, start.counter, |jobs|)
      {
        if n in acc.params && n !in start.params {
          var c :| start.counter <= c < start.counter + |pre| && n == ParamName(c);
        }
      }
    }
  }

  /** The k-th of `jobs` has its value bound under ex_yesno<from + k> in `params`. */
  ghost predicate BindsEach(jobs: seq<Job>, from: nat, params: Params) {
    forall k :: 0 <= k < |jobs| ==> BindsAt(jobs, from, params, k)
  }

  ghost predicate BindsAt(jobs: seq<Job>, from: nat, params: Params, k: nat)
    requires k < |jobs|
  {
    ParamName(from + k) in params && params[ParamName(from + k)] == Value(jobs[k].data)
  }

  /**
   * Parameters holding only the caller's names and names the counter used
   * below `from + count` do not hold the counter's next name.
   */
  lemma NextNameFresh(params: Params, callers: Params, from: nat, count: nat)
    requires forall c :: ParamName(c) !in callers
    requires forall n :: n in params ==> n in callers || NamedFrom(n, from, count)
    ensures ParamName(from + count) !in params
  {
    var name := ParamName(from + count);
    if name in params {
      var c :| from <= c < from + count && name == ParamName(c);
      ParamNamesDistinct(c, from + count);
    }
  }

  /** A valued yes/no filter whose name is not yet bound adds its fragment and its one binding. */
  lemma YesNoStep(acc: Acc, job: Job, other: (Field, FilterData) -> SqlResult)
    requires !acc.failed && job.field.kind == YesNo && Value(job.data) != ""
    requires ParamName(acc.counter) !in acc.params
    ensures Step(acc, job, other).params == acc.params[ParamName(acc.counter) := Value(job.data)]
    ensures Step(acc, job, other).counter == acc.counter + 1 && !Step(acc, job, other).failed
  {
    var bound := YesNoSql(job.field.column, job.data, acc.counter);
    assert bound.params == map[ParamName(acc.counter) := Value(job.data)];
  }

  /** Before the last of a run of valued yes/no filters, the counter's next name is unbound. */
  lemma YesNoBeforeLast(jobs: seq<Job>, start: Acc, other: (Field, FilterData) -> SqlResult)
    requires |jobs| > 0 && !start.failed
    requires forall k :: 0 <= k < |jobs| ==> jobs[k].field.kind == YesNo && Value(jobs[k].data) != ""
    requires forall c :: ParamName(c) !in start.params
    ensures var acc := Run(jobs[..|jobs| - 1], start, other);
      && !acc.failed && acc.counter == start.counter + |jobs| - 1
      && ParamName(acc.counter) !in acc.params
  {
    var pre := jobs[..|jobs| - 1];
    assert forall k :: 0 <= k < |pre| ==> pre[k] == jobs[k];
    YesNoNextFresh(pre, start, other);
  }

  /** After a run of valued yes/no filters, the counter's next name is unbound. */
  lemma YesNoNextFresh(jobs: seq<Job>, start: Acc, other: (Field, FilterData) -> SqlResult)
    requires !start.failed
    requires forall k :: 0 <= k < |jobs| ==> jobs[k].field.kind == YesNo && Value(jobs[k].data) != ""
    requires forall c :: ParamName(c) !in start.params
    ensures var acc := Run(jobs, start, other);
      && !acc.failed && acc.counter == start.counter + |jobs|
      && ParamName(acc.counter) !in acc.params
  {
    YesNoRunCounter(jobs, start, other);
    YesNoRunAddsOwnNames(jobs, start, other);
    NextNameFresh(Run(jobs, start, other).params, start.params, start.counter, |jobs|);
  }

  /**
   * The last of a run of valued yes/no filters adds one fresh name,
   * ex_yesno<counter>, bound to its value, and leaves the rest as it was.
   */
  lemma YesNoLastStep(jobs: seq<Job>, start: Acc, other: (Field, FilterData) -> SqlResult)
    requires |jobs| > 0 && !start.failed
    requires forall k :: 0 <= k < |jobs| ==> jobs[k].field.kind == YesNo && Value(jobs[k].data) != ""
    requires forall c :: ParamName(c) !in start.params
    ensures var acc := Run(jobs[..|jobs| - 1], start, other);
      && ParamName(start.counter + |jobs| - 1) !in acc.params
      && Run(jobs, start, other).params
           == acc.params[ParamName(start.counter + |jobs| - 1) := Value(jobs[|jobs| - 1].data)]
  {
    YesNoBeforeLast(jobs, start, other);
    var acc, last := Run(jobs[..|jobs| - 1], start, other), jobs[|jobs| - 1];
    YesNoStep(acc, last, other);
    RunSnoc(jobs, start, other);
  }

  /**
   * Over yes/no filters only, and caller parameters that use no 'ex_yesno'
   * name, every filter binds its own parameter: the k-th binds
   * ex_yesno<counter + k> to its value, and no binding is lost to a clash.
   */
  lemma {:induction false} YesNoParamsDistinct(jobs: seq<Job>, start: Acc, other: (Field, FilterData) -> SqlResult)
    requires !start.failed
    requires forall k :: 0 <= k < |jobs| ==> jobs[k].field.kind == YesNo && Value(jobs[k].data) != ""
    requires forall c :: ParamName(c) !in start.params
    ensures BindsEach(jobs, start.counter, Run(jobs, start, other).params)
    decreases |jobs|
  {
    if |jobs| > 0 {
      var pre := jobs[..|jobs| - 1];
      assert forall k :: 0 <= k < |pre| ==> pre[k] == jobs[k];
      YesNoParamsDistinct(pre, start, other);
      YesNoLastStep(jobs, start, other);
      BindsEachSnoc(jobs, start.counter, Run(pre, start, other).params, Run(jobs, start, other).params);
    }
  }

  /** Binding the next name to the last job's value extends the bindings of the jobs before it. */
  lemma BindsEachSnoc(jobs: seq<Job>, from: nat, p: Params, r: Params)
    requires |jobs| > 0 && BindsEach(jobs[..|jobs| - 1], from, p)
    requires r == p[ParamName(from + |jobs| - 1) := Value(jobs[|jobs| - 1].data)]
    ensures BindsEach(jobs, from, r)
  {
    var pre := jobs[..|jobs| - 1];
    forall k | 0 <= k < |jobs|
      ensures BindsAt(jobs, from, r, k)
    {
      if k < |pre| {
        assert BindsAt(pre, from, p, k) && pre[k] == jobs[k];
        ParamNamesDistinct(from + k, from + |pre|);
      }
    }
  }

  /**
   * One yes/no field `visible` holding the value 1, with the counter at 0:
   * the clause is "visible=:ex_yesno0" binding ex_yesno0 to "1".
   */
  lemma VisibleOnlyScenario(other: (Field, FilterData) -> SqlResult)
    ensures var field := YesNoField("visible", "visible", true, "visible");
      Assemble([Entry("visible", [Item(0, map["value" := "1"])])], [field], "", map[], 0, other)
        == Where("visible=:ex_yesno0", map["ex_yesno0" := "1"])
  {
    var field := YesNoField("visible", "visible", true, "visible");
    var job := Job(field, map["value" := "1"]);
    VisibleJobs(field);
    VisibleRun(job, other);
  }

  lemma VisibleJobs(field: Field)
    requires field.name == "visible"
    ensures Jobs([Entry("visible", [Item(0, map["value" := "1"])])], [field]) == [Job(field, map["value" := "1"])]
  {
    var es := [Entry("visible", [Item(0, map["value" := "1"])])];
    assert es[..0] == [];
  }

  lemma VisibleRun(job: Job, other: (Field, FilterData) -> SqlResult)
    requires job == Job(YesNoField("visible", "visible", true, "visible"), map["value" := "1"])
    ensures Run([job], Start("", map[], 0), other)
         == Acc(["visible=:ex_yesno0"], map["ex_yesno0" := "1"], 1, false)
  {
    assert [job][..0] == [];
    VisibleSqlAtZero();
    var bound: Params := map["ex_yesno0" := "1"];
    assert LeftUnion(map[], bound) == bound;
  }
}
