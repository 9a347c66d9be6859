/**
 * The filter registry of `coursesstatus_filtering`: `get_field` maps a
 * known field name to a constructed filter, and the constructor keeps the
 * requested names for which it returns one, falling back to a default table
 * when no names are requested.
 */
module Registry {
  import opened Php
  import opened FilterType
  import opened YesNo

  /** One requested field, `name => advanced`. */
  type Request = (FieldName, bool)

  /** The table used when the constructor is given no field names (0 = basic, 1 = advanced). */
  const DefaultFieldNames: seq<Request> := [
    ("fullname", false), ("category", true), ("shortname", true), ("idnumber", true),
    ("startdate", true), ("timecreated", true), ("timemodified", true), ("visible", true)]

  /** The names `get_field` recognises. */
  const KnownFieldNames: set<FieldName> := {
    "fullname", "category", "shortname", "idnumber",
    "startdate", "timecreated", "timemodified", "visible"}

  /**
   * `get_field($fieldname, $advanced)`. The category options, read from
   * the course category table in the source, are the parameter `categories`.
   */
  function GetField(name: FieldName, advanced: bool, categories: map<int, string>): (r: Option<Field>)
    ensures r.Some? <==> name in KnownFieldNames
    ensures r.Some? ==> r.value.name == name && r.value.advanced == advanced && r.value.column == name
    ensures r.Some? ==> (r.value.kind == Text <==> name in {"fullname", "shortname", "idnumber"})
    ensures r.Some? ==> (r.value.kind == Date <==> name in {"startdate", "timecreated", "timemodified"})
    ensures r.Some? ==> (r.value.kind == Select <==> name == "category")
    ensures r.Some? && r.value.kind == Select ==> r.value.options == categories
    ensures r.Some? ==> (r.value.kind == YesNo <==> name == "visible")
    ensures r.Some? && r.value.kind == YesNo ==> r.value.options.Keys == {0, 1}
  {
    if name == "fullname" then Some(Field(name, "course", advanced, name, Text, map[]))
    else if name == "category" then Some(Field(name, "category", advanced, name, Select, categories))
    else if name == "shortname" then Some(Field(name, "shortname", advanced, name, Text, map[]))
    else if name == "idnumber" then Some(Field(name, "idnumber", advanced, name, Text, map[]))
    else if name == "startdate" then Some(Field(name, "startdate", advanced, name, Date, map[]))
    else if name == "timecreated" then Some(Field(name, "timecreated", advanced, name, Date, map[]))
    else if name == "timemodified" then Some(Field(name, "timemodified", advanced, name, Date, map[]))
    else if name == "visible" then Some(YesNoField(name, "visible", advanced, name))
    else None
  }

  /** `empty($fieldnames)` selects the default table. */
  function Requested(fieldnames: seq<Request>): seq<Request> {
    if |fieldnames| == 0 then DefaultFieldNames else fieldnames
  }

  /** The registry built from `requests` in order, dropping names `get_field` does not know. */
  function Resolve(requests: seq<Request>, categories: map<int, string>): seq<Field>
    decreases |requests|
  {
    if |requests| == 0 then []
    else
      var last := requests[|requests| - 1];
      var pre := Resolve(requests[..|requests| - 1], categories);
      match GetField(last.0, last.1, categories)
      case Some(f) => pre + [f]
      case None => pre
  }

  /** Requested names are unique, as the keys of a PHP array are. */
  ghost predicate DistinctRequests(requests: seq<Request>) {
    forall i, j :: 0 <= i < j < |requests| ==> requests[i].0 != requests[j].0
  }

  /** The default table names each field once. */
  lemma DefaultDistinct()
    ensures DistinctRequests(DefaultFieldNames)
  {
  }

  /** Unique requested names, or the default table, give a registry with unique names. */
  lemma RequestedDistinct(fieldnames: seq<Request>, categories: map<int, string>)
    requires DistinctRequests(fieldnames)
    ensures DistinctFieldNames(Resolve(Requested(fieldnames), categories))
  {
    if |fieldnames| == 0 {
      DefaultDistinct();
    }
    ResolveDistinct(Requested(fieldnames), categories);
  }

  /** The registry holds a field for a request exactly when `get_field` returns one for it. */
  lemma {:induction false} ResolveContents(requests: seq<Request>, categories: map<int, string>)
    ensures forall i :: 0 <= i < |requests| && requests[i].0 in KnownFieldNames ==>
              GetField(requests[i].0, requests[i].1, categories).value in Resolve(requests, categories)
    ensures forall f :: f in Resolve(requests, categories) ==>
              exists i :: 0 <= i < |requests| && GetField(requests[i].0, requests[i].1, categories) == Some(f)
    decreases |requests|
  {
    if |requests| > 0 {
      var pre := requests[..|requests| - 1];
      ResolveContents(pre, categories);
      forall f | f in Resolve(requests, categories)
        ensures exists i :: 0 <= i < |requests| && GetField(requests[i].0, requests[i].1, categories) == Some(f)
      {
        if f in Resolve(pre, categories) {
          var i :| 0 <= i < |pre| && GetField(pre[i].0, pre[i].1, categories) == Some(f);
          assert requests[i] == pre[i];
        } else {
          assert GetField(requests[|requests| - 1].0, requests[|requests| - 1].1, categories) == Some(f);
        }
      }
      forall i | 0 <= i < |requests| && requests[i].0 in KnownFieldNames
        ensures GetField(requests[i].0, requests[i].1, categories).value in Resolve(requests, categories)
      {
        if i < |pre| {
          assert requests[i] == pre[i];
        }
      }
    }
  }

  /** Unique requested names give a registry with unique names, each a known name. */
  lemma {:induction false} ResolveDistinct(requests: seq<Request>, categories: map<int, string>)
    requires DistinctRequests(requests)
    ensures DistinctFieldNames(Resolve(requests, categories))
    ensures forall f :: f in Resolve(requests, categories) ==> f.name in KnownFieldNames
    decreases |requests|
  {
    if |requests| > 0 {
      var pre := requests[..|requests| - 1];
      var last := requests[|requests| - 1];
      ResolveDistinct(pre, categories);
      ResolveContents(pre, categories);
      var r := Resolve(requests, categories);
      var p := Resolve(pre, categories);
      if GetField(last.0, last.1, categories).Some? {
        assert r == p + [GetField(last.0, last.1, categories).value];
        forall i | 0 <= i < |p| ensures p[i].name != last.0 {
          assert p[i] in p;
          var k :| 0 <= k < |pre| && GetField(pre[k].0, pre[k].1, categories) == Some(p[i]);
          assert pre[k] == requests[k];
        }
      }
    }
  }

  /**
   * The constructor's registry loop: for each requested `name => advanced`
   * (the default table when none are requested), keep the field `get_field`
   * returns.
   */
  method ResolveFields(fieldnames: seq<Request>, categories: map<int, string>) returns (fields: seq<Field>)
    ensures fields == Resolve(Requested(fieldnames), categories)
  {
    var requests := fieldnames;
    if |requests| == 0 {
      requests := DefaultFieldNames;
    }
    fields := [];
    var i := 0;
    while i < |requests|
      invariant 0 <= i <= |requests|
      invariant fields == Resolve(requests[..i], categories)
    {
      assert requests[..i + 1][..i] == requests[..i];
      var field := GetField(requests[i].0, requests[i].1, categories);
      if field.Some? {
        fields := fields + [field.value];
      }
      i := i + 1;
    }
    assert requests[..i] == requests;
  }

  /** When every requested name is known, the registry has one field per request, in order. */
  lemma {:induction false} ResolveAllKnown(requests: seq<Request>, categories: map<int, string>)
    requires forall i :: 0 <= i < |requests| ==> requests[i].0 in KnownFieldNames
    ensures |Resolve(requests, categories)| == |requests|
    ensures forall i :: 0 <= i < |requests| ==>
              Resolve(requests, categories)[i] == GetField(requests[i].0, requests[i].1, categories).value
    decreases |requests|
  {
    if |requests| > 0 {
      var pre := requests[..|requests| - 1];
      ResolveAllKnown(pre, categories);
    }
  }

  /**
   * With no names requested every entry of the default table is registered,
   * in table order and with its flag: fullname basic, the other seven advanced.
   */
  lemma DefaultRegistry(categories: map<int, string>)
    ensures var r := Resolve(Requested([]), categories);
      && |r| == |DefaultFieldNames| == 8
      && (forall i :: 0 <= i < |r| ==> r[i].name == DefaultFieldNames[i].0)
      && (forall i :: 0 <= i < |r| ==> r[i].advanced == (i != 0))
      && r[0].name == "fullname"
  {
    var d := DefaultFieldNames;
    assert forall i :: 0 <= i < |d| ==> d[i].0 in KnownFieldNames;
    ResolveAllKnown(d, categories);
  }
}
