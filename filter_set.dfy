/**
 * The session-held filter set `$SESSION->coursesstatus_filtering`: an
 * ordered map from field name to an ordered list of active filters, each
 * kept under the integer index PHP gave it when it was appended. Removal
 * unsets indexes without renumbering, and a field whose list becomes empty
 * loses its key.
 */
module FilterSet {
  import opened Php
  import opened FilterType

  /** One active filter: its array index in the field's list and the data `check_data` produced. */
  datatype Item = Item(index: nat, data: FilterData)

  /** One key of the session map: a field name and its list of active filters. */
  datatype Entry = Entry(name: FieldName, items: seq<Item>)

  /** One checkbox of the active-filter form: `filter[<field>][<index>]` and its submitted value. */
  datatype Mark = Mark(index: nat, value: string)

  /** The checkboxes submitted for one field. */
  datatype Selection = Selection(name: FieldName, marks: seq<Mark>)

  ghost predicate DistinctNames(es: seq<Entry>) {
    forall i, j :: 0 <= i < j < |es| ==> es[i].name != es[j].name
  }

  /** Indexes grow along a list: appends use a larger index and removal does not renumber. */
  ghost predicate Increasing(items: seq<Item>) {
    forall i, j :: 0 <= i < j < |items| ==> items[i].index < items[j].index
  }

  /**
   * The shape every operation keeps: keys are unique, no key holds an empty
   * list, and indexes increase along each list. A key is therefore present
   * exactly when `ItemsOf` is non-empty for it.
   */
  ghost predicate WellFormed(es: seq<Entry>) {
    && DistinctNames(es)
    && forall i :: 0 <= i < |es| ==> es[i].items != [] && Increasing(es[i].items)
  }

  /** Where key `name` sits in the map, if anywhere. */
  function Position(es: seq<Entry>, name: FieldName): (r: Option<nat>)
    ensures r.Some? ==> r.value < |es| && es[r.value].name == name
    ensures r.None? ==> forall i :: 0 <= i < |es| ==> es[i].name != name
  {
    if |es| == 0 then None
    else if es[0].name == name then Some(0)
    else match Position(es[1..], name)
      case Some(p) => Some(p + 1)
      case None => None
  }

  /** The list stored under `name`, or the empty list when the key is absent. */
  function ItemsOf(es: seq<Entry>, name: FieldName): seq<Item> {
    match Position(es, name)
    case Some(p) => es[p].items
    case None => []
  }

  /** The position of a key, or |es| when absent; used to compare key order. */
  function Rank(es: seq<Entry>, name: FieldName): nat {
    match Position(es, name)
    case Some(p) => p
    case None => |es|
  }

  lemma PositionAt(es: seq<Entry>, i: nat)
    requires DistinctNames(es) && i < |es|
    ensures Position(es, es[i].name) == Some(i)
    ensures ItemsOf(es, es[i].name) == es[i].items && Rank(es, es[i].name) == i
  {
  }

  lemma PositionAbsent(es: seq<Entry>, name: FieldName)
    requires forall i :: 0 <= i < |es| ==> es[i].name != name
    ensures Position(es, name) == None && ItemsOf(es, name) == []
  {
  }

  /** The keys of `r` appear in `es` and in the same relative order. */
  ghost predicate OrderKept(r: seq<Entry>, es: seq<Entry>) {
    && (forall i :: 0 <= i < |r| ==> Position(es, r[i].name).Some?)
    && (forall i, j :: 0 <= i < j < |r| ==> Rank(es, r[i].name) < Rank(es, r[j].name))
  }

  lemma OrderKeptTransitive(r2: seq<Entry>, r1: seq<Entry>, es: seq<Entry>)
    requires DistinctNames(r1)
    requires OrderKept(r2, r1) && OrderKept(r1, es)
    ensures OrderKept(r2, es)
  {
    forall i | 0 <= i < |r2| ensures Position(es, r2[i].name).Some? {
      var p := Position(r1, r2[i].name).value;
      assert r1[p].name == r2[i].name;
    }
    forall i, j | 0 <= i < j < |r2| ensures Rank(es, r2[i].name) < Rank(es, r2[j].name) {
      var p := Position(r1, r2[i].name).value;
      var q := Position(r1, r2[j].name).value;
      PositionAt(r1, p);
      PositionAt(r1, q);
      assert r1[p].name == r2[i].name && r1[q].name == r2[j].name;
    }
  }

  /** Replacing the list under an existing key changes that key only. */
  lemma ReplaceAt(es: seq<Entry>, p: nat, items: seq<Item>)
    requires DistinctNames(es) && p < |es|
    ensures var r := es[p := Entry(es[p].name, items)];
      && DistinctNames(r)
      && ItemsOf(r, es[p].name) == items
      && (forall k :: k != es[p].name ==> ItemsOf(r, k) == ItemsOf(es, k))
      && OrderKept(r, es)
  {
    var r := es[p := Entry(es[p].name, items)];
    assert DistinctNames(r);
    PositionAt(r, p);
    forall k | k != es[p].name ensures ItemsOf(r, k) == ItemsOf(es, k) {
      match Position(es, k)
      case Some(q) =>
        PositionAt(r, q);
      case None =>
        PositionAbsent(r, k);
    }
    forall i | 0 <= i < |r| ensures Rank(es, r[i].name) == i {
      PositionAt(es, i);
    }
  }

  /** Deleting a key removes its list and keeps the others and their order. */
  lemma DeleteAt(es: seq<Entry>, p: nat)
    requires DistinctNames(es) && p < |es|
    ensures var r := es[..p] + es[p + 1..];
      && DistinctNames(r)
      && ItemsOf(r, es[p].name) == []
      && (forall k :: k != es[p].name ==> ItemsOf(r, k) == ItemsOf(es, k))
      && OrderKept(r, es)
  {
    var r := es[..p] + es[p + 1..];
    assert forall i :: 0 <= i < |r| ==> r[i] == (if i < p then es[i] else es[i + 1]);
    assert DistinctNames(r);
    PositionAbsent(r, es[p].name);
    forall k | k != es[p].name ensures ItemsOf(r, k) == ItemsOf(es, k) {
      DeleteKeeps(es, p, k);
    }
    DeleteKeepsOrder(es, p);
  }

  lemma DeleteKeepsOrder(es: seq<Entry>, p: nat)
    requires DistinctNames(es) && p < |es|
    ensures OrderKept(es[..p] + es[p + 1..], es)
  {
    var r := es[..p] + es[p + 1..];
    forall i | 0 <= i < |r| ensures r[i] == es[if i < p then i else i + 1] && Rank(es, r[i].name) == (if i < p then i else i + 1) {
      PositionAt(es, if i < p then i else i + 1);
    }
  }

  lemma DeleteKeeps(es: seq<Entry>, p: nat, k: FieldName)
    requires DistinctNames(es) && p < |es| && k != es[p].name
    ensures ItemsOf(es[..p] + es[p + 1..], k) == ItemsOf(es, k)
  {
    var r := es[..p] + es[p + 1..];
    assert forall i :: 0 <= i < |r| ==> r[i] == (if i < p then es[i] else es[i + 1]);
    match Position(es, k)
    case Some(q) =>
      var i := if q < p then q else q - 1;
      assert r[i] == es[q];
      PositionAt(r, i);
    case None =>
      PositionAbsent(r, k);
  }

  /** Adding a new key at the end changes no other key. */
  lemma AddLast(es: seq<Entry>, e: Entry)
    requires DistinctNames(es) && forall i :: 0 <= i < |es| ==> es[i].name != e.name
    ensures var r := es + [e];
      && DistinctNames(r)
      && ItemsOf(r, e.name) == e.items
      && (forall k :: k != e.name ==> ItemsOf(r, k) == ItemsOf(es, k))
  {
    var r := es + [e];
    assert DistinctNames(r);
    PositionAt(r, |es|);
    forall k | k != e.name ensures ItemsOf(r, k) == ItemsOf(es, k) {
      match Position(es, k)
      case Some(q) =>
        PositionAt(r, q);
      case None =>
        PositionAbsent(r, k);
    }
  }

  // ---------------------------------------------------------------- add

  /** The index `$list[] = $data` assigns: one past the largest, 0 for an empty list. */
  function NextIndex(items: seq<Item>): nat {
    if |items| == 0 then 0 else items[|items| - 1].index + 1
  }

  /** `$S[$name][] = $data`, creating the key (at the end of the map) when it is absent. */
  function Append(es: seq<Entry>, name: FieldName, d: FilterData): seq<Entry> {
    match Position(es, name)
    case Some(p) => es[p := Entry(name, es[p].items + [Item(NextIndex(es[p].items), d)])]
    case None => es + [Entry(name, [Item(0, d)])]
  }

  /** The add step: for each registered field in order, append its non-false `check_data` result. */
  function AddAll(es: seq<Entry>, registry: seq<Field>, form: FormData,
                  check: (Field, FormData) -> Option<FilterData>): seq<Entry>
    decreases |registry|
  {
    if |registry| == 0 then es
    else
      var f := registry[|registry| - 1];
      var pre := AddAll(es, registry[..|registry| - 1], form, check);
      match check(f, form)
      case Some(d) => Append(pre, f.name, d)
      case None => pre
  }

  /** What the add step leaves under one key, given the field registered under it (if any). */
  function AddedItems(items: seq<Item>, field: Option<Field>, form: FormData,
                      check: (Field, FormData) -> Option<FilterData>): seq<Item>
  {
    match field
    case None => items
    case Some(f) =>
      match check(f, form)
      case None => items
      case Some(d) => items + [Item(NextIndex(items), d)]
  }

  lemma IncreasingAppend(items: seq<Item>, d: FilterData)
    requires Increasing(items)
    ensures Increasing(items + [Item(NextIndex(items), d)])
    ensures forall i :: 0 <= i < |items| ==> items[i].index < NextIndex(items)
  {
    var r := items + [Item(NextIndex(items), d)];
    forall i | 0 <= i < |items| ensures items[i].index < NextIndex(items) {
      if i < |items| - 1 {
        assert items[i].index < items[|items| - 1].index;
      }
    }
    forall i, j | 0 <= i < j < |r| ensures r[i].index < r[j].index {
      if j < |items| {
        assert r[i] == items[i] && r[j] == items[j];
      }
    }
  }

  /**
   * Appending under `name` adds the new filter at the end of that key's list,
   * under the next index, and changes no other key; existing keys keep their
   * places and a new key goes last.
   */
  lemma AppendItems(es: seq<Entry>, name: FieldName, d: FilterData)
    requires WellFormed(es)
    ensures var r := Append(es, name, d);
      && WellFormed(r)
      && ItemsOf(r, name) == ItemsOf(es, name) + [Item(NextIndex(ItemsOf(es, name)), d)]
      && (forall k :: k != name ==> ItemsOf(r, k) == ItemsOf(es, k))
      && |es| <= |r| && (forall i :: 0 <= i < |es| ==> r[i].name == es[i].name)
  {
    match Position(es, name)
    case Some(p) =>
      IncreasingAppend(es[p].items, d);
      ReplaceAt(es, p, es[p].items + [Item(NextIndex(es[p].items), d)]);
    case None =>
      AddLast(es, Entry(name, [Item(0, d)]));
  }

  /**
   * The add step appends to each registered field's list its `check_data`
   * result when that is not false, creating the key if needed; fields whose
   * result is false and keys of unregistered names are left as they were.
   * Existing keys keep their places.
   */
  lemma {:induction false} AddAllItems(es: seq<Entry>, registry: seq<Field>, form: FormData,
                                       check: (Field, FormData) -> Option<FilterData>)
    requires WellFormed(es) && DistinctFieldNames(registry)
    ensures var r := AddAll(es, registry, form, check);
      && WellFormed(r)
      && (forall k :: ItemsOf(r, k) == AddedItems(ItemsOf(es, k), LookupField(registry, k), form, check))
      && |es| <= |r| && (forall i :: 0 <= i < |es| ==> r[i].name == es[i].name)
    decreases |registry|
  {
    if |registry| > 0 {
      var pre := registry[..|registry| - 1];
      var f := registry[|registry| - 1];
      var mid := AddAll(es, pre, form, check);
      AddAllItems(es, pre, form, check);
      var r := AddAll(es, registry, form, check);
      LookupFieldSnoc(registry);
      match check(f, form)
      case Some(d) =>
        AppendItems(mid, f.name, d);
      case None =>
    }
  }

  /** The add step over one more field: that field's `check_data` result, if any, appended last. */
  lemma AddAllStep(es: seq<Entry>, registry: seq<Field>, i: nat, form: FormData,
                   check: (Field, FormData) -> Option<FilterData>)
    requires i < |registry|
    ensures AddAll(es, registry[..i + 1], form, check)
         == match check(registry[i], form)
            case None => AddAll(es, registry[..i], form, check)
            case Some(d) => Append(AddAll(es, registry[..i], form, check), registry[i].name, d)
  {
    assert registry[..i + 1][..i] == registry[..i];
  }

  lemma AppendWellFormed(es: seq<Entry>, name: FieldName, d: FilterData)
    requires WellFormed(es)
    ensures WellFormed(Append(es, name, d))
  {
    AppendItems(es, name, d);
  }

  /**
   * `$S[$name][] = $data` as the constructor writes it: create the key with
   * an empty list when it is absent, then push onto that list.
   */
  method Push(es: seq<Entry>, name: FieldName, d: FilterData) returns (r: seq<Entry>)
    ensures r == Append(es, name, d)
  {
    r := es;
    var p := Position(r, name);
    if p.None? {
      r := r + [Entry(name, [])];
      p := Some(|r| - 1);
    }
    var items := r[p.value].items;
    r := r[p.value := Entry(name, items + [Item(NextIndex(items), d)])];
    if Position(es, name).None? {
      assert items == [] && NextIndex(items) == 0;
      assert r[..|es|] == es && r[|es|] == Entry(name, [Item(0, d)]);
      assert r == r[..|es|] + [r[|es|]];
    }
  }

  /** The field registered under a key, read off the registry one field shorter. */
  lemma LookupFieldSnoc(registry: seq<Field>)
    requires DistinctFieldNames(registry) && |registry| > 0
    ensures var pre, f := registry[..|registry| - 1], registry[|registry| - 1];
      forall k :: LookupField(registry, k) == (if k == f.name then Some(f) else LookupField(pre, k))
  {
    var pre, f := registry[..|registry| - 1], registry[|registry| - 1];
    LookupFieldAt(registry, |registry| - 1);
    forall k | k != f.name ensures LookupField(registry, k) == LookupField(pre, k) {
      LookupFieldEarlier(registry, k);
    }
  }

  lemma LookupFieldEarlier(registry: seq<Field>, k: FieldName)
    requires DistinctFieldNames(registry) && |registry| > 0 && k != registry[|registry| - 1].name
    ensures LookupField(registry, k) == LookupField(registry[..|registry| - 1], k)
  {
    var pre := registry[..|registry| - 1];
    match LookupField(pre, k)
    case Some(g) =>
      var i :| 0 <= i < |pre| && pre[i] == g;
      assert registry[i] == pre[i];
      LookupFieldAt(registry, i);
      LookupFieldAt(pre, i);
    case None =>
      forall i | 0 <= i < |registry| ensures registry[i].name != k {
        if i < |pre| {
          assert registry[i] == pre[i];
        }
      }
  }

  /** With unique registry keys, the field registered under a key is the one listed with that name. */
  lemma LookupFieldAt(registry: seq<Field>, i: nat)
    requires DistinctFieldNames(registry) && i < |registry|
    ensures LookupField(registry, registry[i].name) == Some(registry[i])
  {
    var r := LookupField(registry, registry[i].name);
    var j :| 0 <= j < |registry| && registry[j] == r.value;
  }

  // ------------------------------------------------------------- remove

  /** The list after `unset` of every index in `s`; the remaining filters keep their indexes. */
  function Without(items: seq<Item>, s: set<nat>): seq<Item> {
    if |items| == 0 then []
    else (if items[0].index in s then [] else [items[0]]) + Without(items[1..], s)
  }

  /** The indexes whose checkbox value is not empty (PHP `empty()`). */
  function MarkedOf(marks: seq<Mark>): set<nat>
    decreases |marks|
  {
    if |marks| == 0 then {}
    else
      var m := marks[|marks| - 1];
      MarkedOf(marks[..|marks| - 1]) + (if IsEmpty(m.value) then {} else {m.index})
  }

  /** All indexes marked under `name` anywhere in the submitted selection. */
  function Selected(sel: seq<Selection>, name: FieldName): set<nat>
    decreases |sel|
  {
    if |sel| == 0 then {}
    else
      var s := sel[|sel| - 1];
      Selected(sel[..|sel| - 1], name) + (if s.name == name then MarkedOf(s.marks) else {})
  }

  /** One field of remove-selected: unset the marked indexes, then drop the key if its list is empty. */
  function RemovePass(es: seq<Entry>, name: FieldName, s: set<nat>): seq<Entry> {
    match Position(es, name)
    case None => es
    case Some(p) =>
      var w := Without(es[p].items, s);
      if w == [] then es[..p] + es[p + 1..] else es[p := Entry(name, w)]
  }

  /** Remove-selected: one pass per submitted field, in submission order. */
  function RemoveSelected(es: seq<Entry>, sel: seq<Selection>): seq<Entry>
    decreases |sel|
  {
    if |sel| == 0 then es
    else
      var s := sel[|sel| - 1];
      RemovePass(RemoveSelected(es, sel[..|sel| - 1]), s.name, MarkedOf(s.marks))
  }

  /** An item survives `Without` exactly when it was there and its index was not unset. */
  lemma {:induction false} WithoutMembers(items: seq<Item>, s: set<nat>)
    ensures forall it :: it in Without(items, s) <==> it in items && it.index !in s
  {
    if |items| > 0 {
      WithoutMembers(items[1..], s);
      assert items == [items[0]] + items[1..];
    }
  }

  lemma {:induction false} WithoutIncreasing(items: seq<Item>, s: set<nat>)
    requires Increasing(items)
    ensures Increasing(Without(items, s))
  {
    if |items| > 0 {
      WithoutIncreasing(items[1..], s);
      WithoutMembers(items[1..], s);
      var rest := Without(items[1..], s);
      forall k | 0 <= k < |rest| ensures items[0].index < rest[k].index {
        assert rest[k] in items[1..];
      }
    }
  }

  /** Unsetting `a` then `b` is unsetting `a + b`. */
  lemma {:induction false} WithoutTwice(items: seq<Item>, a: set<nat>, b: set<nat>)
    ensures Without(Without(items, a), b) == Without(items, a + b)
  {
    if |items| > 0 {
      WithoutTwice(items[1..], a, b);
      var head := if items[0].index in a then [] else [items[0]];
      WithoutConcat(head, Without(items[1..], a), b);
      if items[0].index !in a {
        assert Without(head, b) == (if items[0].index in b then [] else [items[0]]) + Without([], b);
      }
    }
  }

  lemma {:induction false} WithoutConcat(x: seq<Item>, y: seq<Item>, s: set<nat>)
    ensures Without(x + y, s) == Without(x, s) + Without(y, s)
  {
    if |x| > 0 {
      assert (x + y)[1..] == x[1..] + y;
      WithoutConcat(x[1..], y, s);
    } else {
      assert x + y == y;
    }
  }

  /** Unsetting indexes that are not in the list changes nothing. */
  lemma {:induction false} WithoutNone(items: seq<Item>, s: set<nat>)
    requires forall i :: 0 <= i < |items| ==> items[i].index !in s
    ensures Without(items, s) == items
  {
    if |items| > 0 {
      WithoutNone(items[1..], s);
    }
  }

  /**
   * One pass unsets the marked indexes of `name` only, drops that key when
   * its list becomes empty, and keeps every other key and the key order.
   */
  lemma RemovePassItems(es: seq<Entry>, name: FieldName, s: set<nat>)
    requires WellFormed(es)
    ensures var r := RemovePass(es, name, s);
      && WellFormed(r)
      && ItemsOf(r, name) == Without(ItemsOf(es, name), s)
      && (forall k :: k != name ==> ItemsOf(r, k) == ItemsOf(es, k))
      && OrderKept(r, es)
  {
    match Position(es, name)
    case None =>
      OrderKeptSelf(es);
    case Some(p) =>
      RemovePassAt(es, p, s);
  }

  lemma RemovePassAt(es: seq<Entry>, p: nat, s: set<nat>)
    requires WellFormed(es) && p < |es|
    ensures var r := RemovePass(es, es[p].name, s);
      && WellFormed(r)
      && ItemsOf(r, es[p].name) == Without(es[p].items, s)
      && (forall k :: k != es[p].name ==> ItemsOf(r, k) == ItemsOf(es, k))
      && OrderKept(r, es)
  {
    PositionAt(es, p);
    var w := Without(es[p].items, s);
    WithoutIncreasing(es[p].items, s);
    if w == [] {
      DeleteAt(es, p);
    } else {
      ReplaceAt(es, p, w);
    }
  }

  lemma OrderKeptSelf(es: seq<Entry>)
    requires DistinctNames(es)
    ensures OrderKept(es, es)
  {
    forall i | 0 <= i < |es| ensures Rank(es, es[i].name) == i {
      PositionAt(es, i);
    }
  }

  /**
   * Remove-selected leaves under each key exactly the filters whose index was
   * not marked (with their original indexes), drops a key only when nothing
   * is left under it, leaves keys that were not submitted untouched and keeps
   * the key order.
   */
  lemma {:induction false} RemoveSelectedItems(es: seq<Entry>, sel: seq<Selection>)
    requires WellFormed(es)
    ensures var r := RemoveSelected(es, sel);
      && WellFormed(r)
      && (forall k :: ItemsOf(r, k) == Without(ItemsOf(es, k), Selected(sel, k)))
      && OrderKept(r, es)
    decreases |sel|
  {
    if |sel| == 0 {
      forall k ensures Without(ItemsOf(es, k), {}) == ItemsOf(es, k) {
        WithoutNone(ItemsOf(es, k), {});
      }
      OrderKeptSelf(es);
    } else {
      var pre := sel[..|sel| - 1];
      var s := sel[|sel| - 1];
      var mid := RemoveSelected(es, pre);
      RemoveSelectedItems(es, pre);
      RemovePassItems(mid, s.name, MarkedOf(s.marks));
      var r := RemoveSelected(es, sel);
      forall k ensures ItemsOf(r, k) == Without(ItemsOf(es, k), Selected(sel, k)) {
        assert Selected(sel, k) == Selected(pre, k) + (if s.name == k then MarkedOf(s.marks) else {});
        if k == s.name {
          WithoutTwice(ItemsOf(es, k), Selected(pre, k), MarkedOf(s.marks));
        } else {
          assert Selected(sel, k) == Selected(pre, k);
        }
      }
      OrderKeptTransitive(r, mid, es);
    }
  }

  /** A key that no submitted selection names keeps exactly its list. */
  lemma {:induction false} UnselectedUntouched(es: seq<Entry>, sel: seq<Selection>, name: FieldName)
    requires WellFormed(es)
    requires forall i :: 0 <= i < |sel| ==> sel[i].name != name
    ensures ItemsOf(RemoveSelected(es, sel), name) == ItemsOf(es, name)
  {
    RemoveSelectedItems(es, sel);
    SelectedUnnamed(sel, name);
    WithoutNone(ItemsOf(es, name), {});
  }

  lemma {:induction false} SelectedUnnamed(sel: seq<Selection>, name: FieldName)
    requires forall i :: 0 <= i < |sel| ==> sel[i].name != name
    ensures Selected(sel, name) == {}
    decreases |sel|
  {
    if |sel| > 0 {
      SelectedUnnamed(sel[..|sel| - 1], name);
    }
  }

  /**
   * Adding a filter under `name` and then removing the index it was given
   * restores the map, including dropping the key when that filter was its
   * only entry.
   */
  lemma AddThenRemoveRestores(es: seq<Entry>, name: FieldName, d: FilterData)
    requires WellFormed(es)
    ensures var idx := NextIndex(ItemsOf(es, name));
      RemoveSelected(Append(es, name, d), [Selection(name, [Mark(idx, "1")])]) == es
  {
    var idx := NextIndex(ItemsOf(es, name));
    RemoveOneMark(Append(es, name, d), name, idx);
    match Position(es, name)
    case Some(p) =>
      RemovePushedExisting(es, p, d);
    case None =>
      RemovePushedNew(es, name, d);
  }

  /** Submitting one non-empty checkbox is one pass over that field with that index. */
  lemma RemoveOneMark(es: seq<Entry>, name: FieldName, idx: nat)
    ensures RemoveSelected(es, [Selection(name, [Mark(idx, "1")])]) == RemovePass(es, name, {idx})
  {
    var sel := [Selection(name, [Mark(idx, "1")])];
    var marks := [Mark(idx, "1")];
    assert marks[..0] == [];
    assert MarkedOf(marks) == {idx};
    assert sel[..0] == [];
  }

  lemma RemovePushedExisting(es: seq<Entry>, p: nat, d: FilterData)
    requires WellFormed(es) && p < |es|
    ensures var idx := NextIndex(es[p].items);
      RemovePass(es[p := Entry(es[p].name, es[p].items + [Item(idx, d)])], es[p].name, {idx}) == es
  {
    var name, items := es[p].name, es[p].items;
    var idx := NextIndex(items);
    var a := es[p := Entry(name, items + [Item(idx, d)])];
    ReplaceAt(es, p, items + [Item(idx, d)]);
    PositionAt(a, p);
    IncreasingAppend(items, d);
    WithoutConcat(items, [Item(idx, d)], {idx});
    WithoutNone(items, {idx});
    assert Without([Item(idx, d)], {idx}) == [];
    assert Without(a[p].items, {idx}) == items != [];
    assert a[p := Entry(name, items)] == es;
  }

  lemma RemovePushedNew(es: seq<Entry>, name: FieldName, d: FilterData)
    requires WellFormed(es) && Position(es, name).None?
    ensures RemovePass(es + [Entry(name, [Item(0, d)])], name, {0}) == es
  {
    var a := es + [Entry(name, [Item(0, d)])];
    AddLast(es, Entry(name, [Item(0, d)]));
    PositionAt(a, |es|);
    assert Without([Item(0, d)], {0}) == [];
    assert a[..|es|] == es;
  }

  /**
   * The inner remove loop over one field's checkboxes: `unset` each index
   * whose value is not empty.
   */
  method UnsetMarked(stored: seq<Item>, marks: seq<Mark>) returns (items: seq<Item>)
    ensures items == Without(stored, MarkedOf(marks))
  {
    items := stored;
    WithoutNone(stored, {});
    assert marks[..0] == [];
    var j := 0;
    while j < |marks|
      invariant 0 <= j <= |marks|
      invariant items == Without(stored, MarkedOf(marks[..j]))
    {
      assert marks[..j + 1][..j] == marks[..j];
      if !IsEmpty(marks[j].value) {
        WithoutTwice(stored, MarkedOf(marks[..j]), {marks[j].index});
        items := Without(items, {marks[j].index});
      } else {
        assert MarkedOf(marks[..j + 1]) == MarkedOf(marks[..j]);
      }
      j := j + 1;
    }
    assert marks[..j] == marks;
  }

  /**
   * `$SESSION->coursesstatus_filtering`: `present` is `isset(...)`, and
   * `entries` the ordered map it holds.
   */
  class FilterSession {
    var present: bool
    var entries: seq<Entry>

    ghost predicate Valid()
      reads this
    {
      WellFormed(entries) && (!present ==> entries == [])
    }

    /** A session in which the filter map was never set. */
    constructor ()
      ensures Valid() && !present && entries == []
    {
      present := false;
      entries := [];
    }

    /** `if (!isset(...)) ... = array();` */
    method Initialise()
      requires Valid()
      modifies this
      ensures Valid() && present
      ensures entries == if old(present) then old(entries) else []
    {
      if !present {
        present := true;
        entries := [];
      }
    }

    /** The add step of the constructor, over the registry in order. */
    method Add(registry: seq<Field>, form: FormData, check: (Field, FormData) -> Option<FilterData>)
      requires Valid() && present
      modifies this
      ensures Valid() && present
      ensures entries == AddAll(old(entries), registry, form, check)
    {
      ghost var before := entries;
      var es := entries;
      var i := 0;
      while i < |registry|
        invariant 0 <= i <= |registry|
        invariant present && WellFormed(es)
        invariant es == AddAll(before, registry[..i], form, check)
      {
        var field := registry[i];
        var data := check(field, form);
        AddAllStep(before, registry, i, form, check);
        if data.Some? {
          AppendWellFormed(es, field.name, data.value);
          es := Push(es, field.name, data.value);
        }
        i := i + 1;
      }
      assert registry[..i] == registry;
      entries := es;
    }

    /** `... = array();` when the remove-all button was pressed. */
    method RemoveAll()
      requires Valid()
      modifies this
      ensures Valid() && present && entries == []
    {
      present := true;
      entries := [];
    }

    /** The remove-selected loop over the submitted checkboxes. */
    method RemoveSelectedFilters(sel: seq<Selection>)
      requires Valid() && present
      modifies this
      ensures Valid() && present
      ensures entries == RemoveSelected(old(entries), sel)
    {
      var k := 0;
      while k < |sel|
        invariant 0 <= k <= |sel|
        invariant present && WellFormed(entries)
        invariant entries == RemoveSelected(old(entries), sel[..k])
      {
        assert sel[..k + 1][..k] == sel[..k];
        var s := sel[k];
        RemovePassItems(entries, s.name, MarkedOf(s.marks));
        var p := Position(entries, s.name);
        if p.Some? {
          var items := UnsetMarked(entries[p.value].items, s.marks);
          if items == [] {
            entries := entries[..p.value] + entries[p.value + 1..];
          } else {
            entries := entries[p.value := Entry(s.name, items)];
          }
        }
        k := k + 1;
      }
      assert sel[..k] == sel;
    }
  }
}
