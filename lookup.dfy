/** Identity-keyed queries and updates over a list of records: the first-match
    lookup (FindXciByIdentifer), the id filter (List.FindAll), removal of the
    first record with an id (List.Remove of the found reference) and the
    remove-then-append upsert that RefreshGame applies to the cache. */
module Lookup {
  import opened Records

  /** Index of the first record whose id is `id`. */
  function FirstIndex(items: seq<XciItem>, id: string): (r: Option<nat>)
    ensures r.Some? ==> r.value < |items| && items[r.value].uniqueId == id
    ensures r.Some? ==> forall j :: 0 <= j < r.value ==> items[j].uniqueId != id
    ensures r.None? <==> forall j :: 0 <= j < |items| ==> items[j].uniqueId != id
  {
    if items == [] then None
    else if items[0].uniqueId == id then Some(0)
    else match FirstIndex(items[1..], id)
      case None => None
      case Some(k) => Some(k + 1)
  }

  /** FindXciByIdentifer with an explicit list: the first record with the
      given id, or null. Duplicate ids are not an error. */
  function FindXciByIdentifer(uniqueId: string, items: seq<XciItem>): (r: Option<XciItem>)
    ensures r.None? <==> forall j :: 0 <= j < |items| ==> items[j].uniqueId != uniqueId
    ensures r.Some? ==> r.value.uniqueId == uniqueId
    ensures r.Some? ==> FirstIndex(items, uniqueId).Some? && r.value == items[FirstIndex(items, uniqueId).value]
  {
    match FirstIndex(items, uniqueId)
    case None => None
    case Some(k) => Some(items[k])
  }

  /** `items.FindAll(item => item.uniqueId == id)`: the matching records, in list order. */
  function AllWithId(items: seq<XciItem>, id: string): (r: seq<XciItem>)
    ensures |r| <= |items|
  {
    if items == [] then []
    else (if items[0].uniqueId == id then [items[0]] else []) + AllWithId(items[1..], id)
  }

  /** The filter keeps exactly the records with the id. */
  lemma {:induction false} AllWithIdMembers(items: seq<XciItem>, id: string)
    ensures forall x :: x in AllWithId(items, id) <==> x in items && x.uniqueId == id
  {
    if items != [] {
      AllWithIdMembers(items[1..], id);
      assert items == [items[0]] + items[1..];
    }
  }

  /** The filter of a concatenation is the concatenation of the filters: it
      keeps the matching records in list order, each as often as it occurs. */
  lemma {:induction false} AllWithIdAppend(a: seq<XciItem>, b: seq<XciItem>, id: string)
    ensures AllWithId(a + b, id) == AllWithId(a, id) + AllWithId(b, id)
  {
    if a != [] {
      assert (a + b)[1..] == a[1..] + b;
      AllWithIdAppend(a[1..], b, id);
    } else {
      assert a + b == b;
    }
  }

  /** The id filter and the first-match lookup agree: the filter is empty
      exactly when the lookup fails, and otherwise starts with the found record. */
  lemma {:induction false} AllWithIdStartsWithFirstMatch(items: seq<XciItem>, id: string)
    ensures AllWithId(items, id) == [] <==> FindXciByIdentifer(id, items).None?
    ensures AllWithId(items, id) != [] ==> AllWithId(items, id)[0] == FindXciByIdentifer(id, items).value
  {
    if items != [] && items[0].uniqueId != id {
      AllWithIdStartsWithFirstMatch(items[1..], id);
      assert FirstIndex(items, id) == match FirstIndex(items[1..], id)
        case None => None case Some(k) => Some(k + 1);
    }
  }

  function RemoveAt(items: seq<XciItem>, k: nat): (r: seq<XciItem>)
    requires k < |items|
    ensures |r| == |items| - 1
    ensures forall j :: 0 <= j < k ==> r[j] == items[j]
    ensures forall j :: k <= j < |r| ==> r[j] == items[j + 1]
  {
    items[..k] + items[k + 1..]
  }

  /** `items.Remove(FindXciByIdentifer(id, items))`. */
  function RemoveFirst(items: seq<XciItem>, id: string): (r: seq<XciItem>)
    ensures FirstIndex(items, id).None? ==> r == items
    ensures FirstIndex(items, id).Some? ==> r == RemoveAt(items, FirstIndex(items, id).value)
  {
    match FirstIndex(items, id)
    case None => items
    case Some(k) => RemoveAt(items, k)
  }

  /** Remove the first record with `x`'s id, then append `x`. */
  function Upsert(items: seq<XciItem>, x: XciItem): (r: seq<XciItem>)
    ensures |r| > 0 && r[|r| - 1] == x
    ensures |r| == if FindXciByIdentifer(x.uniqueId, items).Some? then |items| else |items| + 1
  {
    RemoveFirst(items, x.uniqueId) + [x]
  }

  /** Overwriting the newest entry of an upsert with a record of the same id
      is the upsert of that record. */
  lemma UpsertReplaceNewest(items: seq<XciItem>, x: XciItem, y: XciItem)
    requires x.uniqueId == y.uniqueId
    ensures var u := Upsert(items, x); u[|u| - 1 := y] == Upsert(items, y)
  {
    var rest := RemoveFirst(items, x.uniqueId);
    assert (rest + [x])[|rest| := y] == rest + [y];
  }

  /** The set of ids present in a list. */
  function Ids(items: seq<XciItem>): set<string> {
    set i | 0 <= i < |items| :: items[i].uniqueId
  }

  /** At most one record per id. */
  predicate NoDuplicateIds(items: seq<XciItem>) {
    forall i, j :: 0 <= i < j < |items| ==> items[i].uniqueId != items[j].uniqueId
  }

  /** An upsert adds the new record's id to the ids present and loses none;
      every other record keeps its relative order. */
  lemma UpsertIds(items: seq<XciItem>, x: XciItem)
    ensures Ids(Upsert(items, x)) == Ids(items) + {x.uniqueId}
    ensures Upsert(items, x)[..|Upsert(items, x)| - 1] == RemoveFirst(items, x.uniqueId)
  {
    var r := Upsert(items, x);
    var rest := RemoveFirst(items, x.uniqueId);
    assert r == rest + [x];
    forall id | id in Ids(items) ensures id in Ids(r) {
      var i :| 0 <= i < |items| && items[i].uniqueId == id;
      match FirstIndex(items, x.uniqueId)
      case None => assert r[i] == items[i];
      case Some(k) =>
        if i < k { assert r[i] == items[i]; }
        else if i == k { assert r[|r| - 1].uniqueId == id; }
        else { assert r[i - 1] == items[i]; }
    }
    forall id | id in Ids(r) ensures id in Ids(items) + {x.uniqueId} {
      var i :| 0 <= i < |r| && r[i].uniqueId == id;
      if i < |r| - 1 {
        match FirstIndex(items, x.uniqueId)
        case None => assert r[i] == items[i];
        case Some(k) =>
          if i < k { assert r[i] == items[i]; } else { assert r[i] == items[i + 1]; }
      }
    }
    assert r[|r| - 1].uniqueId == x.uniqueId;
  }

  /** The cache's "one record per identity" rule survives an upsert. */
  lemma UpsertKeepsIdsUnique(items: seq<XciItem>, x: XciItem)
    requires NoDuplicateIds(items)
    ensures NoDuplicateIds(Upsert(items, x))
  {
    var r := Upsert(items, x);
    var rest := RemoveFirst(items, x.uniqueId);
    assert r == rest + [x];
    assert forall j :: 0 <= j < |rest| ==> rest[j].uniqueId != x.uniqueId by {
      forall j | 0 <= j < |rest| ensures rest[j].uniqueId != x.uniqueId {
        match FirstIndex(items, x.uniqueId)
        case None =>
        case Some(k) =>
          if j >= k { assert rest[j] == items[j + 1]; }
      }
    }
    forall i, j | 0 <= i < j < |r| ensures r[i].uniqueId != r[j].uniqueId {
      if j < |r| - 1 {
        match FirstIndex(items, x.uniqueId)
        case None =>
        case Some(k) =>
          var i' := if i < k then i else i + 1;
          var j' := if j < k then j else j + 1;
          assert r[i] == items[i'] && r[j] == items[j'];
      } else {
        assert r[i] == rest[i];
      }
    }
  }

  /** With unique ids, upserting the same record twice equals upserting it once. */
  lemma UpsertIdempotent(items: seq<XciItem>, x: XciItem)
    requires NoDuplicateIds(items)
    ensures Upsert(Upsert(items, x), x) == Upsert(items, x)
  {
    var r := Upsert(items, x);
    var rest := RemoveFirst(items, x.uniqueId);
    assert r == rest + [x];
    RemoveFirstLeavesNoMatch(items, x.uniqueId);
    assert forall j :: 0 <= j < |rest| ==> r[j].uniqueId != x.uniqueId by {
      forall j | 0 <= j < |rest| ensures r[j].uniqueId != x.uniqueId {
        assert r[j] == rest[j];
      }
    }
    assert r[|rest|].uniqueId == x.uniqueId;
    assert FirstIndex(r, x.uniqueId) == Some(|rest|);
    assert RemoveAt(r, |rest|) == rest;
  }

  /** Two lists holding the same ids at the same positions. */
  predicate SameIdsInOrder(a: seq<XciItem>, b: seq<XciItem>) {
    |a| == |b| && forall i :: 0 <= i < |a| ==> a[i].uniqueId == b[i].uniqueId
  }

  /** The first-match lookup depends only on the ids, position by position. */
  lemma FirstIndexSameIds(a: seq<XciItem>, b: seq<XciItem>, id: string)
    requires SameIdsInOrder(a, b)
    ensures FirstIndex(a, id) == FirstIndex(b, id)
  {
    if a != [] && a[0].uniqueId != id {
      assert SameIdsInOrder(a[1..], b[1..]);
      FirstIndexSameIds(a[1..], b[1..], id);
    }
  }

  /** With unique ids, removing the first record with an id leaves none. */
  lemma RemoveFirstLeavesNoMatch(items: seq<XciItem>, id: string)
    requires NoDuplicateIds(items)
    ensures FirstIndex(RemoveFirst(items, id), id).None?
  {
    var rest := RemoveFirst(items, id);
    forall j | 0 <= j < |rest| ensures rest[j].uniqueId != id {
      match FirstIndex(items, id)
      case None =>
      case Some(k) =>
        if j >= k { assert rest[j] == items[j + 1]; }
    }
  }
}
