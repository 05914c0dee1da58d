/** The cache clean-up SaveXciCache performs before writing: walking the
    indices from the last down to 1, every record whose keepInCache is false
    is removed. The loop stops before index 0, so the first record always
    stays, whatever its flag. */
module CachePrune {
  import opened Records
  import opened Lookup

  /** The records whose keepInCache is set, in their original order. */
  function KeepOnly(items: seq<XciItem>): (r: seq<XciItem>)
    ensures |r| <= |items|
  {
    if items == [] then []
    else (if items[0].keepInCache then [items[0]] else []) + KeepOnly(items[1..])
  }

  /** The kept records are exactly the flagged ones. */
  lemma {:induction false} KeepOnlyMembers(items: seq<XciItem>)
    ensures forall x :: x in KeepOnly(items) <==> x in items && x.keepInCache
  {
    if items != [] {
      KeepOnlyMembers(items[1..]);
      assert items == [items[0]] + items[1..];
    }
  }

  /** Filtering a concatenation is concatenating the filters: the kept
      records stay in their original relative order. */
  lemma {:induction false} KeepOnlyAppend(a: seq<XciItem>, b: seq<XciItem>)
    ensures KeepOnly(a + b) == KeepOnly(a) + KeepOnly(b)
  {
    if a == [] {
      assert a + b == b;
    } else {
      var head := if a[0].keepInCache then [a[0]] else [];
      assert (a + b)[0] == a[0];
      assert (a + b)[1..] == a[1..] + b;
      calc {
        KeepOnly(a + b);
        head + KeepOnly(a[1..] + b);
        { KeepOnlyAppend(a[1..], b); }
        head + (KeepOnly(a[1..]) + KeepOnly(b));
        (head + KeepOnly(a[1..])) + KeepOnly(b);
      }
    }
  }

  /** One step of the backward walk: the record at `i` is kept exactly when its flag is set. */
  lemma KeepOnlyStep(items: seq<XciItem>, i: nat)
    requires i < |items|
    ensures KeepOnly(items[i..]) == (if items[i].keepInCache then [items[i]] else []) + KeepOnly(items[i + 1..])
  {
    assert items[i..][1..] == items[i + 1..];
  }

  /** The cache as SaveXciCache leaves it. */
  function Pruned(cache: seq<XciItem>): (r: seq<XciItem>)
    ensures |r| <= |cache|
    ensures cache != [] ==> r != [] && r[0] == cache[0]
    ensures cache != [] ==> forall x :: x in r[1..] <==> x in cache[1..] && x.keepInCache
  {
    if cache == [] then []
    else
      KeepOnlyMembers(cache[1..]);
      var r := [cache[0]] + KeepOnly(cache[1..]);
      assert r[1..] == KeepOnly(cache[1..]);
      r
  }

  /** Pruning keeps order: pruning a cache with records appended is pruning
      the cache, then appending the appended records that are kept. */
  lemma PrunedAppend(cache: seq<XciItem>, more: seq<XciItem>)
    requires cache != []
    ensures Pruned(cache + more) == Pruned(cache) + KeepOnly(more)
  {
    assert (cache + more)[1..] == cache[1..] + more;
    KeepOnlyAppend(cache[1..], more);
  }

  /** The state of SaveXciCache's backward walk once index `i` has been
      visited: the records before `i` untouched, those from `i` on filtered. */
  function PartlyPruned(cache: seq<XciItem>, i: nat): seq<XciItem>
    requires i <= |cache|
  {
    cache[..i] + KeepOnly(cache[i..])
  }

  /** Visiting index `i` (removing it when its flag is clear) moves the walk one step back. */
  lemma PruneStep(cache: seq<XciItem>, i: nat, items: seq<XciItem>)
    requires 0 < i < |cache|
    requires items == PartlyPruned(cache, i + 1)
    ensures i < |items| && items[i] == cache[i]
    ensures (if items[i].keepInCache then items else RemoveAt(items, i)) == PartlyPruned(cache, i)
  {
    KeepOnlyStep(cache, i);
    assert cache[..i + 1] == cache[..i] + [cache[i]];
    var rest := KeepOnly(cache[i + 1..]);
    if !cache[i].keepInCache {
      assert RemoveAt(items, i) == cache[..i] + rest;
    } else {
      assert items == cache[..i] + ([cache[i]] + rest);
    }
  }

  /** The walk stops before index 0, leaving exactly the pruned cache. */
  lemma PruneDone(cache: seq<XciItem>)
    requires cache != []
    ensures PartlyPruned(cache, 1) == Pruned(cache)
  {
    assert cache[..1] == [cache[0]];
  }

  /** A kept newest record survives the clean-up. */
  lemma PrunedKeepsNewest(cache: seq<XciItem>)
    requires cache != [] && cache[|cache| - 1].keepInCache
    ensures cache[|cache| - 1] in Pruned(cache)
  {
    if |cache| > 1 {
      assert cache[|cache| - 1] in cache[1..];
    }
  }

  lemma {:induction false} KeepOnlyIdempotent(items: seq<XciItem>)
    ensures KeepOnly(KeepOnly(items)) == KeepOnly(items)
  {
    if items != [] {
      KeepOnlyIdempotent(items[1..]);
      var rest := KeepOnly(items[1..]);
      if items[0].keepInCache {
        var r := [items[0]] + rest;
        assert r[0] == items[0] && r[1..] == rest;
        assert KeepOnly(r) == [items[0]] + KeepOnly(rest);
      } else {
        assert KeepOnly(items) == rest;
      }
    }
  }

  /** Saving twice prunes nothing more the second time. */
  lemma PrunedIdempotent(cache: seq<XciItem>)
    ensures Pruned(Pruned(cache)) == Pruned(cache)
  {
    if cache != [] {
      KeepOnlyIdempotent(cache[1..]);
      assert Pruned(cache)[1..] == KeepOnly(cache[1..]);
    }
  }

  lemma {:induction false} KeepOnlyKeepsIdsUnique(items: seq<XciItem>)
    requires NoDuplicateIds(items)
    ensures NoDuplicateIds(KeepOnly(items))
  {
    if items != [] {
      var tail := items[1..];
      KeepOnlyKeepsIdsUnique(tail);
      KeepOnlyMembers(tail);
      var rest := KeepOnly(tail);
      if items[0].keepInCache {
        var r := [items[0]] + rest;
        forall j | 0 < j < |r| ensures r[0].uniqueId != r[j].uniqueId {
          assert r[j] in tail;
          var k :| 0 <= k < |tail| && tail[k] == r[j];
          assert items[k + 1] == r[j];
        }
        forall i, j | 0 <= i < j < |r| ensures r[i].uniqueId != r[j].uniqueId {
          if i > 0 { assert r[i] == rest[i - 1] && r[j] == rest[j - 1]; }
        }
      }
    }
  }

  /** Pruning a cache with one record per identity keeps it that way. */
  lemma PrunedKeepsIdsUnique(cache: seq<XciItem>)
    requires NoDuplicateIds(cache)
    ensures NoDuplicateIds(Pruned(cache))
  {
    if cache != [] {
      var tail := cache[1..];
      KeepOnlyKeepsIdsUnique(tail);
      var r := Pruned(cache);
      forall i, j | 0 <= i < j < |r| ensures r[i].uniqueId != r[j].uniqueId {
        if i == 0 {
          assert r[j] in tail;
          var k :| 0 <= k < |tail| && tail[k] == r[j];
          assert cache[k + 1] == r[j];
        } else {
          assert r[i] == KeepOnly(tail)[i - 1] && r[j] == KeepOnly(tail)[j - 1];
        }
      }
    }
  }
}
