/** UpdateXci as a state transition: applying a record's completed file
    operation to the PC list, the SD list, the cache and the disk.

    Before branching, UpdateXci looks the record's id up in the list of the
    operation's source location (the "source" reference) and in the other
    list (the "sibling" reference). Removing a reference from a list removes
    the record it points to only when it points into that list. A write
    through a null reference throws NullReferenceException; the state it
    leaves behind is whatever the branch had changed before the throw. */
module FileOperations {
  import opened Records
  import opened Environment
  import opened Lookup
  import opened Metadata

  datatype Fault = NullReference | FileNotFound
  datatype Outcome = Done | Failed(fault: Fault)

  /** The state UpdateXci reads and writes. */
  datatype Snapshot = Snapshot(pc: seq<XciItem>, sd: seq<XciItem>, cache: seq<XciItem>, disk: Disk) {
    function ListAt(loc: Location): seq<XciItem> {
      if loc == PC then pc else sd
    }

    function WithList(loc: Location, items: seq<XciItem>): (r: Snapshot)
      ensures r.ListAt(loc) == items && r.ListAt(Other(loc)) == ListAt(Other(loc))
      ensures r.cache == cache && r.disk == disk
    {
      if loc == PC then this.(pc := items) else this.(sd := items)
    }
  }

  datatype Applied = Applied(after: Snapshot, outcome: Outcome)

  /** Index of the source reference in the list of the operation's source location. */
  function SourceIndex(st: Snapshot, xci: XciItem): Option<nat> {
    FirstIndex(st.ListAt(xci.fileAction.source), xci.uniqueId)
  }

  /** Index of the sibling reference in the other list. */
  function SiblingIndex(st: Snapshot, xci: XciItem): Option<nat> {
    FirstIndex(st.ListAt(Other(xci.fileAction.source)), xci.uniqueId)
  }

  /** `list.Remove(source)` on the list at `loc`. */
  function RemoveSource(st: Snapshot, xci: XciItem, loc: Location): (r: Snapshot)
    ensures r.cache == st.cache && r.disk == st.disk
    ensures r.ListAt(Other(loc)) == st.ListAt(Other(loc))
  {
    match SourceIndex(st, xci)
    case Some(k) =>
      if xci.fileAction.source == loc then st.WithList(loc, RemoveAt(st.ListAt(loc), k)) else st
    case None => st
  }

  /** UpdateXci (the Debug.Assert on actionCompleted has no effect in a release build). */
  function ApplyCompletedAction(st: Snapshot, sha256: string -> string, xci: XciItem): (r: Applied)
    ensures xci.fileAction.action == NoAction ==> r == Applied(st, Done)
    ensures r.outcome.Failed? ==> xci.fileAction.action in {Copy, Delete, Trim}
    ensures xci.fileAction.action != Move ==> r.after.disk == st.disk
  {
    match xci.fileAction.action
    case NoAction => Applied(st, Done)
    case Copy => ApplyCopy(st, sha256, xci)
    case Move => ApplyMove(st, sha256, xci)
    case Delete => ApplyDelete(st, xci)
    case CompletelyDelete => ApplyCompletelyDelete(st, xci)
    case Trim => ApplyTrim(st, xci)
  }

  /** The destination record of a copy or move after RefreshGame and the
      presence flags the branch then writes on it. */
  function CopyDestination(st: Snapshot, sha256: string -> string, xci: XciItem): XciItem {
    var fa := xci.fileAction;
    var clone := xci.(xciFilePath := fa.destinationPath, xciLocation := fa.destination);
    RefreshedRecord(st.disk, sha256, st.pc, st.sd, clone, true).(isGameOnPc := true, isGameOnSd := true)
  }

  /** Copy: the refreshed clone is upserted into the cache; then the source
      record is marked present in both places with its operation cleared, and
      the clone, also marked present in both places, joins the destination's
      list. A missing source record throws after the cache upsert. */
  function ApplyCopy(st: Snapshot, sha256: string -> string, xci: XciItem): (r: Applied)
    ensures r.after.disk == st.disk
    ensures r.outcome == Done <==> SourceIndex(st, xci).Some?
    ensures r.outcome.Failed? ==> r.outcome == Failed(NullReference) && r.after.pc == st.pc && r.after.sd == st.sd
  {
    var fa := xci.fileAction;
    var dest := CopyDestination(st, sha256, xci);
    match SourceIndex(st, xci)
    case None =>
      var clone := xci.(xciFilePath := fa.destinationPath, xciLocation := fa.destination);
      var refreshed := RefreshedRecord(st.disk, sha256, st.pc, st.sd, clone, true);
      Applied(st.(cache := Upsert(st.cache, refreshed)), Failed(NullReference))
    case Some(k) =>
      var list := st.ListAt(fa.source);
      var marked := list[k].(isGameOnPc := true, isGameOnSd := true, fileAction := DefaultFileStruct);
      var st1 := st.WithList(fa.source, list[k := marked]);
      var st2 := st1.WithList(fa.destination, st1.ListAt(fa.destination) + [dest]);
      Applied(st2.(cache := Upsert(st.cache, dest)), Done)
  }

  /** The destination record of a move, after the leftover source file is deleted. */
  function MoveDestination(st: Snapshot, sha256: string -> string, xci: XciItem): XciItem {
    var fa := xci.fileAction;
    var disk1 := st.disk.(files := st.disk.files - {fa.sourcePath});
    var clone := xci.(fileAction := DefaultFileStruct, xciFilePath := fa.destinationPath,
                      xciLocation := fa.destination);
    RefreshedRecord(disk1, sha256, st.pc, st.sd, clone, true)
      .(isGameOnPc := fa.destination == PC, isGameOnSd := fa.destination == SD)
  }

  /** Move: nothing happens unless the destination file exists. Otherwise a
      leftover source file is deleted, the refreshed clone is upserted into
      the cache and appended to the destination's list, and the source record
      leaves the other list. */
  function ApplyMove(st: Snapshot, sha256: string -> string, xci: XciItem): (r: Applied)
    ensures r.outcome == Done
    ensures xci.fileAction.destinationPath !in st.disk.files ==> r.after == st
    ensures xci.fileAction.destinationPath in st.disk.files ==>
      r.after.disk == st.disk.(files := st.disk.files - {xci.fileAction.sourcePath})
  {
    var fa := xci.fileAction;
    if fa.destinationPath !in st.disk.files then Applied(st, Done)
    else
      var dest := MoveDestination(st, sha256, xci);
      var st1 := st.(disk := st.disk.(files := st.disk.files - {fa.sourcePath}),
                     cache := Upsert(st.cache, dest));
      var st2 := st1.WithList(fa.destination, st1.ListAt(fa.destination) + [dest]);
      Applied(RemoveSource(st2, xci, Other(fa.destination)), Done)
  }

  /** The record with its presence flag for `loc` cleared. */
  function ClearPresence(x: XciItem, loc: Location): XciItem {
    if loc == PC then x.(isGameOnPc := false) else x.(isGameOnSd := false)
  }

  /** Delete (from one location): nothing happens while the record's file
      exists. Otherwise the source record leaves the list of the record's
      location and the sibling record loses its presence flag for that
      location. The SD branch writes through the sibling reference without a
      null check. */
  function ApplyDelete(st: Snapshot, xci: XciItem): (r: Applied)
    ensures r.after.cache == st.cache && r.after.disk == st.disk
    ensures r.outcome.Failed? <==>
      xci.xciFilePath !in st.disk.files && xci.xciLocation == SD && SiblingIndex(st, xci).None?
    ensures r.outcome.Failed? ==> r.outcome == Failed(NullReference)
  {
    if xci.xciFilePath in st.disk.files then Applied(st, Done)
    else
      var loc := xci.xciLocation;
      var sibLoc := Other(xci.fileAction.source);
      var st1 := RemoveSource(st, xci, loc);
      match SiblingIndex(st, xci)
      case None => Applied(st1, if loc == PC then Done else Failed(NullReference))
      case Some(j) =>
        assert st1.ListAt(sibLoc) == st.ListAt(sibLoc);
        var list := st1.ListAt(sibLoc);
        Applied(st1.WithList(sibLoc, list[j := ClearPresence(list[j], loc)]), Done)
  }

  /** CompletelyDelete: nothing happens while the record's file exists;
      otherwise the source record leaves the list of the record's location. */
  function ApplyCompletelyDelete(st: Snapshot, xci: XciItem): (r: Applied)
    ensures r.outcome == Done && r.after.cache == st.cache && r.after.disk == st.disk
    ensures r.after.ListAt(Other(xci.xciLocation)) == st.ListAt(Other(xci.xciLocation))
  {
    if xci.xciFilePath in st.disk.files then Applied(st, Done)
    else Applied(RemoveSource(st, xci, xci.xciLocation), Done)
  }

  /** Trim: the source record takes the file's new length as its size,
      re-derives its trimmed flag against the used size the operation
      recorded, and clears its operation. Reading the length of a missing
      file throws before the null source is dereferenced. */
  function ApplyTrim(st: Snapshot, xci: XciItem): (r: Applied)
    ensures r.after.cache == st.cache && r.after.disk == st.disk
    ensures r.outcome == Failed(FileNotFound) <==> xci.xciFilePath !in st.disk.files
    ensures r.outcome == Failed(NullReference) <==>
      xci.xciFilePath in st.disk.files && SourceIndex(st, xci).None?
    ensures r.outcome.Failed? ==> r.after == st
  {
    if xci.xciFilePath !in st.disk.files then Applied(st, Failed(FileNotFound))
    else match SourceIndex(st, xci)
      case None => Applied(st, Failed(NullReference))
      case Some(k) =>
        var size := st.disk.files[xci.xciFilePath].length;
        var list := st.ListAt(xci.fileAction.source);
        var trimmed := list[k].(gameSize := size, isXciTrimmed := size == xci.gameUsedSize,
                                fileAction := DefaultFileStruct);
        Applied(st.WithList(xci.fileAction.source, list[k := trimmed]), Done)
  }

  /** Each guard that fails leaves everything as it was. */
  lemma GuardsLeaveStateAlone(st: Snapshot, sha256: string -> string, xci: XciItem)
    ensures xci.fileAction.action == NoAction ==> ApplyCompletedAction(st, sha256, xci) == Applied(st, Done)
    ensures xci.fileAction.action == Move && xci.fileAction.destinationPath !in st.disk.files
            ==> ApplyCompletedAction(st, sha256, xci) == Applied(st, Done)
    ensures xci.fileAction.action in {Delete, CompletelyDelete} && xci.xciFilePath in st.disk.files
            ==> ApplyCompletedAction(st, sha256, xci) == Applied(st, Done)
  {
  }

  /** Trim never changes which records the lists hold, nor the cache or the disk.
      When it succeeds, only the source record changes: its size becomes the
      file's length, its trimmed flag says whether that length is the used
      size, and its operation is cleared; the other list is untouched. */
  lemma TrimKeepsMembership(st: Snapshot, sha256: string -> string, xci: XciItem)
    requires xci.fileAction.action == Trim
    ensures var a := ApplyCompletedAction(st, sha256, xci);
      && SameIdsInOrder(a.after.pc, st.pc) && SameIdsInOrder(a.after.sd, st.sd)
      && a.after.cache == st.cache && a.after.disk == st.disk
      && (a.outcome == Done ==>
           var k := SourceIndex(st, xci).value;
           var t := a.after.ListAt(xci.fileAction.source)[k];
           (t.isXciTrimmed <==> t.gameSize == xci.gameUsedSize) && t.fileAction == DefaultFileStruct)
    ensures var a := ApplyCompletedAction(st, sha256, xci);
      a.outcome == Done ==>
        var src := xci.fileAction.source;
        var k := SourceIndex(st, xci).value;
        var size := st.disk.files[xci.xciFilePath].length;
        && a.after.ListAt(src) == st.ListAt(src)[k := st.ListAt(src)[k].(gameSize := size,
             isXciTrimmed := size == xci.gameUsedSize, fileAction := DefaultFileStruct)]
        && a.after.ListAt(Other(src)) == st.ListAt(Other(src))
  {
    var a := ApplyCompletedAction(st, sha256, xci);
    assert a == ApplyTrim(st, xci);
    if xci.xciFilePath in st.disk.files && SourceIndex(st, xci).Some? {
      var loc := xci.fileAction.source;
      var k := SourceIndex(st, xci).value;
      var size := st.disk.files[xci.xciFilePath].length;
      var list := st.ListAt(loc);
      var t := list[k].(gameSize := size, isXciTrimmed := size == xci.gameUsedSize, fileAction := DefaultFileStruct);
      assert a.after == st.WithList(loc, list[k := t]);
      assert a.after.ListAt(Other(loc)) == st.ListAt(Other(loc));
      assert SameIdsInOrder(a.after.ListAt(loc), list);
    }
  }

  /** A completed copy between the two locations: the destination list gains
      the refreshed clone at its end, present in both places, kept and with no
      pending operation; the source record, found in the source list, is
      marked present in both places with its operation cleared; the cache
      gets exactly one upsert; the disk is untouched. */
  lemma CopyAddsDestination(st: Snapshot, sha256: string -> string, xci: XciItem)
    requires xci.fileAction.action == Copy
    requires SourceIndex(st, xci).Some?
    requires xci.fileAction.source != xci.fileAction.destination
    ensures var fa := xci.fileAction;
      var a := ApplyCompletedAction(st, sha256, xci);
      var d := CopyDestination(st, sha256, xci);
      var k := SourceIndex(st, xci).value;
      var src := st.ListAt(fa.source);
      && a.outcome == Done
      && a.after.ListAt(fa.destination) == st.ListAt(fa.destination) + [d]
      && a.after.ListAt(fa.source)
         == src[k := src[k].(isGameOnPc := true, isGameOnSd := true, fileAction := DefaultFileStruct)]
      && a.after.cache == Upsert(st.cache, d)
      && a.after.disk == st.disk
      && d.xciFilePath == fa.destinationPath && d.xciLocation == fa.destination
      && d.isGameOnPc && d.isGameOnSd && d.keepInCache && d.fileAction == DefaultFileStruct
  {
    var fa := xci.fileAction;
    assert Other(fa.destination) == fa.source;
  }

  /** A copy whose source record is missing from the source list fails with
      a null reference, after the refreshed clone was upserted into the
      cache; the lists and the disk are untouched. */
  lemma CopyWithoutSourceFails(st: Snapshot, sha256: string -> string, xci: XciItem)
    requires xci.fileAction.action == Copy
    requires SourceIndex(st, xci).None?
    ensures var fa := xci.fileAction;
      var a := ApplyCompletedAction(st, sha256, xci);
      var clone := xci.(xciFilePath := fa.destinationPath, xciLocation := fa.destination);
      && a.outcome == Failed(NullReference)
      && a.after.pc == st.pc && a.after.sd == st.sd && a.after.disk == st.disk
      && a.after.cache == Upsert(st.cache, RefreshedRecord(st.disk, sha256, st.pc, st.sd, clone, true))
  {
  }

  /** A completed move between the two locations: the source file is gone,
      the destination list gains the refreshed record at its end, the other
      list loses the first record with the id, and the cache gets exactly one
      upsert. */
  lemma MoveRelocates(st: Snapshot, sha256: string -> string, xci: XciItem)
    requires xci.fileAction.action == Move
    requires xci.fileAction.destinationPath in st.disk.files
    requires xci.fileAction.source != xci.fileAction.destination
    ensures var fa := xci.fileAction;
      var a := ApplyCompletedAction(st, sha256, xci);
      var d := MoveDestination(st, sha256, xci);
      && a.outcome == Done
      && fa.sourcePath !in a.after.disk.files
      && a.after.ListAt(fa.destination) == st.ListAt(fa.destination) + [d]
      && a.after.ListAt(fa.source) == RemoveFirst(st.ListAt(fa.source), xci.uniqueId)
      && a.after.cache == Upsert(st.cache, d)
      && d.xciFilePath == fa.destinationPath && d.xciLocation == fa.destination
      && d.isGameOnPc == (fa.destination == PC) && d.isGameOnSd == (fa.destination == SD)
      && d.keepInCache && d.fileAction == DefaultFileStruct
  {
    var fa := xci.fileAction;
    assert Other(fa.destination) == fa.source;
  }

  /** A completed delete from the record's own source location: the first
      record with the id leaves that list; Delete also clears the sibling's
      presence flag for that location, CompletelyDelete leaves the other list
      alone. */
  lemma DeleteRemovesRecord(st: Snapshot, sha256: string -> string, xci: XciItem)
    requires xci.fileAction.action in {Delete, CompletelyDelete}
    requires xci.xciFilePath !in st.disk.files
    requires xci.fileAction.source == xci.xciLocation
    ensures var loc := xci.xciLocation;
      var a := ApplyCompletedAction(st, sha256, xci);
      var others := st.ListAt(Other(loc));
      && a.after.ListAt(loc) == RemoveFirst(st.ListAt(loc), xci.uniqueId)
      && a.after.cache == st.cache && a.after.disk == st.disk
      && (xci.fileAction.action == CompletelyDelete ==> a.after.ListAt(Other(loc)) == others && a.outcome == Done)
      && (xci.fileAction.action == Delete ==>
           match FirstIndex(others, xci.uniqueId)
           case None => a.after.ListAt(Other(loc)) == others && (a.outcome == Done <==> loc == PC)
           case Some(j) =>
             && |a.after.ListAt(Other(loc))| == |others|
             && (forall i :: 0 <= i < |others| && i != j ==> a.after.ListAt(Other(loc))[i] == others[i])
             && a.after.ListAt(Other(loc))[j]
                == ClearPresence(others[j], loc)
             && a.outcome == Done)
  {
  }

  /** With one record per identity, no completed operation can leave two
      cache records with the same id. */
  lemma CacheStaysUnique(st: Snapshot, sha256: string -> string, xci: XciItem)
    requires NoDuplicateIds(st.cache)
    ensures NoDuplicateIds(ApplyCompletedAction(st, sha256, xci).after.cache)
  {
    match xci.fileAction.action
    case Copy =>
      var fa := xci.fileAction;
      var clone := xci.(xciFilePath := fa.destinationPath, xciLocation := fa.destination);
      UpsertKeepsIdsUnique(st.cache, RefreshedRecord(st.disk, sha256, st.pc, st.sd, clone, true));
      UpsertKeepsIdsUnique(st.cache, CopyDestination(st, sha256, xci));
    case Move =>
      UpsertKeepsIdsUnique(st.cache, MoveDestination(st, sha256, xci));
    case _ =>
  }

  /** After removing the source once, a second removal finds nothing. */
  lemma RemoveSourceTwice(st: Snapshot, xci: XciItem, loc: Location)
    requires NoDuplicateIds(st.ListAt(loc))
    ensures xci.fileAction.source == loc ==> SourceIndex(RemoveSource(st, xci, loc), xci).None?
    ensures RemoveSource(RemoveSource(st, xci, loc), xci, loc) == RemoveSource(st, xci, loc)
  {
    var st1 := RemoveSource(st, xci, loc);
    if xci.fileAction.source == loc {
      assert st1.ListAt(loc) == RemoveFirst(st.ListAt(loc), xci.uniqueId);
      RemoveFirstLeavesNoMatch(st.ListAt(loc), xci.uniqueId);
    }
  }

  /** Clearing a presence flag keeps every id in place, and a second clear changes nothing. */
  lemma ClearAtKeepsIds(list: seq<XciItem>, j: nat, loc: Location, id: string)
    requires FirstIndex(list, id) == Some(j)
    ensures var l2 := list[j := ClearPresence(list[j], loc)];
      && FirstIndex(l2, id) == Some(j)
      && l2[j := ClearPresence(l2[j], loc)] == l2
  {
    var l2 := list[j := ClearPresence(list[j], loc)];
    assert SameIdsInOrder(l2, list);
    FirstIndexSameIds(l2, list, id);
  }

  /** Delete and CompletelyDelete may safely be applied again: when each list
      holds one record per identity, a second application changes nothing more. */
  lemma DeleteIdempotent(st: Snapshot, sha256: string -> string, xci: XciItem)
    requires xci.fileAction.action in {Delete, CompletelyDelete}
    requires NoDuplicateIds(st.pc) && NoDuplicateIds(st.sd)
    ensures var once := ApplyCompletedAction(st, sha256, xci);
            ApplyCompletedAction(once.after, sha256, xci) == once
  {
    var once := ApplyCompletedAction(st, sha256, xci);
    var src := xci.fileAction.source;
    var loc := xci.xciLocation;
    if xci.xciFilePath !in st.disk.files {
      var st1 := RemoveSource(st, xci, loc);
      RemoveSourceTwice(st, xci, loc);
      if xci.fileAction.action == Delete {
        var sibLoc := Other(src);
        assert st1.ListAt(sibLoc) == st.ListAt(sibLoc);
        match SiblingIndex(st, xci)
        case None =>
          assert SiblingIndex(st1, xci).None?;
        case Some(j) =>
          var list := st1.ListAt(sibLoc);
          ClearAtKeepsIds(list, j, loc, xci.uniqueId);
          var after := once.after;
          assert after == st1.WithList(sibLoc, list[j := ClearPresence(list[j], loc)]);
          assert SiblingIndex(after, xci) == Some(j);
          if src == loc {
            assert after.ListAt(src) == st1.ListAt(src);
            assert SourceIndex(after, xci).None?;
          }
          assert RemoveSource(after, xci, loc) == after;
      }
    }
  }

  /** Every record of a list is at location `loc`. */
  predicate AllAt(items: seq<XciItem>, loc: Location) {
    forall i :: 0 <= i < |items| ==> items[i].xciLocation == loc
  }

  /** Upserting a record of location `loc` into a list of such records keeps it so. */
  lemma UpsertKeepsAllAt(items: seq<XciItem>, x: XciItem, loc: Location)
    requires AllAt(items, loc) && x.xciLocation == loc
    ensures AllAt(Upsert(items, x), loc)
  {
    var u := Upsert(items, x);
    match FirstIndex(items, x.uniqueId)
    case None =>
      assert forall i :: 0 <= i < |u| - 1 ==> u[i] == items[i];
    case Some(k) =>
      assert forall i :: 0 <= i < |u| - 1 ==> u[i] == items[if i < k then i else i + 1];
  }

  /** Every record sits in the list of its own location. */
  predicate LocationsConsistent(st: Snapshot) {
    AllAt(st.pc, PC) && AllAt(st.sd, SD)
  }

  lemma RemoveSourceKeepsLocations(st: Snapshot, xci: XciItem, loc: Location)
    requires LocationsConsistent(st)
    ensures LocationsConsistent(RemoveSource(st, xci, loc))
  {
    var st1 := RemoveSource(st, xci, loc);
    if SourceIndex(st, xci).Some? && xci.fileAction.source == loc {
      var k := SourceIndex(st, xci).value;
      var l := st1.ListAt(loc);
      assert forall i :: 0 <= i < |l| ==> l[i] == st.ListAt(loc)[if i < k then i else i + 1];
      assert AllAt(st.ListAt(loc), loc);
      assert st1.ListAt(Other(loc)) == st.ListAt(Other(loc));
      assert loc == PC || loc == SD;
    }
  }

  lemma CopyKeepsLocations(st: Snapshot, sha256: string -> string, xci: XciItem)
    requires LocationsConsistent(st)
    ensures LocationsConsistent(ApplyCopy(st, sha256, xci).after)
  {
    var fa := xci.fileAction;
    if SourceIndex(st, xci).Some? {
      var k := SourceIndex(st, xci).value;
      var list := st.ListAt(fa.source);
      var marked := list[k].(isGameOnPc := true, isGameOnSd := true, fileAction := DefaultFileStruct);
      var st1 := st.WithList(fa.source, list[k := marked]);
      assert AllAt(list, fa.source) by { assert fa.source == PC || fa.source == SD; }
      assert LocationsConsistent(st1) by { assert fa.source == PC || fa.source == SD; }
      var dest := CopyDestination(st, sha256, xci);
      assert dest.xciLocation == fa.destination;
      assert AllAt(st1.ListAt(fa.destination), fa.destination) by { assert fa.destination == PC || fa.destination == SD; }
      var st2 := st1.WithList(fa.destination, st1.ListAt(fa.destination) + [dest]);
      assert LocationsConsistent(st2) by { assert fa.destination == PC || fa.destination == SD; }
    }
  }

  lemma MoveKeepsLocations(st: Snapshot, sha256: string -> string, xci: XciItem)
    requires LocationsConsistent(st)
    ensures LocationsConsistent(ApplyMove(st, sha256, xci).after)
  {
    var fa := xci.fileAction;
    if fa.destinationPath in st.disk.files {
      var dest := MoveDestination(st, sha256, xci);
      var st1 := st.(disk := st.disk.(files := st.disk.files - {fa.sourcePath}),
                     cache := Upsert(st.cache, dest));
      assert AllAt(st1.ListAt(fa.destination), fa.destination) by { assert fa.destination == PC || fa.destination == SD; }
      var st2 := st1.WithList(fa.destination, st1.ListAt(fa.destination) + [dest]);
      assert LocationsConsistent(st2) by { assert fa.destination == PC || fa.destination == SD; }
      RemoveSourceKeepsLocations(st2, xci, Other(fa.destination));
    }
  }

  lemma DeleteKeepsLocations(st: Snapshot, xci: XciItem)
    requires LocationsConsistent(st)
    ensures LocationsConsistent(ApplyDelete(st, xci).after)
  {
    if xci.xciFilePath !in st.disk.files {
      var loc := xci.xciLocation;
      var sibLoc := Other(xci.fileAction.source);
      var st1 := RemoveSource(st, xci, loc);
      RemoveSourceKeepsLocations(st, xci, loc);
      if SiblingIndex(st, xci).Some? {
        var j := SiblingIndex(st, xci).value;
        var list := st1.ListAt(sibLoc);
        assert AllAt(list, sibLoc) by { assert sibLoc == PC || sibLoc == SD; }
        var st2 := st1.WithList(sibLoc, list[j := ClearPresence(list[j], loc)]);
        assert LocationsConsistent(st2) by { assert sibLoc == PC || sibLoc == SD; }
      }
    }
  }

  lemma TrimKeepsLocations(st: Snapshot, xci: XciItem)
    requires LocationsConsistent(st)
    ensures LocationsConsistent(ApplyTrim(st, xci).after)
  {
    var src := xci.fileAction.source;
    if xci.xciFilePath in st.disk.files && SourceIndex(st, xci).Some? {
      assert AllAt(st.ListAt(src), src) by { assert src == PC || src == SD; }
      var a := ApplyTrim(st, xci);
      assert AllAt(a.after.ListAt(src), src);
      assert LocationsConsistent(a.after) by { assert src == PC || src == SD; }
    }
  }

  /** No completed operation puts a record into the wrong location's list. */
  lemma ActionsKeepLocations(st: Snapshot, sha256: string -> string, xci: XciItem)
    requires LocationsConsistent(st)
    ensures LocationsConsistent(ApplyCompletedAction(st, sha256, xci).after)
  {
    match xci.fileAction.action
    case Copy => CopyKeepsLocations(st, sha256, xci);
    case Move => MoveKeepsLocations(st, sha256, xci);
    case Delete => DeleteKeepsLocations(st, xci);
    case CompletelyDelete => RemoveSourceKeepsLocations(st, xci, xci.xciLocation);
    case Trim => TrimKeepsLocations(st, xci);
    case NoAction =>
  }
}
