/** XciHelper's catalog: the list of games found on the PC, the list found
    on the SD card, the in-memory cache of parsed records, the queue of
    records waiting for a background refresh, and the saved cache file.
    The static fields of the source become the fields of one `Catalog`
    object; the settings it reads (the PC folders and the SD drive) are
    fixed when the object is made. */
module XciHelper {
  import opened Records
  import opened Environment
  import opened Lookup
  import opened Metadata
  import opened Scanner
  import opened CachePrune
  import opened FileOperations

  /** The record LoadGamesFromPath builds for a listed file: a copy of the
      cached record with the file's identity, or a blank record, stamped with
      the path and the scanned location. */
  function Discovered(disk: Disk, sha256: string -> string, cache: seq<XciItem>,
                      path: string, isSdCard: bool): (r: XciItem)
    ensures r.xciFilePath == path
    ensures r.xciLocation == (if isSdCard then SD else PC)
    ensures r.isGameOnSd == isSdCard && r.isGameOnPc == !isSdCard
    ensures match FindXciByIdentifer(GetXciIdentifier(disk, sha256, path), cache)
      case Some(c) => SameMetadata(r, c) && r.keepInCache == c.keepInCache && r.fileAction == c.fileAction
      case None => r.uniqueId == "" && !IsXciInfoValid(Some(r)) && r.fileAction == DefaultFileStruct
  {
    var found := FindXciByIdentifer(GetXciIdentifier(disk, sha256, path), cache);
    var x := if found.Some? then found.value else BlankItem;
    x.(xciFilePath := path, isGameOnSd := isSdCard, isGameOnPc := !isSdCard,
       xciLocation := if isSdCard then SD else PC)
  }

  /** A rescan parses a file again only when the cache holds no usable
      record for its identity. */
  lemma RescanParsesOnlyUncached(disk: Disk, sha256: string -> string, cache: seq<XciItem>,
                                 path: string, isSdCard: bool)
    requires path in disk.files
    ensures NeedsParse(disk, Discovered(disk, sha256, cache, path, isSdCard), false)
        <==> !IsXciInfoValid(FindXciByIdentifer(GetXciIdentifier(disk, sha256, path), cache))
  {
  }

  /** On a first load (empty cache) a game found once on the PC is refreshed
      while the PC list still holds its blank, identity-less record, so its
      own presence flag comes out false. */
  lemma FirstLoadMissesOwnCopy(disk: Disk, sha256: string -> string, path: string)
    requires path in disk.files
    requires sha256(Text.FileNameWithoutExtension(path)) != ""
    ensures var d := Discovered(disk, sha256, [], path, false);
            !RefreshedRecord(disk, sha256, [d], [], d, false).isGameOnPc
  {
    var d := Discovered(disk, sha256, [], path, false);
    assert d.uniqueId == "";
    var r := RefreshedRecord(disk, sha256, [d], [], d, false);
    assert NeedsParse(disk, d, false);
    assert r.uniqueId == sha256(Text.FileNameWithoutExtension(path));
  }

  /** `items` holds, position by position, the records LoadGamesFromPath builds for `paths`. */
  predicate DiscoveredAll(disk: Disk, sha256: string -> string, cache: seq<XciItem>,
                          items: seq<XciItem>, paths: seq<string>, isSdCard: bool) {
    |items| == |paths|
    && forall i :: 0 <= i < |paths| ==> items[i] == Discovered(disk, sha256, cache, paths[i], isSdCard)
  }

  lemma DiscoveredAllAppend(disk: Disk, sha256: string -> string, cache: seq<XciItem>,
                            items1: seq<XciItem>, paths1: seq<string>,
                            items2: seq<XciItem>, paths2: seq<string>, isSdCard: bool)
    requires DiscoveredAll(disk, sha256, cache, items1, paths1, isSdCard)
    requires DiscoveredAll(disk, sha256, cache, items2, paths2, isSdCard)
    ensures DiscoveredAll(disk, sha256, cache, items1 + items2, paths1 + paths2, isSdCard)
  {
    var items, paths := items1 + items2, paths1 + paths2;
    forall i | 0 <= i < |paths| ensures items[i] == Discovered(disk, sha256, cache, paths[i], isSdCard) {
      if i < |paths1| {
        assert items[i] == items1[i] && paths[i] == paths1[i];
      } else {
        assert items[i] == items2[i - |paths1|] && paths[i] == paths2[i - |paths1|];
      }
    }
  }

  /** Each discovered record carries its own path and the scanned location. */
  lemma DiscoveredAllStamps(disk: Disk, sha256: string -> string, cache: seq<XciItem>,
                            items: seq<XciItem>, paths: seq<string>, isSdCard: bool)
    requires DiscoveredAll(disk, sha256, cache, items, paths, isSdCard)
    ensures forall i :: 0 <= i < |items| ==>
      items[i].xciFilePath == paths[i] && items[i].xciLocation == (if isSdCard then SD else PC)
  {
  }

  /** What one refresh loop of LoadXcis leaves behind: the list keeps its
      length and paths, and every record is at `loc`, kept, without pending
      operation and with its id among `ids`. */
  predicate RefreshedInPlace(before: seq<XciItem>, after: seq<XciItem>, loc: Location, ids: set<string>) {
    && |after| == |before|
    && forall j :: 0 <= j < |after| ==>
         && after[j].xciFilePath == before[j].xciFilePath && after[j].xciLocation == loc
         && after[j].keepInCache && after[j].fileAction == DefaultFileStruct
         && after[j].uniqueId in ids
  }

  /** RefreshedInPlace for the records before `i`; those from `i` on keep
      their path and location. */
  predicate RefreshedPrefix(before: seq<XciItem>, after: seq<XciItem>, loc: Location, i: nat, ids: set<string>) {
    && |after| == |before| && i <= |after|
    && (forall j :: 0 <= j < |after| ==>
         after[j].xciFilePath == before[j].xciFilePath && after[j].xciLocation == loc)
    && (forall j :: 0 <= j < i ==>
         after[j].keepInCache && after[j].fileAction == DefaultFileStruct && after[j].uniqueId in ids)
  }

  /** One refreshed record extends the refreshed prefix by one. */
  lemma RefreshedPrefixStep(before: seq<XciItem>, mid: seq<XciItem>, after: seq<XciItem>,
                            loc: Location, i: nat, ids: set<string>, laterIds: set<string>)
    requires RefreshedPrefix(before, mid, loc, i, ids) && i < |mid| && ids <= laterIds
    requires |after| == |mid| && forall j :: 0 <= j < |after| && j != i ==> after[j] == mid[j]
    requires after[i].xciFilePath == mid[i].xciFilePath && after[i].xciLocation == loc
    requires after[i].keepInCache && after[i].fileAction == DefaultFileStruct && after[i].uniqueId in laterIds
    ensures RefreshedPrefix(before, after, loc, i + 1, laterIds)
  {
  }

  /** A scanned list: one record per scanned path, in order, each stamped
      with the scanned location. */
  predicate Stamped(items: seq<XciItem>, paths: seq<string>, loc: Location) {
    && |items| == |paths|
    && forall i :: 0 <= i < |items| ==> items[i].xciFilePath == paths[i] && items[i].xciLocation == loc
  }

  /** A scanned list refreshed in place holds the scanned paths, in order. */
  lemma RefreshedScan(before: seq<XciItem>, after: seq<XciItem>, paths: seq<string>,
                      loc: Location, ids: set<string>, laterIds: set<string>)
    requires Stamped(before, paths, loc)
    requires RefreshedInPlace(before, after, loc, ids) && ids <= laterIds
    ensures |after| == |paths|
    ensures forall i :: 0 <= i < |after| ==>
      after[i].xciFilePath == paths[i] && after[i].keepInCache && after[i].fileAction == DefaultFileStruct
    ensures AllAt(after, loc)
    ensures forall i :: 0 <= i < |after| ==> after[i].uniqueId in laterIds
  {
  }

  /** The files the PC scan lists: each configured folder, walked
      recursively, in order. */
  function ScannedPaths(disk: Disk, folders: seq<string>): (r: seq<string>)
    ensures forall p :: p in r ==> p in disk.files && MatchesXciPattern(p)
  {
    if folders == [] then []
    else
      var last := folders[|folders| - 1];
      ListedFilesExist(disk, last, MatchesXciPattern, true);
      ScannedPaths(disk, folders[..|folders| - 1]) + ListFiles(disk, last, MatchesXciPattern, true).files
  }

  /** The files the SD scan lists: the drive's own entries, if the drive exists. */
  function SdPaths(disk: Disk, sdDriveLetter: string): (r: seq<string>)
    ensures sdDriveLetter !in disk.dirs ==> r == []
    ensures forall p :: p in r ==> p in disk.files && MatchesXciPattern(p)
  {
    if sdDriveLetter in disk.dirs then
      ListedFilesExist(disk, sdDriveLetter, MatchesXciPattern, false);
      ListFiles(disk, sdDriveLetter, MatchesXciPattern, false).files
    else []
  }

  /** Right after RefreshGame has upserted a record, UpdateXciCache finds its
      identity and adds nothing. */
  lemma UpdateAfterRefreshFindsRecord(cache: seq<XciItem>, r: XciItem)
    ensures FindXciByIdentifer(r.uniqueId, Upsert(cache, r)).Some?
  {
    var u := Upsert(cache, r);
    assert u[|u| - 1].uniqueId == r.uniqueId;
  }

  /** With one record per identity, the record found is the refreshed one itself. */
  lemma UpsertedRecordIsFound(cache: seq<XciItem>, r: XciItem)
    requires NoDuplicateIds(cache)
    ensures FindXciByIdentifer(r.uniqueId, Upsert(cache, r)) == Some(r)
  {
    var u := Upsert(cache, r);
    RemoveFirstLeavesNoMatch(cache, r.uniqueId);
    assert u[..|u| - 1] == RemoveFirst(cache, r.uniqueId);
    assert FirstIndex(u, r.uniqueId) == Some(|u| - 1);
  }

  /** From lists `pc0`/`sd0` to `pc1`/`sd1` no identity was lost, and lists
      whose records all sit at their own location stayed so. */
  predicate ListsGrown(pc0: seq<XciItem>, sd0: seq<XciItem>, pc1: seq<XciItem>, sd1: seq<XciItem>) {
    && Ids(pc0) <= Ids(pc1) && Ids(sd0) <= Ids(sd1)
    && (AllAt(pc0, PC) && AllAt(sd0, SD) ==> AllAt(pc1, PC) && AllAt(sd1, SD))
  }

  lemma ListsGrownTransitive(pc0: seq<XciItem>, sd0: seq<XciItem>, pc1: seq<XciItem>, sd1: seq<XciItem>,
                             pc2: seq<XciItem>, sd2: seq<XciItem>)
    requires ListsGrown(pc0, sd0, pc1, sd1) && ListsGrown(pc1, sd1, pc2, sd2)
    ensures ListsGrown(pc0, sd0, pc2, sd2)
  {
  }

  /** `xci.xciLocation = loc` on a record already at `loc` (the SD loop of
      LoadXcis sets SD on a record the SD scan stamped SD): the result is the
      record itself. It is a method of its own so that the update of this
      21-field record stays out of the caller's proof. */
  method SetLocation(xci: XciItem, loc: Location) returns (r: XciItem)
    requires xci.xciLocation == loc
    ensures r == xci
  {
    r := xci.(xciLocation := loc);
  }

  class Catalog {
    /** xciOnPc and xciOnSd */
    var pc: seq<XciItem>
    var sd: seq<XciItem>
    /** xciCache */
    var cache: seq<XciItem>
    /** xciToRefresh */
    var toRefresh: seq<XciItem>
    /** The records the cache file holds, or None when there is no cache file. */
    var cacheFile: Option<seq<XciItem>>
    var disk: Disk
    var isGameLoadingComplete: bool
    const sha256: string -> string
    /** Settings.config.localXciFolders and Settings.config.sdDriveLetter */
    const localXciFolders: seq<string>
    const sdDriveLetter: string

    /** The state before the first load: empty lists and the cache read from
        the cache file (LoadXciCache), or an empty cache when there is none. */
    constructor (disk: Disk, sha256: string -> string, localXciFolders: seq<string>,
                 sdDriveLetter: string, cacheFile: Option<seq<XciItem>>)
      ensures this.disk == disk && this.sha256 == sha256 && this.cacheFile == cacheFile
      ensures this.localXciFolders == localXciFolders && this.sdDriveLetter == sdDriveLetter
      ensures pc == [] && sd == [] && toRefresh == [] && !isGameLoadingComplete
      ensures cache == if cacheFile.Some? then cacheFile.value else []
    {
      this.disk := disk;
      this.sha256 := sha256;
      this.localXciFolders := localXciFolders;
      this.sdDriveLetter := sdDriveLetter;
      this.cacheFile := cacheFile;
      pc := [];
      sd := [];
      toRefresh := [];
      isGameLoadingComplete := false;
      cache := if cacheFile.Some? then cacheFile.value else [];
    }

    function Snap(): Snapshot
      reads this`pc, this`sd, this`cache, this`disk
    {
      Snapshot(pc, sd, cache, disk)
    }

    function ListAt(loc: Location): seq<XciItem>
      reads this`pc, this`sd
    {
      if loc == PC then pc else sd
    }

    /** GetAllItemsByIdentifer: every record on the PC with the id, then every
        record on the SD card with it. */
    function GetAllItemsByIdentifer(uniqueId: string): (r: seq<XciItem>)
      reads this`pc, this`sd
      ensures r == AllWithId(pc, uniqueId) + AllWithId(sd, uniqueId)
      ensures forall x :: x in r <==> (x in pc || x in sd) && x.uniqueId == uniqueId
      ensures r == [] <==> FindXciByIdentifer(uniqueId, pc).None? && FindXciByIdentifer(uniqueId, sd).None?
      ensures FindXciByIdentifer(uniqueId, pc).Some? ==> r[0] == FindXciByIdentifer(uniqueId, pc).value
      ensures FindXciByIdentifer(uniqueId, pc).None? && r != [] ==> r[0] == FindXciByIdentifer(uniqueId, sd).value
    {
      AllWithIdMembers(pc, uniqueId);
      AllWithIdMembers(sd, uniqueId);
      AllWithIdStartsWithFirstMatch(pc, uniqueId);
      AllWithIdStartsWithFirstMatch(sd, uniqueId);
      AllWithId(pc, uniqueId) + AllWithId(sd, uniqueId)
    }

    /** RefreshGame: re-parse when forced or when the record is not usable,
        recompute the presence flags against both lists, mark the record to
        keep, clear its operation, and make it the cache's newest record for
        its identity. */
    method RefreshGame(xci: XciItem, force: bool) returns (r: XciItem)
      modifies this`cache
      ensures r == RefreshedRecord(disk, sha256, pc, sd, xci, force)
      ensures cache == Upsert(old(cache), r)
    {
      r := xci;
      if force || !IsXciInfoValid(Some(r)) {
        if r.xciFilePath in disk.files {
          r := GetXciInfo(disk, sha256, r.xciFilePath, r.xciLocation).value;
        }
      }
      r := r.(isGameOnSd := FindXciByIdentifer(r.uniqueId, sd).Some?,
              isGameOnPc := FindXciByIdentifer(r.uniqueId, pc).Some?,
              keepInCache := true,
              // reset any file operation pending on this record
              fileAction := DefaultFileStruct);
      cache := RemoveFirst(cache, r.uniqueId) + [r];
    }

    /** UpdateXciCache: add the record only when the cache holds no record
        with its identity. */
    method UpdateXciCache(xci: XciItem) returns (inserted: bool)
      modifies this`cache
      ensures inserted <==> FindXciByIdentifer(xci.uniqueId, old(cache)).None?
      ensures cache == if inserted then old(cache) + [xci] else old(cache)
    {
      var found := FindXciByIdentifer(xci.uniqueId, cache);
      if !IsXciInfoValid(found) {
        if found.None? {
          cache := cache + [xci];
          return true;
        }
      }
      return false;
    }

    /** SaveXciCache: unless the cache is empty, drop every record past the
        first whose keepInCache is false, then write the cache file. */
    method SaveXciCache() returns (written: bool)
      modifies this`cache, this`cacheFile
      ensures written <==> old(cache) != []
      ensures cache == Pruned(old(cache))
      ensures cacheFile == if written then Some(cache) else old(cacheFile)
    {
      if cache == [] {
        return false;
      }
      ghost var c := cache;
      var items := cache;
      var i := |items| - 1;
      assert c[i + 1..] == [];
      while i > 0
        invariant 0 <= i < |c|
        invariant items == PartlyPruned(c, i + 1)
      {
        PruneStep(c, i, items);
        if !items[i].keepInCache {
          items := RemoveAt(items, i);
        }
        i := i - 1;
      }
      PruneDone(c);
      cache := items;
      cacheFile := Some(cache);
      return true;
    }

    /** LoadGamesFromPath: one record per listed file, in listing order. A
        non-recursive scan of a missing directory fails, as
        Directory.GetFiles does. */
    method LoadGamesFromPath(dirPath: string, recurse: bool, isSdCard: bool) returns (r: Option<seq<XciItem>>)
      ensures r.None? <==> ListFiles(disk, dirPath, MatchesXciPattern, recurse).DirectoryNotFound?
      ensures r.Some? ==>
        DiscoveredAll(disk, sha256, cache, r.value, ListFiles(disk, dirPath, MatchesXciPattern, recurse).files, isSdCard)
    {
      var listing := FindAllFiles(disk, dirPath, MatchesXciPattern, recurse);
      assert listing == ListFiles(disk, dirPath, MatchesXciPattern, recurse);
      if listing.DirectoryNotFound? {
        return None;
      }
      var items := DiscoverAll(listing.files, isSdCard);
      return Some(items);
    }

    /** The records of the listed files, in listing order. */
    method DiscoverAll(files: seq<string>, isSdCard: bool) returns (items: seq<XciItem>)
      ensures DiscoveredAll(disk, sha256, cache, items, files, isSdCard)
    {
      items := [];
      var i := 0;
      while i < |files|
        invariant 0 <= i <= |files|
        invariant DiscoveredAll(disk, sha256, cache, items, files[..i], isSdCard)
      {
        var item := files[i];
        var xciTemp := Discover(item, isSdCard);
        assert DiscoveredAll(disk, sha256, cache, [xciTemp], [item], isSdCard);
        DiscoveredAllAppend(disk, sha256, cache, items, files[..i], [xciTemp], [item], isSdCard);
        assert files[..i + 1] == files[..i] + [item];
        items := items + [xciTemp];
        i := i + 1;
      }
      assert files[..i] == files;
    }

    /** The record one listed file gets: the cached record with its identity,
        or a blank one, stamped with the path and the scanned location. */
    method Discover(item: string, isSdCard: bool) returns (xciTemp: XciItem)
      ensures xciTemp == Discovered(disk, sha256, cache, item, isSdCard)
    {
      var uniqueId := GetXciIdentifier(disk, sha256, item);
      var found := FindXciByIdentifer(uniqueId, cache);
      xciTemp := if found.Some? then found.value else BlankItem;
      // the path is first cleared and then set, so only the file's own path remains
      xciTemp := xciTemp.(xciFilePath := item, isGameOnSd := isSdCard, isGameOnPc := !isSdCard,
                          xciLocation := if isSdCard then SD else PC);
    }

    /** GetPcXcis: the records of every configured PC folder, folder by folder. */
    method GetPcXcis() returns (items: seq<XciItem>)
      ensures DiscoveredAll(disk, sha256, cache, items, ScannedPaths(disk, localXciFolders), false)
    {
      items := [];
      var n := 0;
      while n < |localXciFolders|
        invariant 0 <= n <= |localXciFolders|
        invariant DiscoveredAll(disk, sha256, cache, items, ScannedPaths(disk, localXciFolders[..n]), false)
      {
        assert localXciFolders[..n + 1][..n] == localXciFolders[..n];
        var found := LoadGamesFromPath(localXciFolders[n], true, false);
        DiscoveredAllAppend(disk, sha256, cache, items, ScannedPaths(disk, localXciFolders[..n]),
                            found.value, ListFiles(disk, localXciFolders[n], MatchesXciPattern, true).files, false);
        items := items + found.value;
        n := n + 1;
      }
      assert localXciFolders[..n] == localXciFolders;
    }

    /** GetSdXcis: the records of the SD card's root, or none when the drive
        does not exist. */
    method GetSdXcis() returns (items: seq<XciItem>)
      ensures DiscoveredAll(disk, sha256, cache, items, SdPaths(disk, sdDriveLetter), true)
    {
      items := [];
      if sdDriveLetter in disk.dirs {
        var found := LoadGamesFromPath(sdDriveLetter, false, true);
        items := found.value;
      }
    }

    /** LoadXcis: scan both locations, refresh every record in place (PC list
        first, then SD list) and add it to the cache if its identity is new.
        Each refresh has already upserted the record's identity, so the cache
        never reports an addition and the cache file is not written. */
    method LoadXcis()
      modifies this`pc, this`sd, this`cache, this`isGameLoadingComplete
      ensures cacheFile == old(cacheFile)
      ensures var paths := ScannedPaths(disk, localXciFolders);
        && |pc| == |paths|
        && forall i :: 0 <= i < |pc| ==>
             pc[i].xciFilePath == paths[i] && pc[i].keepInCache && pc[i].fileAction == DefaultFileStruct
      ensures var paths := SdPaths(disk, sdDriveLetter);
        && |sd| == |paths|
        && forall i :: 0 <= i < |sd| ==>
             sd[i].xciFilePath == paths[i] && sd[i].keepInCache && sd[i].fileAction == DefaultFileStruct
      ensures LocationsConsistent(Snap())
      ensures forall i :: 0 <= i < |pc| ==> pc[i].uniqueId in Ids(cache)
      ensures forall i :: 0 <= i < |sd| ==> sd[i].uniqueId in Ids(cache)
      ensures NoDuplicateIds(old(cache)) ==> NoDuplicateIds(cache)
      ensures isGameLoadingComplete
    {
      var updatedXciCache := false;
      ScanBoth();
      ghost var pcPaths := ScannedPaths(disk, localXciFolders);
      ghost var sdPaths := SdPaths(disk, sdDriveLetter);
      ghost var pc0, sd0 := pc, sd;

      var pcUpdated := RefreshEntries(PC);
      ghost var pc1, ids1 := pc, Ids(cache);
      var sdUpdated := RefreshEntries(SD);
      assert pc == pc1;
      RefreshedScan(pc0, pc, pcPaths, PC, ids1, Ids(cache));
      RefreshedScan(sd0, sd, sdPaths, SD, Ids(cache), Ids(cache));
      updatedXciCache := pcUpdated || sdUpdated;

      if updatedXciCache {
        // the source saves the cache here; every record offered to the cache
        // had just been upserted by RefreshGame, so this branch is dead
        assert false;
      }
      isGameLoadingComplete := true;
    }

    /** The two scans that start LoadXcis: the PC folders, then the SD card,
        both against the cache as it was before the load. */
    method ScanBoth()
      modifies this`pc, this`sd
      ensures DiscoveredAll(disk, sha256, cache, pc, ScannedPaths(disk, localXciFolders), false)
      ensures DiscoveredAll(disk, sha256, cache, sd, SdPaths(disk, sdDriveLetter), true)
      ensures Stamped(pc, ScannedPaths(disk, localXciFolders), PC) && AllAt(pc, PC)
      ensures Stamped(sd, SdPaths(disk, sdDriveLetter), SD) && AllAt(sd, SD)
    {
      pc := GetPcXcis();
      sd := GetSdXcis();
      DiscoveredAllStamps(disk, sha256, cache, pc, ScannedPaths(disk, localXciFolders), false);
      DiscoveredAllStamps(disk, sha256, cache, sd, SdPaths(disk, sdDriveLetter), true);
    }

    /** Either loop of LoadXcis: process every record of the list at `loc`, in order. */
    method RefreshEntries(loc: Location) returns (updated: bool)
      requires AllAt(ListAt(loc), loc)
      modifies this`pc, this`sd, this`cache
      ensures !updated
      ensures |ListAt(loc)| == |old(ListAt(loc))|
      ensures ListAt(Other(loc)) == old(ListAt(Other(loc)))
      ensures RefreshedInPlace(old(ListAt(loc)), ListAt(loc), loc, Ids(cache))
      ensures Ids(old(cache)) <= Ids(cache)
      ensures NoDuplicateIds(old(cache)) ==> NoDuplicateIds(cache)
    {
      updated := false;
      var i := 0;
      while i < |ListAt(loc)|
        invariant 0 <= i <= |ListAt(loc)|
        invariant ListAt(Other(loc)) == old(ListAt(Other(loc)))
        invariant !updated
        invariant RefreshedPrefix(old(ListAt(loc)), ListAt(loc), loc, i, Ids(cache))
        invariant Ids(old(cache)) <= Ids(cache)
        invariant NoDuplicateIds(old(cache)) ==> NoDuplicateIds(cache)
      {
        ghost var mid, ids := ListAt(loc), Ids(cache);
        var added := RefreshStep(loc, i);
        RefreshedPrefixStep(old(ListAt(loc)), mid, ListAt(loc), loc, i, ids, Ids(cache));
        if added {
          updated := true;
        }
        i := i + 1;
      }
    }

    /** What the loop of RefreshEntries needs from one ProcessEntry: the
        record at `i` keeps its path and location, is kept, has no pending
        operation and has its id in the cache. */
    method RefreshStep(loc: Location, i: nat) returns (added: bool)
      requires i < |ListAt(loc)| && ListAt(loc)[i].xciLocation == loc
      modifies this`pc, this`sd, this`cache
      ensures !added
      ensures |ListAt(loc)| == |old(ListAt(loc))|
      ensures ListAt(loc)[i] == RefreshedRecord(disk, sha256, old(pc), old(sd), old(ListAt(loc))[i], false)
      ensures cache == Upsert(old(cache), ListAt(loc)[i])
      ensures forall j :: 0 <= j < |ListAt(loc)| && j != i ==> ListAt(loc)[j] == old(ListAt(loc))[j]
      ensures var r := ListAt(loc)[i];
        && r.xciFilePath == old(ListAt(loc))[i].xciFilePath && r.xciLocation == loc
        && r.keepInCache && r.fileAction == DefaultFileStruct
        && Ids(cache) == Ids(old(cache)) + {r.uniqueId}
      ensures ListAt(Other(loc)) == old(ListAt(Other(loc)))
      ensures NoDuplicateIds(old(cache)) ==> NoDuplicateIds(cache)
    {
      ghost var cache0 := cache;
      var r;
      r, added := ProcessEntry(loc, i);
      UpsertIds(cache0, r);
      if NoDuplicateIds(cache0) {
        UpsertKeepsIdsUnique(cache0, r);
      }
    }

    /** One iteration of either LoadXcis loop: refresh the record at index `i`
        of the list at `loc` in place and offer it to the cache, which already
        holds it. */
    method ProcessEntry(loc: Location, i: nat) returns (r: XciItem, added: bool)
      requires i < |ListAt(loc)| && ListAt(loc)[i].xciLocation == loc
      modifies this`pc, this`sd, this`cache
      ensures !added
      ensures r == RefreshedRecord(disk, sha256, old(pc), old(sd), old(ListAt(loc))[i], false)
      ensures ListAt(loc) == old(ListAt(loc))[i := r] && cache == Upsert(old(cache), r)
      ensures ListAt(Other(loc)) == old(ListAt(Other(loc)))
    {
      r := RefreshAt(loc, i);
      UpdateAfterRefreshFindsRecord(old(cache), r);
      added := UpdateXciCache(r);
    }

    /** The refresh of the record at index `i` of the list at `loc`, written
        back in place (on the SD card also setting its location, which the
        scan already set). */
    method RefreshAt(loc: Location, i: nat) returns (r: XciItem)
      requires i < |ListAt(loc)| && ListAt(loc)[i].xciLocation == loc
      modifies this`pc, this`sd, this`cache
      ensures r == RefreshedRecord(disk, sha256, old(pc), old(sd), old(ListAt(loc))[i], false)
      ensures ListAt(loc) == old(ListAt(loc))[i := r] && cache == Upsert(old(cache), r)
      ensures ListAt(Other(loc)) == old(ListAt(Other(loc)))
    {
      r := RefreshGame(ListAt(loc)[i], false);
      if loc == PC {
        pc := pc[i := r];
      } else {
        // the record is also the cache's newest entry; its location is already SD
        var x := SetLocation(r, SD);
        sd := sd[i := x];
      }
    }

    /** RebuildCache: unless a file transfer is in progress, forget the cache,
        delete the cache file and load everything again. */
    method RebuildCache(isTransferInProgress: bool)
      modifies this`pc, this`sd, this`cache, this`cacheFile, this`isGameLoadingComplete
      ensures isTransferInProgress ==>
        pc == old(pc) && sd == old(sd) && cache == old(cache) && cacheFile == old(cacheFile)
        && isGameLoadingComplete == old(isGameLoadingComplete)
      ensures !isTransferInProgress ==>
        && cacheFile.None?
        && isGameLoadingComplete
        && (forall i :: 0 <= i < |pc| ==> pc[i].uniqueId in Ids(cache))
        && (forall i :: 0 <= i < |sd| ==> sd[i].uniqueId in Ids(cache))
        && NoDuplicateIds(cache)
    {
      if isTransferInProgress {
        return;
      }
      cache := [];
      cacheFile := None;
      LoadXcis();
    }

    /** The list step of a finished background refresh: the refreshed record
        replaces the first record with its identity in its location's list,
        going to the end of that list. */
    method ReplaceRefreshed(xciRefresh: XciItem)
      modifies this`pc, this`sd
      ensures xciRefresh.xciLocation == PC ==> pc == Upsert(old(pc), xciRefresh) && sd == old(sd)
      ensures xciRefresh.xciLocation == SD ==> sd == Upsert(old(sd), xciRefresh) && pc == old(pc)
    {
      if xciRefresh.xciLocation == PC {
        pc := RemoveFirst(pc, xciRefresh.uniqueId);
        pc := pc + [xciRefresh];
      } else {
        sd := RemoveFirst(sd, xciRefresh.uniqueId);
        sd := sd + [xciRefresh];
      }
    }

    /** One run of the background worker: force-refresh the queue's first
        record, put it into its location's list and take it off the queue. */
    method RefreshNext() returns (xciRefresh: XciItem)
      requires toRefresh != []
      modifies this`pc, this`sd, this`cache, this`toRefresh
      ensures xciRefresh == RefreshedRecord(disk, sha256, old(pc), old(sd), old(toRefresh[0]), true)
      ensures xciRefresh.xciFilePath == old(toRefresh[0]).xciFilePath
      ensures xciRefresh.xciLocation == old(toRefresh[0]).xciLocation && xciRefresh.keepInCache
      ensures cache == Upsert(old(cache), xciRefresh)
      ensures toRefresh == old(toRefresh[1..])
      ensures ListAt(xciRefresh.xciLocation) == Upsert(old(ListAt(xciRefresh.xciLocation)), xciRefresh)
      ensures ListAt(Other(xciRefresh.xciLocation)) == old(ListAt(Other(xciRefresh.xciLocation)))
      ensures ListsGrown(old(pc), old(sd), pc, sd)
    {
      ghost var pc0, sd0 := pc, sd;
      // the worker's DoWork
      var refreshed := RefreshGame(toRefresh[0], true);
      toRefresh := toRefresh[0 := refreshed];
      // its RunWorkerCompleted
      xciRefresh := toRefresh[0];
      ReplaceRefreshed(xciRefresh);
      // List.Remove drops the first occurrence of the record, which is at index 0
      toRefresh := toRefresh[1..];
      ReplaceKeepsIdsAndLocations(pc0, sd0, pc, sd, xciRefresh);
    }

    /** A finished refresh, as a change of the two lists: no identity is lost
        and no record lands in the other location's list. */
    static lemma ReplaceKeepsIdsAndLocations(pc0: seq<XciItem>, sd0: seq<XciItem>,
                                             pc1: seq<XciItem>, sd1: seq<XciItem>, r: XciItem)
      requires r.xciLocation == PC ==> pc1 == Upsert(pc0, r) && sd1 == sd0
      requires r.xciLocation == SD ==> sd1 == Upsert(sd0, r) && pc1 == pc0
      ensures ListsGrown(pc0, sd0, pc1, sd1)
    {
      if r.xciLocation == PC {
        UpsertIds(pc0, r);
        if AllAt(pc0, PC) { UpsertKeepsAllAt(pc0, r, PC); }
      } else {
        UpsertIds(sd0, r);
        if AllAt(sd0, SD) { UpsertKeepsAllAt(sd0, r, SD); }
      }
    }

    /** RefreshXciInBackground: queue the record, let the worker drain the
        queue, then save the cache and report loading complete. The record
        asked for is refreshed last, so it ends its location's list and is in
        the saved cache. */
    method RefreshXciInBackground(xci: XciItem)
      modifies this`pc, this`sd, this`cache, this`toRefresh, this`cacheFile, this`isGameLoadingComplete
      ensures toRefresh == [] && isGameLoadingComplete
      ensures cacheFile == Some(cache)
      ensures ListsGrown(old(pc), old(sd), pc, sd)
      ensures NoDuplicateIds(old(cache)) ==> NoDuplicateIds(cache)
      ensures var l := ListAt(xci.xciLocation);
        && l != []
        && l[|l| - 1].xciFilePath == xci.xciFilePath
        && l[|l| - 1].keepInCache
        && l[|l| - 1] in cache
    {
      isGameLoadingComplete := false;
      toRefresh := toRefresh + [xci];
      DrainQueue(xci);
      PrunedKeepsNewest(cache);
      if NoDuplicateIds(cache) {
        PrunedKeepsIdsUnique(cache);
      }
      var _ := SaveXciCache();
      isGameLoadingComplete := true;
    }

    /** The background worker, run until the queue is empty: each run
        refreshes the queue's first record. */
    method DrainQueue(ghost xci: XciItem)
      requires toRefresh != [] && toRefresh[|toRefresh| - 1] == xci
      modifies this`pc, this`sd, this`cache, this`toRefresh
      ensures toRefresh == [] && Settled(xci)
      ensures ListsGrown(old(pc), old(sd), pc, sd)
      ensures NoDuplicateIds(old(cache)) ==> NoDuplicateIds(cache)
    {
      while toRefresh != []
        invariant toRefresh != [] ==> toRefresh[|toRefresh| - 1] == xci
        invariant toRefresh == [] ==> Settled(xci)
        invariant ListsGrown(old(pc), old(sd), pc, sd)
        invariant NoDuplicateIds(old(cache)) ==> NoDuplicateIds(cache)
        decreases |toRefresh|
      {
        ghost var pc1, sd1 := pc, sd;
        DrainStep(xci);
        ListsGrownTransitive(old(pc), old(sd), pc1, sd1, pc, sd);
      }
    }

    /** What the loop of DrainQueue needs from one RefreshNext: the queue
        loses its head, the record asked for last is settled once the queue
        is empty, no id leaves the lists, and the cache keeps one record per id. */
    method DrainStep(ghost xci: XciItem)
      requires toRefresh != [] && toRefresh[|toRefresh| - 1] == xci
      modifies this`pc, this`sd, this`cache, this`toRefresh
      ensures var r := RefreshedRecord(disk, sha256, old(pc), old(sd), old(toRefresh)[0], true);
        && cache == Upsert(old(cache), r)
        && ListAt(r.xciLocation) == Upsert(old(ListAt(r.xciLocation)), r)
        && ListAt(Other(r.xciLocation)) == old(ListAt(Other(r.xciLocation)))
      ensures toRefresh == old(toRefresh)[1..]
      ensures toRefresh == [] ==> Settled(xci)
      ensures ListsGrown(old(pc), old(sd), pc, sd)
      ensures NoDuplicateIds(old(cache)) ==> NoDuplicateIds(cache)
    {
      ghost var last := |toRefresh| == 1;
      ghost var cache1 := cache;
      var refreshed := RefreshNext();
      if NoDuplicateIds(cache1) {
        UpsertKeepsIdsUnique(cache1, refreshed);
      }
      if last {
        assert Settled(xci);
      }
    }

    /** The record for `xci` has been refreshed last: it ends its location's
        list, is the cache's newest record, and is kept. */
    predicate Settled(xci: XciItem)
      reads this`pc, this`sd, this`cache
    {
      var l := ListAt(xci.xciLocation);
      && l != [] && cache != []
      && l[|l| - 1] == cache[|cache| - 1]
      && l[|l| - 1].xciFilePath == xci.xciFilePath
      && l[|l| - 1].keepInCache
    }

    /** UpdateXci: apply a completed file operation to the lists, the cache
        and the disk, as ApplyCompletedAction describes. The source and
        sibling references are looked up before the operation is dispatched. */
    method UpdateXci(xci: XciItem) returns (outcome: Outcome)
      modifies this`pc, this`sd, this`cache, this`disk
      ensures Snap() == ApplyCompletedAction(old(Snap()), sha256, xci).after
      ensures outcome == ApplyCompletedAction(old(Snap()), sha256, xci).outcome
    {
      var fa := xci.fileAction;
      if fa.action == NoAction {
        return Done;
      }
      match fa.action {
        case NoAction =>
          return Done;
        case Copy =>
          outcome := CompleteCopy(xci);
        case Move =>
          outcome := CompleteMove(xci);
        case Delete =>
          outcome := CompleteDelete(xci);
        case CompletelyDelete =>
          outcome := CompleteCompletelyDelete(xci);
        case Trim =>
          outcome := CompleteTrim(xci);
      }
    }

    /** The Copy branch of UpdateXci. */
    method CompleteCopy(xci: XciItem) returns (outcome: Outcome)
      requires xci.fileAction.action == Copy
      modifies this`pc, this`sd, this`cache
      ensures Snap() == ApplyCopy(old(Snap()), sha256, xci).after
      ensures outcome == ApplyCopy(old(Snap()), sha256, xci).outcome
    {
      var st := Snap();
      var fa := xci.fileAction;
      var src := fa.source;
      var sourceIdx := FirstIndex(ListAt(src), xci.uniqueId);
      var dest := xci.(xciFilePath := fa.destinationPath, xciLocation := fa.destination);
      dest := RefreshGame(dest, true);
      if sourceIdx.None? {
        return Failed(NullReference);
      }
      var k := sourceIdx.value;
      // the source record ends up present in both places with its operation cleared
      var marked := st.ListAt(src)[k].(isGameOnPc := true, isGameOnSd := true, fileAction := DefaultFileStruct);
      ghost var refreshed := dest;
      dest := dest.(isGameOnPc := true, isGameOnSd := true);
      // the refreshed record is also the cache's newest entry
      UpsertReplaceNewest(st.cache, refreshed, dest);
      cache := cache[|cache| - 1 := dest];
      var next := st.WithList(src, st.ListAt(src)[k := marked]);
      next := next.WithList(fa.destination, next.ListAt(fa.destination) + [dest]);
      pc, sd := next.pc, next.sd;
      return Done;
    }

    /** The Move branch of UpdateXci. */
    method CompleteMove(xci: XciItem) returns (outcome: Outcome)
      requires xci.fileAction.action == Move
      modifies this`pc, this`sd, this`cache, this`disk
      ensures Snap() == ApplyMove(old(Snap()), sha256, xci).after
      ensures outcome == ApplyMove(old(Snap()), sha256, xci).outcome
    {
      ghost var st := Snap();
      var fa := xci.fileAction;
      var src := fa.source;
      var sourceIdx := FirstIndex(ListAt(src), xci.uniqueId);
      if fa.destinationPath !in disk.files {
        return Done;
      }
      var dest := MoveFile(xci);
      var next := Snap().WithList(fa.destination, ListAt(fa.destination) + [dest]);
      ghost var moved := next;
      assert src == Other(fa.destination) ==> SourceIndex(next, xci) == sourceIdx;
      // `Remove` on the other list finds the source record only when it came from there
      if sourceIdx.Some? && src == Other(fa.destination) {
        next := next.WithList(src, RemoveAt(next.ListAt(src), sourceIdx.value));
      }
      assert next == RemoveSource(moved, xci, Other(fa.destination));
      pc, sd := next.pc, next.sd;
      return Done;
    }

    /** The file work of a move: a leftover source file is deleted and the
        refreshed clone, present only at the destination, becomes the cache's
        newest entry. */
    method MoveFile(xci: XciItem) returns (dest: XciItem)
      modifies this`cache, this`disk
      ensures disk == old(disk).(files := old(disk).files - {xci.fileAction.sourcePath})
      ensures dest == MoveDestination(old(Snap()), sha256, xci)
      ensures cache == Upsert(old(cache), dest)
    {
      DeleteFile(xci.fileAction.sourcePath);
      dest := RefreshMoved(xci);
    }

    /** `if (File.Exists(path)) File.Delete(path);` */
    method DeleteFile(path: string)
      modifies this`disk
      ensures disk == old(disk).(files := old(disk).files - {path})
    {
      if path in disk.files {
        disk := disk.(files := disk.files - {path});
      }
      assert disk.files == old(disk).files - {path};
    }

    /** The clone of a moved record, refreshed at its destination and marked
        present only there; it is also the cache's newest entry. */
    method RefreshMoved(xci: XciItem) returns (dest: XciItem)
      modifies this`cache
      ensures var fa := xci.fileAction;
        var clone := xci.(fileAction := DefaultFileStruct, xciFilePath := fa.destinationPath,
                          xciLocation := fa.destination);
        dest == RefreshedRecord(disk, sha256, pc, sd, clone, true)
                  .(isGameOnPc := fa.destination == PC, isGameOnSd := fa.destination == SD)
      ensures cache == Upsert(old(cache), dest)
    {
      var fa := xci.fileAction;
      var clone := xci.(fileAction := DefaultFileStruct, xciFilePath := fa.destinationPath,
                        xciLocation := fa.destination);
      dest := RefreshGame(clone, true);
      ghost var refreshed := dest;
      dest := dest.(isGameOnPc := fa.destination == PC, isGameOnSd := fa.destination == SD);
      UpsertReplaceNewest(old(cache), refreshed, dest);
      // the refreshed record is also the cache's newest entry
      cache := cache[|cache| - 1 := dest];
    }

    /** The Delete branch of UpdateXci. */
    method CompleteDelete(xci: XciItem) returns (outcome: Outcome)
      requires xci.fileAction.action == Delete
      modifies this`pc, this`sd
      ensures Snap() == ApplyDelete(old(Snap()), xci).after
      ensures outcome == ApplyDelete(old(Snap()), xci).outcome
    {
      var src := xci.fileAction.source;
      var sourceIdx := FirstIndex(ListAt(src), xci.uniqueId);
      var siblingIdx := FirstIndex(ListAt(Other(src)), xci.uniqueId);
      if xci.xciFilePath in disk.files {
        return Done;
      }
      var loc := xci.xciLocation;
      if sourceIdx.Some? && src == loc {
        RemoveFrom(loc, sourceIdx.value);
      }
      if siblingIdx.None? {
        // the SD branch writes through the missing sibling
        return if loc == PC then Done else Failed(NullReference);
      }
      var j := siblingIdx.value;
      SetAt(Other(src), j, ClearPresence(ListAt(Other(src))[j], loc));
      return Done;
    }

    /** The CompletelyDelete branch of UpdateXci. */
    method CompleteCompletelyDelete(xci: XciItem) returns (outcome: Outcome)
      requires xci.fileAction.action == CompletelyDelete
      modifies this`pc, this`sd
      ensures Snap() == ApplyCompletelyDelete(old(Snap()), xci).after
      ensures outcome == ApplyCompletelyDelete(old(Snap()), xci).outcome
    {
      var src := xci.fileAction.source;
      var sourceIdx := FirstIndex(ListAt(src), xci.uniqueId);
      if xci.xciFilePath in disk.files {
        return Done;
      }
      if sourceIdx.Some? && src == xci.xciLocation {
        RemoveFrom(src, sourceIdx.value);
      }
      return Done;
    }

    /** The Trim branch of UpdateXci. */
    method CompleteTrim(xci: XciItem) returns (outcome: Outcome)
      requires xci.fileAction.action == Trim
      modifies this`pc, this`sd
      ensures Snap() == ApplyTrim(old(Snap()), xci).after
      ensures outcome == ApplyTrim(old(Snap()), xci).outcome
    {
      var src := xci.fileAction.source;
      var sourceIdx := FirstIndex(ListAt(src), xci.uniqueId);
      // reading the file's length throws before the source is dereferenced
      if xci.xciFilePath !in disk.files {
        return Failed(FileNotFound);
      }
      if sourceIdx.None? {
        return Failed(NullReference);
      }
      var k := sourceIdx.value;
      var t := ListAt(src)[k].(gameSize := disk.files[xci.xciFilePath].length);
      t := t.(isXciTrimmed := t.gameSize == xci.gameUsedSize);
      t := t.(fileAction := DefaultFileStruct);
      SetAt(src, k, t);
      return Done;
    }

    /** Overwrite the record at index `k` of the list at `loc`. */
    method SetAt(loc: Location, k: nat, x: XciItem)
      requires k < |ListAt(loc)|
      modifies this`pc, this`sd
      ensures ListAt(loc) == old(ListAt(loc))[k := x]
      ensures ListAt(Other(loc)) == old(ListAt(Other(loc)))
    {
      if loc == PC { pc := pc[k := x]; } else { sd := sd[k := x]; }
    }

    /** `List.Remove` of the record found at index `k` of the list at `loc`. */
    method RemoveFrom(loc: Location, k: nat)
      requires k < |ListAt(loc)|
      modifies this`pc, this`sd
      ensures ListAt(loc) == RemoveAt(old(ListAt(loc)), k)
      ensures ListAt(Other(loc)) == old(ListAt(Other(loc)))
    {
      if loc == PC { pc := RemoveAt(pc, k); } else { sd := RemoveAt(sd, k); }
    }
  }
}
