/** FindAllFiles: the directory walk behind both scans. With `recurse` a
    missing start directory yields nothing; otherwise each subdirectory is
    walked in order and the directory's own matching files come last. Without
    `recurse` only the directory's own files are listed, and a missing
    directory is an error (Directory.GetFiles throws). */
module Scanner {
  import opened Text
  import opened Environment

  datatype Listing = Listed(files: seq<string>) | DirectoryNotFound

  /** The "*.xci" pattern: the file name ends in ".xci", ignoring ASCII case. */
  predicate MatchesXciPattern(path: string) {
    var name := FileName(path);
    |name| >= 4 && name[|name| - 4] == '.'
    && name[|name| - 3] in "xX" && name[|name| - 2] in "cC" && name[|name| - 1] in "iI"
  }

  /** The existing entries of a list that match the filter, in order. */
  function Matching(disk: Disk, entries: seq<string>, filter: string -> bool): (r: seq<string>)
    ensures forall p :: p in r <==> p in entries && p in disk.files && filter(p)
  {
    if entries == [] then []
    else (if entries[0] in disk.files && filter(entries[0]) then [entries[0]] else [])
         + Matching(disk, entries[1..], filter)
  }

  /** `Directory.GetFiles(dir, pattern)` on an existing directory. */
  function OwnFiles(disk: Disk, d: Dir, filter: string -> bool): seq<string> {
    Matching(disk, d.entries, filter)
  }

  /** The recursive listing of an existing directory. */
  function Walk(disk: Disk, d: Dir, filter: string -> bool): seq<string>
    decreases d, 1
  {
    WalkSubdirs(disk, d, |d.subdirs|, filter) + OwnFiles(disk, d, filter)
  }

  /** The listings of the first `n` subdirectories of `d`, concatenated in order. */
  function WalkSubdirs(disk: Disk, d: Dir, n: nat, filter: string -> bool): seq<string>
    requires n <= |d.subdirs|
    decreases d, 0, n
  {
    if n == 0 then []
    else WalkSubdirs(disk, d, n - 1, filter) + Walk(disk, d.subdirs[n - 1], filter)
  }

  /** What FindAllFiles returns. */
  function ListFiles(disk: Disk, startDir: string, filter: string -> bool, recurse: bool): Listing {
    if startDir !in disk.dirs then (if recurse then Listed([]) else DirectoryNotFound)
    else if recurse then Listed(Walk(disk, disk.dirs[startDir], filter))
    else Listed(OwnFiles(disk, disk.dirs[startDir], filter))
  }

  method FindAllFiles(disk: Disk, startDir: string, filter: string -> bool, recurse: bool) returns (r: Listing)
    ensures recurse && startDir !in disk.dirs ==> r == Listed([])
    ensures !recurse && startDir !in disk.dirs ==> r == DirectoryNotFound
    ensures startDir in disk.dirs ==>
      r == Listed(if recurse then Walk(disk, disk.dirs[startDir], filter)
                  else OwnFiles(disk, disk.dirs[startDir], filter))
  {
    if startDir !in disk.dirs {
      return if recurse then Listed([]) else DirectoryNotFound;
    }
    var files := FindFilesIn(disk, disk.dirs[startDir], filter, recurse);
    return Listed(files);
  }

  /** The body of FindAllFiles once the start directory is known to exist;
      the recursive calls are on its subdirectories, which exist too. */
  method FindFilesIn(disk: Disk, d: Dir, filter: string -> bool, recurse: bool) returns (files: seq<string>)
    ensures files == if recurse then Walk(disk, d, filter) else OwnFiles(disk, d, filter)
    decreases d
  {
    files := [];
    if recurse {
      var i := 0;
      while i < |d.subdirs|
        invariant 0 <= i <= |d.subdirs|
        invariant files == WalkSubdirs(disk, d, i, filter)
      {
        var sub := FindFilesIn(disk, d.subdirs[i], filter, recurse);
        files := files + sub;
        i := i + 1;
      }
    }
    files := files + OwnFiles(disk, d, filter);
  }

  /** An existing, listed file somewhere in the tree below `d`. */
  ghost predicate InTree(disk: Disk, d: Dir, p: string)
    decreases d
  {
    || (p in d.entries && p in disk.files)
    || exists i :: 0 <= i < |d.subdirs| && InTree(disk, d.subdirs[i], p)
  }

  /** The recursive listing holds exactly the matching files of the tree. */
  lemma {:induction false} WalkListsExactlyTheTree(disk: Disk, d: Dir, filter: string -> bool, p: string)
    ensures p in Walk(disk, d, filter) <==> filter(p) && InTree(disk, d, p)
    decreases d, 1
  {
    WalkSubdirsListsSubtrees(disk, d, |d.subdirs|, filter, p);
  }

  lemma {:induction false} WalkSubdirsListsSubtrees(disk: Disk, d: Dir, n: nat, filter: string -> bool, p: string)
    requires n <= |d.subdirs|
    ensures p in WalkSubdirs(disk, d, n, filter)
        <==> filter(p) && exists i :: 0 <= i < n && InTree(disk, d.subdirs[i], p)
    decreases d, 0, n
  {
    if n > 0 {
      WalkSubdirsListsSubtrees(disk, d, n - 1, filter, p);
      WalkListsExactlyTheTree(disk, d.subdirs[n - 1], filter, p);
    }
  }

  /** A file found anywhere in the tree exists. */
  lemma {:induction false} InTreeExists(disk: Disk, d: Dir, p: string)
    requires InTree(disk, d, p)
    ensures p in disk.files
    decreases d
  {
    if !(p in d.entries && p in disk.files) {
      var i :| 0 <= i < |d.subdirs| && InTree(disk, d.subdirs[i], p);
      InTreeExists(disk, d.subdirs[i], p);
    }
  }

  /** Every path a listing reports exists and matches the filter. */
  lemma ListedFilesExist(disk: Disk, startDir: string, filter: string -> bool, recurse: bool)
    requires ListFiles(disk, startDir, filter, recurse).Listed?
    ensures forall p :: p in ListFiles(disk, startDir, filter, recurse).files ==> p in disk.files && filter(p)
  {
    if startDir in disk.dirs && recurse {
      var d := disk.dirs[startDir];
      forall p | p in Walk(disk, d, filter) ensures p in disk.files && filter(p) {
        WalkListsExactlyTheTree(disk, d, filter, p);
        InTreeExists(disk, d, p);
      }
    }
  }
}
