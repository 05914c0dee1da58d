/** What XciHelper derives about one file: its identity (GetXciIdentifier),
    its certificate bytes (ReadXciCert), the record a parse produces
    (GetXciInfo), whether a record is usable without a parse (IsXciInfoValid),
    and the record RefreshGame settles on. SHA-256 is a parameter: the model
    never looks inside the digest. */
module Metadata {
  import opened Text
  import opened Records
  import opened Environment
  import opened Lookup

  /** IsXciInfoValid: a non-null record whose game name and title id each
      hold at least one character that is not white space. */
  predicate IsXciInfoValid(xci: Option<XciItem>)
    ensures IsXciInfoValid(xci) <==>
      && xci.Some?
      && (exists i :: 0 <= i < |xci.value.gameName| && !IsWhiteSpace(xci.value.gameName[i]))
      && (exists i :: 0 <= i < |xci.value.titleId| && !IsWhiteSpace(xci.value.titleId[i]))
  {
    && xci.Some?
    && !IsNullOrWhiteSpace(xci.value.gameName)
    && !IsNullOrWhiteSpace(xci.value.titleId)
  }

  /** GetXciIdentifier: the digest of the base name without extension, or
      "UNKNOWN" for a file that does not exist. */
  function GetXciIdentifier(disk: Disk, sha256: string -> string, fileName: string): (r: string)
    ensures fileName !in disk.files ==> r == "UNKNOWN"
    ensures fileName in disk.files ==> r == sha256(WithoutExtension(FileName(fileName)))
  {
    if fileName !in disk.files then "UNKNOWN"
    else sha256(FileNameWithoutExtension(fileName))
  }

  /** Two existing files with the same name in any two directories get the
      same identity. */
  lemma IdentityIgnoresDirectory(disk: Disk, sha256: string -> string,
                                 dir1: string, dir2: string, sep1: char, sep2: char, name: string)
    requires IsSeparator(sep1) && IsSeparator(sep2)
    requires forall i :: 0 <= i < |name| ==> !IsSeparator(name[i])
    requires dir1 + [sep1] + name in disk.files && dir2 + [sep2] + name in disk.files
    ensures GetXciIdentifier(disk, sha256, dir1 + [sep1] + name)
         == GetXciIdentifier(disk, sha256, dir2 + [sep2] + name)
         == sha256(WithoutExtension(name))
  {
    FileNameOfJoin(dir1, sep1, name);
    FileNameOfJoin(dir2, sep2, name);
  }

  const CertLength := 512

  /** ReadXciCert: 512 bytes read at offset 28672; bytes past the end of the
      file, and all bytes of a missing file, stay zero. */
  function ReadXciCert(disk: Disk, filePath: string): (r: seq<byte>)
    ensures |r| == CertLength
  {
    var area := if filePath in disk.files then disk.files[filePath].certArea else [];
    var n := if |area| < CertLength then |area| else CertLength;
    area[..n] + seq(CertLength - n, _ => 0)
  }

  /** The bytes read: those of the certificate area, zero-filled past its end. */
  lemma ReadXciCertBytes(disk: Disk, filePath: string)
    ensures var r := ReadXciCert(disk, filePath);
      && (filePath !in disk.files ==> forall i :: 0 <= i < |r| ==> r[i] == 0)
      && (filePath in disk.files ==>
            var area := disk.files[filePath].certArea;
            forall i :: 0 <= i < |r| ==> r[i] == if i < |area| then area[i] else 0)
  {
  }

  /** `cert.All(s => s.Equals(b))` */
  predicate AllEqualTo(cert: seq<byte>, b: byte) {
    cert == [] || (cert[0] == b && AllEqualTo(cert[1..], b))
  }

  lemma {:induction false} AllEqualToMeans(cert: seq<byte>, b: byte)
    ensures AllEqualTo(cert, b) <==> forall i :: 0 <= i < |cert| ==> cert[i] == b
  {
    if cert != [] {
      AllEqualToMeans(cert[1..], b);
      assert forall i :: 1 <= i < |cert| ==> cert[i] == cert[1..][i - 1];
    }
  }

  /** `!cert.All(s => s.Equals(cert[0]))`; on an empty buffer All holds and
      cert[0] is never read. */
  function IsUniqueCert(cert: seq<byte>): bool {
    !AllEqualTo(cert, if cert == [] then 0 else cert[0])
  }

  /** A certificate is unique when some byte differs from the first. */
  lemma IsUniqueCertMeans(cert: seq<byte>)
    ensures IsUniqueCert(cert) <==> exists i :: 0 <= i < |cert| && cert[i] != cert[0]
  {
    AllEqualToMeans(cert, if cert == [] then 0 else cert[0]);
  }

  /** A certificate counts as unique exactly when it is not one byte repeated:
      some two of its bytes differ. */
  lemma UniqueCertIffTwoBytesDiffer(cert: seq<byte>)
    ensures IsUniqueCert(cert) <==> exists i, j :: 0 <= i < j < |cert| && cert[i] != cert[j]
  {
    IsUniqueCertMeans(cert);
    if exists i, j :: 0 <= i < j < |cert| && cert[i] != cert[j] {
      var i, j :| 0 <= i < j < |cert| && cert[i] != cert[j];
      if cert[i] == cert[0] { assert cert[j] != cert[0]; }
    }
  }

  /** `if (titleId.Length != 16) titleId = 0 + titleId;` */
  function PadTitleId(titleId: string): (r: string)
    ensures |titleId| == 16 ==> r == titleId
    ensures |titleId| != 16 ==> r == ['0'] + titleId
    ensures |r| == 16 <==> |titleId| == 16 || |titleId| == 15
  {
    if |titleId| != 16 then ['0'] + titleId else titleId
  }

  /** The record GetXciInfo builds for an existing file. */
  function ParsedRecord(disk: Disk, sha256: string -> string, filePath: string, location: Location): XciItem
    requires filePath in disk.files
  {
    var f := disk.files[filePath];
    var h := f.header;
    var cert := ReadXciCert(disk, filePath);
    NewItem(filePath).(
      uniqueId := GetXciIdentifier(disk, sha256, filePath),
      gameName := CleanField(h.name),
      gameDeveloper := CleanField(h.developer),
      gameCardCapacity := CleanField(h.capacity),
      gameRevision := CleanField(h.revision),
      masterKeyRevision := CleanField(h.masterKeyRevision),
      sdkVersion := CleanField(h.sdkVersion),
      titleId := PadTitleId(CleanField(h.titleId)),
      gameSize := h.exactSize,
      gameUsedSize := h.usedSize,
      productCode := CleanField(h.productCode),
      gameCert := cert,
      xciFileSize := f.length,
      xciLocation := location,
      isGameOnPc := location == PC,
      isGameOnSd := location == SD,
      isXciTrimmed := h.exactSize == h.usedSize,
      isUniqueCert := IsUniqueCert(cert))
  }

  /** GetXciInfo: null for a missing file; otherwise a fresh record for that
      path and location, identified by its file name, present only where it
      was found, not yet marked to keep and with no operation pending. */
  function GetXciInfo(disk: Disk, sha256: string -> string, filePath: string, location: Location): (r: Option<XciItem>)
    ensures r.Some? <==> filePath in disk.files
    ensures r.Some? ==>
      && r.value.xciFilePath == filePath
      && r.value.xciLocation == location
      && r.value.uniqueId == sha256(FileNameWithoutExtension(filePath))
      && (r.value.isGameOnPc <==> location == PC)
      && (r.value.isGameOnSd <==> location == SD)
      && !r.value.keepInCache
      && r.value.fileAction == DefaultFileStruct
  {
    if filePath !in disk.files then None
    else Some(ParsedRecord(disk, sha256, filePath, location))
  }

  /** The derived fields of a parsed record agree with its own data: trimmed
      exactly when the exact and used sizes agree, a 512-byte certificate
      that is unique exactly when not one byte repeated, and a title id that
      is never blank. */
  lemma GetXciInfoDerivedFields(disk: Disk, sha256: string -> string, filePath: string, location: Location)
    requires filePath in disk.files
    ensures var x := GetXciInfo(disk, sha256, filePath, location).value;
      && (x.isXciTrimmed <==> x.gameSize == x.gameUsedSize)
      && |x.gameCert| == CertLength
      && (x.isUniqueCert <==> exists i :: 0 <= i < |x.gameCert| && x.gameCert[i] != x.gameCert[0])
      && !IsNullOrWhiteSpace(x.titleId)
  {
    IsUniqueCertMeans(ReadXciCert(disk, filePath));
    TitleIdNeverBlank(disk.files[filePath].header.titleId);
  }

  /** After clean-up and padding the title id is never blank: a cleaned field
      starts with a non-space character, and a padded one starts with '0'. */
  lemma TitleIdNeverBlank(raw: string)
    ensures !IsNullOrWhiteSpace(PadTitleId(CleanField(raw)))
  {
    var t := CleanField(raw);
    CleanFieldBlankIffEmpty(raw);
    if |t| == 16 {
      assert t != [];
    } else {
      assert PadTitleId(t)[0] == '0';
    }
  }

  /** Consequently a freshly parsed record is valid exactly when its cleaned
      game name is non-empty; the title id never decides. */
  lemma ParsedValidityDependsOnNameOnly(disk: Disk, sha256: string -> string, filePath: string, location: Location)
    requires filePath in disk.files
    ensures IsXciInfoValid(GetXciInfo(disk, sha256, filePath, location))
        <==> CleanField(disk.files[filePath].header.name) != []
  {
    GetXciInfoDerivedFields(disk, sha256, filePath, location);
    CleanFieldBlankIffEmpty(disk.files[filePath].header.name);
  }

  /** Whether RefreshGame re-parses: when forced or when the record is not
      valid, and only if its file exists. */
  predicate NeedsParse(disk: Disk, xci: XciItem, force: bool) {
    (force || !IsXciInfoValid(Some(xci))) && xci.xciFilePath in disk.files
  }

  /** The record RefreshGame returns (and upserts into the cache), given the
      location lists it consults for the presence flags. */
  function RefreshedRecord(disk: Disk, sha256: string -> string, pc: seq<XciItem>, sd: seq<XciItem>,
                           xci: XciItem, force: bool): (r: XciItem)
    ensures NeedsParse(disk, xci, force) ==>
      SameMetadata(r, GetXciInfo(disk, sha256, xci.xciFilePath, xci.xciLocation).value)
    ensures !NeedsParse(disk, xci, force) ==> SameMetadata(r, xci)
    ensures r.xciFilePath == xci.xciFilePath && r.xciLocation == xci.xciLocation
    ensures r.isGameOnSd == FindXciByIdentifer(r.uniqueId, sd).Some?
    ensures r.isGameOnPc == FindXciByIdentifer(r.uniqueId, pc).Some?
    ensures r.keepInCache && r.fileAction == DefaultFileStruct
  {
    var base := if NeedsParse(disk, xci, force)
                then GetXciInfo(disk, sha256, xci.xciFilePath, xci.xciLocation).value
                else xci;
    base.(isGameOnSd := FindXciByIdentifer(base.uniqueId, sd).Some?,
          isGameOnPc := FindXciByIdentifer(base.uniqueId, pc).Some?,
          keepInCache := true,
          fileAction := DefaultFileStruct)
  }

  /** Refreshing without force a second time, against the same lists, changes
      nothing once the first refresh produced a valid record. */
  lemma RefreshIdempotent(disk: Disk, sha256: string -> string, pc: seq<XciItem>, sd: seq<XciItem>,
                          xci: XciItem, force: bool)
    requires IsXciInfoValid(Some(RefreshedRecord(disk, sha256, pc, sd, xci, force)))
    ensures var once := RefreshedRecord(disk, sha256, pc, sd, xci, force);
            RefreshedRecord(disk, sha256, pc, sd, once, false) == once
  {
  }
}
