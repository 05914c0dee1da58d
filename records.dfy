/** The catalog's values: a game record (XciItem), the pending file operation
    attached to it (FileHelper.FileStruct) and the two storage locations.
    XciItem and FileHelper are declared outside XCIHelper.cs; their fields are
    the ones XCIHelper.cs reads and writes. The game icon bitmap is not modelled. */
module Records {

  datatype Option<T> = None | Some(value: T)

  newtype byte = x: int | 0 <= x < 256

  /** XciHelper.XciLocation */
  datatype Location = PC | SD

  function Other(loc: Location): (r: Location)
    ensures r != loc
  {
    if loc == PC then SD else PC
  }

  /** FileHelper.FileAction; `NoAction` is the source's `None`. */
  datatype FileAction = NoAction | Copy | Move | Delete | CompletelyDelete | Trim

  /** FileHelper.FileStruct: a file operation requested on a record. */
  datatype FileStruct = FileStruct(
    action: FileAction,
    source: Location,
    destination: Location,
    sourcePath: string,
    destinationPath: string,
    actionCompleted: bool)

  /** `new FileHelper.FileStruct()`: no pending operation. */
  const DefaultFileStruct := FileStruct(NoAction, PC, PC, "", "", false)

  /** XciItem. Sizes, which the source keeps as double and long, are naturals. */
  datatype XciItem = XciItem(
    uniqueId: string,
    xciFilePath: string,
    xciLocation: Location,
    isGameOnPc: bool,
    isGameOnSd: bool,
    gameName: string,
    gameDeveloper: string,
    gameCardCapacity: string,
    gameRevision: string,
    masterKeyRevision: string,
    sdkVersion: string,
    titleId: string,
    productCode: string,
    gameSize: nat,
    gameUsedSize: nat,
    xciFileSize: nat,
    gameCert: seq<byte>,
    isXciTrimmed: bool,
    isUniqueCert: bool,
    keepInCache: bool,
    fileAction: FileStruct)

  /** `new XciItem()`: every text field empty, every flag false, every size zero. */
  const BlankItem := XciItem("", "", PC, false, false, "", "", "", "", "", "", "", "",
                             0, 0, 0, [], false, false, false, DefaultFileStruct)

  /** `new XciItem(filePath)` */
  function NewItem(filePath: string): XciItem {
    BlankItem.(xciFilePath := filePath)
  }

  /** The fields a parse fills in, as opposed to presence flags, location,
      path, cache retention and the pending operation. */
  predicate SameMetadata(a: XciItem, b: XciItem) {
    && a.uniqueId == b.uniqueId
    && a.gameName == b.gameName
    && a.gameDeveloper == b.gameDeveloper
    && a.gameCardCapacity == b.gameCardCapacity
    && a.gameRevision == b.gameRevision
    && a.masterKeyRevision == b.masterKeyRevision
    && a.sdkVersion == b.sdkVersion
    && a.titleId == b.titleId
    && a.productCode == b.productCode
    && a.gameSize == b.gameSize
    && a.gameUsedSize == b.gameUsedSize
    && a.xciFileSize == b.xciFileSize
    && a.gameCert == b.gameCert
    && a.isXciTrimmed == b.isXciTrimmed
    && a.isUniqueCert == b.isUniqueCert
  }
}
