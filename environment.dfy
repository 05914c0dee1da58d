/** The file system as the catalog observes it. The external cartridge parser
    (XCI_Explorer) and the certificate read are functions of a file's
    contents; the model keeps, per file, exactly what they would report. */
module Environment {
  import opened Records

  /** What the cartridge header parser reports for a file, before clean-up. */
  datatype Header = Header(
    name: string,
    developer: string,
    capacity: string,
    revision: string,
    masterKeyRevision: string,
    sdkVersion: string,
    titleId: string,
    productCode: string,
    exactSize: nat,
    usedSize: nat)

  /** One existing file: its length, its header, and the bytes it holds from
      offset 28672 on (the certificate area; fewer than 512 in a short file). */
  datatype FileData = FileData(length: nat, header: Header, certArea: seq<byte>)

  /** One existing directory: its subdirectories and the full paths of its
      file entries, each in the order the directory enumeration yields them.
      An entry is listed only while its path is among the existing files. */
  datatype Dir = Dir(subdirs: seq<Dir>, entries: seq<string>)

  /** Existing files by full path and existing directories by full path. */
  datatype Disk = Disk(files: map<string, FileData>, dirs: map<string, Dir>)
}
