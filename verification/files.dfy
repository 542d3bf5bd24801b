/**
 * The filesystem the handlers see, as a map from absolute path to what os.Stat would report
 * there. A path the map does not hold does not exist; `Unstatable` is a path whose stat fails
 * for another reason (a permission error, say). A file that stats but cannot be opened has
 * `openable` false.
 */
module Files {
  import opened Common

  datatype Entry = File(content: seq<byte>, openable: bool) | Dir | Unstatable

  type FileSystem = map<string, Entry>

  /** Every file's size fits the int64 that os.FileInfo.Size returns. */
  predicate SizesFit(fs: FileSystem)
  {
    forall p :: p in fs && fs[p].File? ==> |fs[p].content| <= MaxInt64
  }

  /** os.Stat succeeds: the path exists and its entry can be read. */
  predicate StatOk(fs: FileSystem, p: string)
  {
    p in fs && !fs[p].Unstatable?
  }

  /** `p` holds a file os.Open can open. */
  predicate OpenableFile(fs: FileSystem, p: string)
  {
    p in fs && fs[p].File? && fs[p].openable
  }
}
