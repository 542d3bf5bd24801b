/**
 * The allow-list descriptors of the download side (getDownloadableFiles and getFileInfo,
 * main.go:473-510): one descriptor per configured entry, -f taking priority over -x.
 */
module Downloads {
  import opened Common
  import opened Text
  import opened Escape
  import opened FilePath
  import opened Sizes
  import opened Files

  /** The global state `main` sets up: the cleaned working directory, -f and the parsed -x list. */
  datatype Config = Config(wd: string, single: string, multi: seq<string>)

  /** What `main` guarantees before it serves: an absolute cleaned wd, not both -f and -x, no blank -x entry. */
  predicate ValidConfig(cfg: Config)
  {
    && IsAbs(cfg.wd) && Clean(cfg.wd) == cfg.wd
    && !(cfg.single != [] && cfg.multi != [])
    && forall i :: 0 <= i < |cfg.multi| ==> cfg.multi[i] != []
  }

  /** The configured relative paths: -f when it is set, otherwise the -x list. */
  function Entries(cfg: Config): seq<string>
  {
    if cfg.single != [] then [cfg.single] else cfg.multi
  }

  /** The route prefix of a download link. */
  const DownloadPrefix: string := "/download/"

  datatype FileInfo = FileInfo(fileName: string, relPath: string, absPath: string, size: nat, fileExists: bool)

  /** filepath.Clean(filepath.Join(wd, rel)). */
  function AbsPathOf(wd: string, rel: string): string
  {
    Clean(JoinPath(wd, rel))
  }

  /** getFileInfo: the descriptor of `absPath`, which exists only as a stat-able non-directory. */
  function GetFileInfo(fs: FileSystem, relPath: string, absPath: string): FileInfo
  {
    var fileExists := absPath in fs && fs[absPath].File?;
    FileInfo(Base(absPath), relPath, absPath, if fileExists then |fs[absPath].content| else 0, fileExists)
  }

  /** The descriptors of the relative paths `rels`, in order. */
  function DescribeAll(wd: string, fs: FileSystem, rels: seq<string>): seq<FileInfo>
  {
    if rels == [] then []
    else
      var rel := rels[|rels| - 1];
      DescribeAll(wd, fs, rels[..|rels| - 1]) + [GetFileInfo(fs, rel, AbsPathOf(wd, rel))]
  }

  /** The descriptors getDownloadableFiles returns, one per configured entry. */
  function Descriptors(cfg: Config, fs: FileSystem): seq<FileInfo>
  {
    DescribeAll(cfg.wd, fs, Entries(cfg))
  }

  /** getDownloadableFiles: -f first, otherwise one descriptor per -x entry, appended in order. */
  method GetDownloadableFiles(cfg: Config, fs: FileSystem) returns (files: seq<FileInfo>)
    ensures files == Descriptors(cfg, fs)
  {
    files := [];
    if cfg.single != [] {
      var absPath := AbsPathOf(cfg.wd, cfg.single);
      files := files + [GetFileInfo(fs, cfg.single, absPath)];
      DescribeNext(cfg.wd, fs, [cfg.single], 0);
    } else if |cfg.multi| > 0 {
      assert Entries(cfg) == cfg.multi;
      var i := 0;
      while i < |cfg.multi|
        invariant 0 <= i <= |cfg.multi|
        invariant files == DescribeAll(cfg.wd, fs, cfg.multi[..i])
      {
        var relPath := cfg.multi[i];
        var absPath := AbsPathOf(cfg.wd, relPath);
        DescribeNext(cfg.wd, fs, cfg.multi, i);
        files := files + [GetFileInfo(fs, relPath, absPath)];
        i := i + 1;
      }
      assert cfg.multi[..i] == cfg.multi;
    }
  }


  /** Describing one more entry appends its descriptor. */
  lemma DescribeNext(wd: string, fs: FileSystem, rels: seq<string>, i: nat)
    requires i < |rels|
    ensures DescribeAll(wd, fs, rels[..i + 1])
      == DescribeAll(wd, fs, rels[..i]) + [GetFileInfo(fs, rels[i], AbsPathOf(wd, rels[i]))]
  {
    assert rels[..i + 1][..i] == rels[..i];
  }

  /** Every descriptor carries a size an int64 can hold, as os.FileInfo.Size reports it. */
  predicate SizesInRange(files: seq<FileInfo>)
  {
    forall i :: 0 <= i < |files| ==> files[i].size <= MaxInt64
  }

  // ---------------------------------------------------------------------------------------

  lemma {:induction false} DescribeAllShape(wd: string, fs: FileSystem, rels: seq<string>)
    ensures |DescribeAll(wd, fs, rels)| == |rels|
    ensures forall i :: 0 <= i < |rels| ==>
      DescribeAll(wd, fs, rels)[i] == GetFileInfo(fs, rels[i], AbsPathOf(wd, rels[i]))
  {
    if rels != [] {
      var init := rels[..|rels| - 1];
      DescribeAllShape(wd, fs, init);
      forall i | 0 <= i < |rels| - 1
        ensures DescribeAll(wd, fs, rels)[i] == GetFileInfo(fs, rels[i], AbsPathOf(wd, rels[i]))
      {
        assert rels[i] == init[i];
      }
    }
  }

  /**
   * getDownloadableFiles gives -f priority over -x and returns one descriptor per configured
   * entry, in order: its relative path is the entry, its absolute path Clean(Join(wd, entry)),
   * its name the base name of that path; it exists exactly when the path holds a file (not a
   * directory, not a failing stat), and its size is that file's size, 0 otherwise.
   */
  lemma DescriptorsShape(cfg: Config, fs: FileSystem)
    ensures var files := Descriptors(cfg, fs);
      && |files| == (if cfg.single != [] then 1 else |cfg.multi|)
      && (forall i :: 0 <= i < |files| ==>
            files[i].relPath == (if cfg.single != [] then cfg.single else cfg.multi[i]))
      && (forall i :: 0 <= i < |files| ==>
            && files[i].absPath == Clean(JoinPath(cfg.wd, files[i].relPath))
            && files[i].fileName == Base(files[i].absPath)
            && (files[i].fileExists <==> files[i].absPath in fs && fs[files[i].absPath].File?)
            && files[i].size == (if files[i].fileExists then |fs[files[i].absPath].content| else 0))
  {
    DescribeAllShape(cfg.wd, fs, Entries(cfg));
  }

  /** On a filesystem whose file sizes fit an int64, so do the descriptor sizes. */
  lemma DescriptorSizes(cfg: Config, fs: FileSystem)
    requires SizesFit(fs)
    ensures SizesInRange(Descriptors(cfg, fs))
  {
    DescribeAllShape(cfg.wd, fs, Entries(cfg));
  }

  /**
   * With an absolute working directory, a descriptor's absolute path is absolute and clean, and
   * its name is the last element of that path ("/" when the entry resolves to the root).
   */
  lemma DescriptorPath(cfg: Config, fs: FileSystem, i: nat)
    requires IsAbs(cfg.wd)
    requires i < |Descriptors(cfg, fs)|
    ensures var fi := Descriptors(cfg, fs)[i];
      var p := Parse(fi.absPath);
      && IsAbs(fi.absPath) && Clean(fi.absPath) == fi.absPath
      && fi.fileName == (if p.elems == [] then "/" else p.elems[|p.elems| - 1])
  {
    DescribeAllShape(cfg.wd, fs, Entries(cfg));
    var rel := Entries(cfg)[i];
    assert Descriptors(cfg, fs)[i] == GetFileInfo(fs, rel, AbsPathOf(cfg.wd, rel));
    AbsPathShape(cfg.wd, rel);
  }

  /** The absolute path of one entry is absolute and clean, and its base name is its last element. */
  lemma AbsPathShape(wd: string, rel: string)
    requires IsAbs(wd)
    ensures var a := AbsPathOf(wd, rel);
      var p := Parse(a);
      && IsAbs(a) && Clean(a) == a
      && Base(a) == (if p.elems == [] then "/" else p.elems[|p.elems| - 1])
  {
    var j := JoinPath(wd, rel);
    assert IsAbs(j);
    CleanIdempotent(j);
    BaseOfClean(j);
  }
}
