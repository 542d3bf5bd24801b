/** The download list page (downloadsListHandler, main.go:527-719): one row per descriptor. */
module Listing {
  import opened Common
  import opened Text
  import opened Escape
  import opened FilePath
  import opened Sizes
  import opened Files
  import opened Downloads

  /** The action cell of a row: a link only for an existing file. */
  datatype Action = Disabled | Enabled(href: string)

  datatype Row = Row(fileName: string, size: SizeLabel, action: Action)

  datatype ListPage = ListNotFound | EmptyMessage | Table(rows: seq<Row>)

  /** The link of a row: "/download/" and the escaped relative path, when the file exists. */
  function RowAction(fi: FileInfo): Action
  {
    if fi.fileExists then Enabled(DownloadPrefix + PathEscape(fi.relPath)) else Disabled
  }

  function RowOf(fi: FileInfo): Row
    requires fi.size <= MaxInt64
  {
    Row(fi.fileName, Label(fi.size), RowAction(fi))
  }

  /** One row per descriptor, in order. */
  function Rows(files: seq<FileInfo>): seq<Row>
    requires SizesInRange(files)
  {
    if files == [] then [] else Rows(files[..|files| - 1]) + [RowOf(files[|files| - 1])]
  }

  /** The page downloadsListHandler builds, stated as a function. */
  function ListSpec(cfg: Config, fs: FileSystem, httpMethod: string, path: string): ListPage
    requires SizesFit(fs)
  {
    if httpMethod != "GET" || path != "/downloads" then ListNotFound
    else
      var files := Descriptors(cfg, fs);
      if |files| == 0 then EmptyMessage
      else
        DescriptorSizes(cfg, fs);
        Table(Rows(files))
  }

  /** downloadsListHandler: 404 off its route, the empty message, or one row per descriptor. */
  method DownloadsList(cfg: Config, fs: FileSystem, httpMethod: string, path: string) returns (page: ListPage)
    requires SizesFit(fs)
    ensures page == ListSpec(cfg, fs, httpMethod, path)
  {
    if httpMethod != "GET" || path != "/downloads" {
      return ListNotFound;
    }
    var files := GetDownloadableFiles(cfg, fs);
    if |files| == 0 {
      return EmptyMessage;
    }
    DescriptorSizes(cfg, fs);
    var rows: seq<Row> := [];
    var i := 0;
    while i < |files|
      invariant 0 <= i <= |files|
      invariant rows == Rows(files[..i])
    {
      assert files[..i + 1][..i] == files[..i];
      var file := files[i];
      var action := Disabled;
      if file.fileExists {
        var encodedPath := PathEscape(file.relPath);
        action := Enabled(DownloadPrefix + encodedPath);
      }
      var size := FormatFileSize(file.size as int64);
      rows := rows + [Row(file.fileName, size, action)];
      i := i + 1;
    }
    assert files[..i] == files;
    page := Table(rows);
  }

  // ---------------------------------------------------------------------------------------

  lemma {:induction false} RowsShape(files: seq<FileInfo>)
    requires SizesInRange(files)
    ensures |Rows(files)| == |files|
    ensures forall i :: 0 <= i < |files| ==> Rows(files)[i] == RowOf(files[i])
  {
    if files != [] {
      var init := files[..|files| - 1];
      RowsShape(init);
      forall i | 0 <= i < |files| - 1
        ensures Rows(files)[i] == RowOf(files[i])
      {
        assert files[i] == init[i];
      }
    }
  }

  /**
   * On its route the page lists every configured entry, in order: the empty message exactly
   * when nothing is configured, otherwise one row per descriptor carrying the file's name and
   * size label, with a link "/download/" + the escaped relative path exactly when the file
   * exists. Off its route (not GET, or not exactly "/downloads") it is a 404.
   */
  lemma ListShows(cfg: Config, fs: FileSystem, httpMethod: string, path: string)
    requires SizesFit(fs)
    ensures var page := ListSpec(cfg, fs, httpMethod, path);
      var files := Descriptors(cfg, fs);
      && (page.ListNotFound? <==> httpMethod != "GET" || path != "/downloads")
      && (page.EmptyMessage? <==> httpMethod == "GET" && path == "/downloads" && Entries(cfg) == [])
      && (page.Table? ==>
            && |page.rows| == |files| == |Entries(cfg)| > 0
            && forall i :: 0 <= i < |files| ==>
                 && page.rows[i].fileName == files[i].fileName
                 && files[i].size <= MaxInt64 && page.rows[i].size == Label(files[i].size)
                 && (page.rows[i].action.Enabled? <==> files[i].fileExists)
                 && (files[i].fileExists ==>
                       page.rows[i].action.href == DownloadPrefix + PathEscape(Entries(cfg)[i])))
  {
    DescriptorsShape(cfg, fs);
    DescriptorSizes(cfg, fs);
    var files := Descriptors(cfg, fs);
    assert |files| == |Entries(cfg)|;
    RowsShape(files);
  }
}
