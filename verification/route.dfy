/** The download route (downloadHandler, main.go:722-791) and its path-containment guard. */
module Route {
  import opened Common
  import opened Text
  import opened Escape
  import opened FilePath
  import opened Files
  import opened Downloads

  datatype Verdict =
    | MethodNotAllowed        // 405: not a GET
    | EmptyPath               // 400: nothing after "/download/"
    | BadEscape               // 400: url.PathUnescape failed
    | OutsideWorkDir          // 403: the containment test failed
    | NotAllowListed          // 403: no existing allow-list entry has this path
    | NotFound                // 404: the second stat says the path does not exist
    | StatFailed              // 500: the second stat failed otherwise
    | IsDirectory             // 400: the path is a directory
    | OpenFailed              // 500: os.Open failed
    | Serve(fileName: string, size: nat, body: seq<byte>)   // 200

  function Status(v: Verdict): int
  {
    match v
    case MethodNotAllowed => 405
    case EmptyPath => 400
    case BadEscape => 400
    case OutsideWorkDir => 403
    case NotAllowListed => 403
    case NotFound => 404
    case StatFailed => 500
    case IsDirectory => 400
    case OpenFailed => 500
    case Serve(_, _, _) => 200
  }

  /** The cleaned absolute target of a decoded request path. */
  function Target(wd: string, decoded: string): string
  {
    Clean(JoinPath(wd, decoded))
  }

  /** The containment test: filepath.Rel succeeds and its result does not start with "..". */
  predicate GuardPasses(wd: string, target: string)
  {
    match Rel(wd, target)
    case None => false
    case Some(rel) => !HasPrefix(rel, "..")
  }

  /** Some descriptor names `target` and exists. */
  predicate Allowed(files: seq<FileInfo>, target: string)
  {
    exists i :: 0 <= i < |files| && files[i].absPath == target && files[i].fileExists
  }

  /**
   * Steps 2 to 6 of the handler for an already decoded path. `fs1` is the filesystem when the
   * allow-list is built, `fs2` when the target is stat-ed again and opened.
   */
  function DecideDecoded(cfg: Config, fs1: FileSystem, fs2: FileSystem, decoded: string): Verdict
  {
    DecideTarget(cfg, fs1, fs2, Target(cfg.wd, decoded))
  }

  /** Steps 3 to 6 of the handler, once the cleaned target is known. */
  function DecideTarget(cfg: Config, fs1: FileSystem, fs2: FileSystem, target: string): Verdict
  {
    if !GuardPasses(cfg.wd, target) then OutsideWorkDir
    else if !Allowed(Descriptors(cfg, fs1), target) then NotAllowListed
    else if target !in fs2 then NotFound
    else
      match fs2[target]
      case Unstatable => StatFailed
      case Dir => IsDirectory
      case File(content, openable) =>
        if !openable then OpenFailed else Serve(Base(target), |content|, content)
  }

  /** downloadHandler as a function of the method and r.URL.Path. */
  function Decide(cfg: Config, fs1: FileSystem, fs2: FileSystem, httpMethod: string, urlPath: string): Verdict
  {
    if httpMethod != "GET" then MethodNotAllowed
    else
      var rawPath := TrimPrefix(urlPath, DownloadPrefix);
      if rawPath == [] then EmptyPath
      else
        match PathUnescape(rawPath)
        case None => BadEscape
        case Some(decoded) => DecideDecoded(cfg, fs1, fs2, decoded)
  }

  /** downloadHandler, with its scan of the allow-list for an existing entry at the target. */
  method Download(cfg: Config, fs1: FileSystem, fs2: FileSystem, httpMethod: string, urlPath: string)
    returns (v: Verdict)
    ensures v == Decide(cfg, fs1, fs2, httpMethod, urlPath)
  {
    if httpMethod != "GET" {
      return MethodNotAllowed;
    }
    var rawPath := TrimPrefix(urlPath, DownloadPrefix);
    if rawPath == [] {
      return EmptyPath;
    }
    var decodedPath := PathUnescape(rawPath);
    if decodedPath.None? {
      return BadEscape;
    }
    assert Decide(cfg, fs1, fs2, httpMethod, urlPath) == DecideDecoded(cfg, fs1, fs2, decodedPath.value);
    var cleanTargetPath := Target(cfg.wd, decodedPath.value);
    var relPath := Rel(cfg.wd, cleanTargetPath);
    if relPath.None? || HasPrefix(relPath.value, "..") {
      return OutsideWorkDir;
    }
    var downloadableFiles := GetDownloadableFiles(cfg, fs1);
    var allowed := ScanAllowList(downloadableFiles, cleanTargetPath);
    if !allowed {
      return NotAllowListed;
    }
    if cleanTargetPath !in fs2 {
      return NotFound;
    }
    match fs2[cleanTargetPath]
    case Unstatable =>
      v := StatFailed;
    case Dir =>
      v := IsDirectory;
    case File(content, openable) =>
      if !openable {
        v := OpenFailed;
      } else {
        v := Serve(Base(cleanTargetPath), |content|, content);
      }
  }

  /** The allow-list scan of the handler: stop at the first existing entry whose path is the target. */
  method ScanAllowList(files: seq<FileInfo>, target: string) returns (allowed: bool)
    ensures allowed == Allowed(files, target)
  {
    allowed := false;
    var i := 0;
    while i < |files|
      invariant 0 <= i <= |files|
      invariant forall j :: 0 <= j < i ==> !(files[j].absPath == target && files[j].fileExists)
    {
      var file := files[i];
      if file.absPath == target && file.fileExists {
        allowed := true;
        break;
      }
      i := i + 1;
    }
  }

  // ---------------------------------------------------------------------------------------
  // What the decision chain guarantees

  /**
   * A download is served only for a GET whose decoded path resolves to a target that is the
   * working directory or lies below it, whose first element below it does not start with "..",
   * that an existing allow-list entry names (a file when the allow-list was built), and that is
   * an openable file at the second stat; the response carries that file's bytes, its size and
   * the base name of the target.
   */
  lemma ServedOnlyAllowListedFiles(cfg: Config, fs1: FileSystem, fs2: FileSystem, httpMethod: string, urlPath: string)
    requires IsAbs(cfg.wd)
    requires Decide(cfg, fs1, fs2, httpMethod, urlPath).Serve?
    ensures httpMethod == "GET"
    ensures var raw := TrimPrefix(urlPath, DownloadPrefix);
      raw != [] && PathUnescape(raw).Some?
    ensures var v := Decide(cfg, fs1, fs2, httpMethod, urlPath);
      var t := Target(cfg.wd, PathUnescape(TrimPrefix(urlPath, DownloadPrefix)).value);
      var b, p := Parse(cfg.wd).elems, Parse(t).elems;
      && Within(cfg.wd, t)
      && (p == b || !HasPrefix(p[|b|], ".."))
      && Allowed(Descriptors(cfg, fs1), t)
      && t in fs1 && fs1[t].File?
      && t in fs2 && fs2[t] == File(v.body, true)
      && v.size == |v.body| && v.fileName == Base(t)
  {
    var t := Target(cfg.wd, PathUnescape(TrimPrefix(urlPath, DownloadPrefix)).value);
    assert IsAbs(JoinPath(cfg.wd, PathUnescape(TrimPrefix(urlPath, DownloadPrefix)).value));
    RelGuard(cfg.wd, t);
    AllowedIsFile(cfg, fs1, t);
  }

  /**
   * The open failure (500) also happens only after every check before os.Open: the target passes
   * the containment test, an existing allow-list entry names it, and the second stat finds a
   * file there that cannot be opened.
   */
  lemma OpenFailedOnlyAllowListed(cfg: Config, fs1: FileSystem, fs2: FileSystem, httpMethod: string, urlPath: string)
    requires IsAbs(cfg.wd)
    requires Decide(cfg, fs1, fs2, httpMethod, urlPath) == OpenFailed
    ensures httpMethod == "GET"
    ensures var raw := TrimPrefix(urlPath, DownloadPrefix);
      raw != [] && PathUnescape(raw).Some?
    ensures var t := Target(cfg.wd, PathUnescape(TrimPrefix(urlPath, DownloadPrefix)).value);
      var b, p := Parse(cfg.wd).elems, Parse(t).elems;
      && Within(cfg.wd, t)
      && (p == b || !HasPrefix(p[|b|], ".."))
      && Allowed(Descriptors(cfg, fs1), t)
      && t in fs1 && fs1[t].File?
      && t in fs2 && fs2[t].File? && !fs2[t].openable
  {
    var t := Target(cfg.wd, PathUnescape(TrimPrefix(urlPath, DownloadPrefix)).value);
    assert IsAbs(JoinPath(cfg.wd, PathUnescape(TrimPrefix(urlPath, DownloadPrefix)).value));
    RelGuard(cfg.wd, t);
    AllowedIsFile(cfg, fs1, t);
  }

  /** A decoded path whose target is not the working directory or below it is refused with 403. */
  lemma EscapeForbidden(cfg: Config, fs1: FileSystem, fs2: FileSystem, decoded: string)
    requires IsAbs(cfg.wd)
    requires !Within(cfg.wd, Target(cfg.wd, decoded))
    ensures DecideDecoded(cfg, fs1, fs2, decoded) == OutsideWorkDir
  {
    var t := Target(cfg.wd, decoded);
    assert IsAbs(JoinPath(cfg.wd, decoded));
    if GuardPasses(cfg.wd, t) {
      RelGuardWithin(cfg.wd, t);
    }
  }

  /**
   * The string test on Rel's result also refuses a child whose name merely starts with "..",
   * such as "..hidden", although it lies inside the working directory.
   */
  lemma DotDotNamedChildForbidden(cfg: Config, fs1: FileSystem, fs2: FileSystem, name: string)
    requires IsAbs(cfg.wd)
    requires IsElem(name) && name != ".." && HasPrefix(name, "..")
    ensures Within(cfg.wd, Target(cfg.wd, name))
    ensures DecideDecoded(cfg, fs1, fs2, name) == OutsideWorkDir
  {
    var t := Target(cfg.wd, name);
    var b := Parse(cfg.wd).elems;
    SplitNoSeparator(name, '/');
    JoinOntoRooted(cfg.wd, name);
    assert Parse(t).elems == b + [name];
    assert IsAbs(JoinPath(cfg.wd, name));
    RelGuard(cfg.wd, t);
    assert (b + [name])[..|b|] == b;
  }

  /**
   * The containment test lets the working directory itself through (Rel gives "."); such a
   * request is refused by the allow-list unless the allow-list time filesystem holds a file there.
   */
  lemma WorkDirItselfRefused(cfg: Config, fs1: FileSystem, fs2: FileSystem, decoded: string)
    requires IsAbs(cfg.wd) && Clean(cfg.wd) == cfg.wd
    requires Target(cfg.wd, decoded) == cfg.wd
    requires !(cfg.wd in fs1 && fs1[cfg.wd].File?)
    ensures GuardPasses(cfg.wd, cfg.wd)
    ensures DecideDecoded(cfg, fs1, fs2, decoded) == NotAllowListed
  {
    DescriptorsShape(cfg, fs1);
  }

  /** A decoded path with a leading '/' is joined below the working directory like a relative one. */
  lemma AbsoluteRequestStaysRelative(cfg: Config, fs1: FileSystem, fs2: FileSystem, p: string)
    requires IsAbs(cfg.wd)
    ensures DecideDecoded(cfg, fs1, fs2, "/" + p) == DecideDecoded(cfg, fs1, fs2, p)
  {
    JoinIgnoresLeadingSlash(cfg.wd, p);
    assert Target(cfg.wd, "/" + p) == Target(cfg.wd, p);
  }

  /** An allow-list whose existing entries all resolve outside the working directory serves nothing. */
  lemma OutsideEntriesNeverServed(cfg: Config, fs1: FileSystem, fs2: FileSystem, httpMethod: string, urlPath: string)
    requires IsAbs(cfg.wd)
    requires forall i :: 0 <= i < |Descriptors(cfg, fs1)| && Descriptors(cfg, fs1)[i].fileExists ==>
      !Within(cfg.wd, Descriptors(cfg, fs1)[i].absPath)
    ensures !Decide(cfg, fs1, fs2, httpMethod, urlPath).Serve?
  {
    if Decide(cfg, fs1, fs2, httpMethod, urlPath).Serve? {
      ServedOnlyAllowListedFiles(cfg, fs1, fs2, httpMethod, urlPath);
    }
  }

  /**
   * When the filesystem does not change between building the allow-list and the second stat,
   * the 404, the failing stat and the directory answers cannot occur.
   */
  lemma SameSnapshotNoStatErrors(cfg: Config, fs: FileSystem, httpMethod: string, urlPath: string)
    ensures var v := Decide(cfg, fs, fs, httpMethod, urlPath);
      v != NotFound && v != StatFailed && v != IsDirectory
  {
    var raw := TrimPrefix(urlPath, DownloadPrefix);
    if httpMethod == "GET" && raw != [] && PathUnescape(raw).Some? {
      var t := Target(cfg.wd, PathUnescape(raw).value);
      assert Decide(cfg, fs, fs, httpMethod, urlPath) == DecideTarget(cfg, fs, fs, t);
      SameSnapshotTarget(cfg, fs, t);
    }
  }

  /** The same for a cleaned target: with one snapshot, an allow-listed target is a file. */
  lemma SameSnapshotTarget(cfg: Config, fs: FileSystem, t: string)
    ensures var v := DecideTarget(cfg, fs, fs, t);
      v != NotFound && v != StatFailed && v != IsDirectory
  {
    if GuardPasses(cfg.wd, t) && Allowed(Descriptors(cfg, fs), t) {
      AllowedIsFile(cfg, fs, t);
    }
  }

  /** A GET of "/download/" + a text without '%' is decided on that text as it stands. */
  lemma DecidePlain(cfg: Config, fs1: FileSystem, fs2: FileSystem, text: string)
    requires text != [] && '%' !in text
    ensures Decide(cfg, fs1, fs2, "GET", DownloadPrefix + text) == DecideDecoded(cfg, fs1, fs2, text)
  {
    var path := DownloadPrefix + text;
    assert path[..|DownloadPrefix|] == DownloadPrefix;
    assert TrimPrefix(path, DownloadPrefix) == text;
  }

  /**
   * A plain name (no '/', not "" or ".", not starting with "..") resolves to the working
   * directory's path with the name appended, and passes the containment test.
   */
  lemma TargetOfName(wd: string, e: string)
    requires IsAbs(wd) && IsElem(e) && !HasPrefix(e, "..")
    ensures IsAbs(Target(wd, e))
    ensures Parse(Target(wd, e)).elems == Parse(wd).elems + [e]
    ensures GuardPasses(wd, Target(wd, e))
  {
    var b := Parse(wd).elems;
    var t := Target(wd, e);
    assert IsAbs(JoinPath(wd, e));
    JoinOntoRooted(wd, e);
    SplitNoSeparator(e, '/');
    assert Lex(b, [e], true) == Lex(b + [e], [], true);
    var p := Parse(t).elems;
    assert p == b + [e];
    RelGuard(wd, t);
    assert p[..|b|] == b && p[|b|] == e;
  }

  /** An allow-listed target held a file when the allow-list was built. */
  lemma AllowedIsFile(cfg: Config, fs: FileSystem, t: string)
    requires Allowed(Descriptors(cfg, fs), t)
    ensures t in fs && fs[t].File?
  {
    DescriptorsShape(cfg, fs);
  }
}
