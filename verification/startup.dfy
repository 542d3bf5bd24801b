/**
 * Start-up (main, main.go:847-966): -h shows the help; the -x list is parsed; -f together with
 * a non-empty -x list exits with status 1 before anything else happens; then the working
 * directory is read and cleaned, the local address is found, and the server starts with a QR
 * code whose URL points at the -f file, the download list, or the upload page, in that order.
 * os.Getwd, the gateway discovery and the interface list are inputs.
 */
module Startup {
  import opened Common
  import opened Text
  import opened Escape
  import opened FilePath
  import opened Files
  import opened Flags
  import opened Downloads
  import opened Route
  import opened Network
  import opened Links

  /** Why start-up exits with status 1. */
  datatype ExitReason = FlagConflict | NoWorkDir | NoLocalIP

  /** How start-up ends: the help text, an exit, or a server over `cfg` announced at `localIP`. */
  datatype Launch =
    | ShowHelp
    | Exit(code: int, reason: ExitReason)
    | Serving(cfg: Config, localIP: string, qrUrl: string)

  /** The server's origin as printed and encoded: "http://" + localIP + ":8080". */
  function Origin(localIP: string): string
  {
    "http://" + localIP + ":8080"
  }

  /** The QR code's URL: the -f file's download link, else the download list, else the upload page. */
  function QrUrl(cfg: Config, localIP: string): (url: string)
    ensures HasPrefix(url, Origin(localIP))
  {
    assert (Origin(localIP) + "/downloads")[..|Origin(localIP)|] == Origin(localIP);
    assert (Origin(localIP) + DownloadPrefix + cfg.single)[..|Origin(localIP)|] == Origin(localIP);
    if cfg.single != [] then Origin(localIP) + DownloadPrefix + cfg.single
    else if cfg.multi != [] then Origin(localIP) + "/downloads"
    else Origin(localIP)
  }

  /**
   * main as a function of the parsed flags and of what the environment answers: `getwd` is
   * os.Getwd (None when it fails, otherwise an absolute path), `gw` the discovered gateway.
   */
  function LaunchSpec(help: bool, single: string, multiText: string, getwd: Option<string>,
                      gw: Option<IP>, interfaces: Option<seq<Interface>>): Launch
  {
    if help then ShowHelp
    else
      var multi := MultiFilePaths(multiText);
      if single != [] && multi != [] then Exit(1, FlagConflict)
      else if getwd.None? then Exit(1, NoWorkDir)
      else
        var wd := Clean(getwd.value);
        match LocalIPString(gw, interfaces)
        case None => Exit(1, NoLocalIP)
        case Some(ip) => Serving(Config(wd, single, multi), ip, QrUrl(Config(wd, single, multi), ip))
  }

  /** main: the same steps, with the -x loops and the interface search run as methods. */
  method Start(help: bool, single: string, multiText: string, getwd: Option<string>,
               gw: Option<IP>, interfaces: Option<seq<Interface>>) returns (launch: Launch)
    ensures launch == LaunchSpec(help, single, multiText, getwd, gw, interfaces)
  {
    if help {
      return ShowHelp;
    }
    var multi := ParseMultiFilePaths(multiText);
    if single != [] && |multi| > 0 {
      return Exit(1, FlagConflict);
    }
    if getwd.None? {
      return Exit(1, NoWorkDir);
    }
    var wd := Clean(getwd.value);
    if gw.None? {
      return Exit(1, NoLocalIP);
    }
    var lookup := GetLocalIPForGateway(gw.value, interfaces);
    if !lookup.Found? {
      return Exit(1, NoLocalIP);
    }
    FoundIsIPv4(gw.value, interfaces);
    var localIP := Dotted(lookup.ip);
    var cfg := Config(wd, single, multi);
    launch := Serving(cfg, localIP, QrUrl(cfg, localIP));
  }

  // ---------------------------------------------------------------------------------------

  /**
   * -f together with a -x list that parses non-empty exits with status 1, whatever the working
   * directory and the network would have answered: none of them is consulted.
   */
  lemma ConflictExitsFirst(single: string, multiText: string,
                           getwd1: Option<string>, gw1: Option<IP>, if1: Option<seq<Interface>>,
                           getwd2: Option<string>, gw2: Option<IP>, if2: Option<seq<Interface>>)
    requires single != [] && MultiFilePaths(multiText) != []
    ensures LaunchSpec(false, single, multiText, getwd1, gw1, if1) == Exit(1, FlagConflict)
    ensures LaunchSpec(false, single, multiText, getwd1, gw1, if1)
         == LaunchSpec(false, single, multiText, getwd2, gw2, if2)
  {
  }

  /** A -x made only of commas and spaces configures nothing, so it never conflicts with -f. */
  lemma SeparatorsNeverConflict(single: string, multiText: string, getwd: Option<string>,
                                gw: Option<IP>, interfaces: Option<seq<Interface>>)
    requires forall i :: 0 <= i < |multiText| ==> multiText[i] == ',' || multiText[i] == ' '
    ensures LaunchSpec(false, single, multiText, getwd, gw, interfaces) != Exit(1, FlagConflict)
    ensures LaunchSpec(false, single, multiText, getwd, gw, interfaces).Serving? ==>
      LaunchSpec(false, single, multiText, getwd, gw, interfaces).cfg.multi == []
  {
    OnlySeparatorsConfigureNothing(multiText);
  }

  /**
   * A server only starts on a configuration the handlers can rely on: the cleaned absolute
   * working directory, -f as given, the parsed -x list, never both, no blank -x entry; and it is
   * announced at the dotted text of the address the gateway lookup found.
   */
  lemma ServingIsValid(help: bool, single: string, multiText: string, getwd: Option<string>,
                       gw: Option<IP>, interfaces: Option<seq<Interface>>)
    requires getwd.Some? ==> IsAbs(getwd.value)
    ensures var launch := LaunchSpec(help, single, multiText, getwd, gw, interfaces);
      launch.Serving? ==>
        && getwd.Some? && gw.Some? && LookupSpec(gw.value, interfaces).Found?
        && launch.cfg == Config(Clean(getwd.value), single, MultiFilePaths(multiText))
        && ValidConfig(launch.cfg)
        && launch.localIP == Dotted(LookupSpec(gw.value, interfaces).ip)
  {
    var launch := LaunchSpec(help, single, multiText, getwd, gw, interfaces);
    if launch.Serving? {
      var wd := Clean(getwd.value);
      CleanIdempotent(getwd.value);
      MultiFilePathsNonBlank(multiText);
      LocalIPText(gw, interfaces);
      FoundIsIPv4(gw.value, interfaces);
    }
  }

  /**
   * The QR URL follows the priority: the -f link when -f is set, otherwise the download list
   * when -x configured something, otherwise the upload page.
   */
  lemma QrPriority(cfg: Config, localIP: string)
    ensures cfg.single != [] ==> QrUrl(cfg, localIP) == Origin(localIP) + DownloadPrefix + cfg.single
    ensures cfg.single == [] && cfg.multi != [] ==> QrUrl(cfg, localIP) == Origin(localIP) + "/downloads"
    ensures cfg.single == [] && cfg.multi == [] ==> QrUrl(cfg, localIP) == Origin(localIP)
  {
  }

  /**
   * The QR link of a -f file without '%', '?' and '#' reaches that file's allow-list entry: the
   * whole link is path, net/http decodes it to "/download/" + the -f text, and the route's own
   * decoding and cleaning then give exactly the absolute path of the single descriptor, so it is
   * decided as the list's link to it would be.
   */
  lemma QrSingleLinkTargetsEntry(cfg: Config, fs1: FileSystem, fs2: FileSystem, localIP: string)
    requires cfg.single != [] && '%' !in cfg.single && '?' !in cfg.single && '#' !in cfg.single
    ensures QrUrl(cfg, localIP) == Origin(localIP) + DownloadPrefix + cfg.single
    ensures ServerPath(DownloadPrefix + cfg.single) == Some(DownloadPrefix + cfg.single)
    ensures |Descriptors(cfg, fs1)| == 1
    ensures Decide(cfg, fs1, fs2, "GET", DownloadPrefix + cfg.single)
         == DecideTarget(cfg, fs1, fs2, Descriptors(cfg, fs1)[0].absPath)
  {
    PlainLinkArrives(cfg.single);
    LinkPathWhole(cfg.single);
    DecidePlain(cfg, fs1, fs2, cfg.single);
    SingleDescriptor(cfg, fs1);
  }

  /**
   * As written, the QR link puts the -f text into the URL unescaped: with -f "a?b" the client
   * sends only "/download/a" as the path, which the route refuses with 403 as not allow-listed,
   * whatever the filesystem holds, since the one descriptor is the path of "a?b".
   */
  lemma QrQueryLinkRefused(cfg: Config, fs1: FileSystem, fs2: FileSystem, localIP: string)
    requires IsAbs(cfg.wd) && cfg.single == "a?b"
    ensures QrUrl(cfg, localIP) == Origin(localIP) + DownloadPrefix + "a?b"
    ensures ServerPath(DownloadPrefix + "a?b") == Some(DownloadPrefix + "a")
    ensures |Descriptors(cfg, fs1)| == 1 && Descriptors(cfg, fs1)[0].absPath == Target(cfg.wd, "a?b")
    ensures Decide(cfg, fs1, fs2, "GET", DownloadPrefix + "a") == NotAllowListed
  {
    PlainLinkArrives("a?b");
    assert LinkPath("a?b") == "a";
    SingleDescriptor(cfg, fs1);
    DecidePlain(cfg, fs1, fs2, "a");
    PlainNames();
    TargetOfName(cfg.wd, "a?b");
    var b := Parse(cfg.wd).elems;
    assert (b + ["a?b"])[|b|] != (b + ["a"])[|b|];
    OtherNameNotAllowed(cfg, fs1, fs2, "a");
  }

  /** "a" and "a?b" are plain names: one element each, not starting with "..". */
  lemma PlainNames()
    ensures IsElem("a") && !HasPrefix("a", "..")
    ensures IsElem("a?b") && !HasPrefix("a?b", "..")
  {
    var s := "a?b";
    assert s[0] == 'a' && s[1] == '?' && s[2] == 'b';
  }

  /**
   * With -f set, a plain name that resolves elsewhere than the -f path passes the containment
   * test and is refused as not allow-listed.
   */
  lemma OtherNameNotAllowed(cfg: Config, fs1: FileSystem, fs2: FileSystem, e: string)
    requires IsAbs(cfg.wd) && cfg.single != [] && IsElem(e) && !HasPrefix(e, "..")
    requires Parse(Target(cfg.wd, cfg.single)).elems != Parse(cfg.wd).elems + [e]
    ensures DecideDecoded(cfg, fs1, fs2, e) == NotAllowListed
  {
    TargetOfName(cfg.wd, e);
    SingleDescriptor(cfg, fs1);
    var t := Target(cfg.wd, e);
    assert t != Descriptors(cfg, fs1)[0].absPath;
    assert !Allowed(Descriptors(cfg, fs1), t);
  }

  /** Corrected: the QR code's URL with the -f text escaped as the list escapes its links. */
  function QrUrlEscaped(cfg: Config, localIP: string): (url: string)
    ensures HasPrefix(url, Origin(localIP))
    ensures cfg.single == [] ==> url == QrUrl(cfg, localIP)
  {
    if cfg.single != [] then
      assert (Origin(localIP) + DownloadPrefix + PathEscape(cfg.single))[..|Origin(localIP)|] == Origin(localIP);
      Origin(localIP) + DownloadPrefix + PathEscape(cfg.single)
    else QrUrl(cfg, localIP)
  }

  /**
   * Corrected: whatever bytes the -f text holds, the escaped QR link arrives as "/download/" +
   * the -f text, and the route that decodes once decides it on the single descriptor's path.
   */
  lemma QrEscapedLinkTargetsEntry(cfg: Config, fs1: FileSystem, fs2: FileSystem, localIP: string)
    requires cfg.single != []
    ensures QrUrlEscaped(cfg, localIP) == Origin(localIP) + DownloadPrefix + PathEscape(cfg.single)
    ensures ServerPath(DownloadPrefix + PathEscape(cfg.single)) == Some(DownloadPrefix + cfg.single)
    ensures |Descriptors(cfg, fs1)| == 1
    ensures DecideSingleDecode(cfg, fs1, fs2, "GET", DownloadPrefix + cfg.single)
         == DecideTarget(cfg, fs1, fs2, Descriptors(cfg, fs1)[0].absPath)
  {
    LinkArrives(cfg.single);
    assert DecideSingleDecode(cfg, fs1, fs2, "GET", DownloadPrefix + cfg.single)
        == DecideDecoded(cfg, fs1, fs2, cfg.single);
    SingleDescriptor(cfg, fs1);
  }

  /** With -f set, the allow-list is the one descriptor of the -f path. */
  lemma SingleDescriptor(cfg: Config, fs: FileSystem)
    requires cfg.single != []
    ensures |Descriptors(cfg, fs)| == 1
    ensures Descriptors(cfg, fs)[0].absPath == Target(cfg.wd, cfg.single)
  {
    DescriptorsShape(cfg, fs);
  }
}
