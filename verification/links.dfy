/**
 * The download list's links against the download route. The list escapes a file's relative path
 * once (url.PathEscape); a client sends the part of a link before '?' or '#' as the path;
 * net/http decodes that path once into r.URL.Path; and the route then decodes what follows
 * "/download/" a second time (main.go:737). A relative path whose bytes hold a '%' therefore
 * does not survive its own link; the route without the second decoding serves every listed link
 * that passes the containment test.
 */
module Links {
  import opened Common
  import opened Text
  import opened Escape
  import opened FilePath
  import opened Files
  import opened Downloads
  import opened Listing
  import opened Route

  /**
   * The path part of a link that starts with '/': everything before its first '?' (the query)
   * or '#' (the fragment), which is what a client puts on the request line as the path.
   */
  function LinkPath(href: string): (p: string)
    ensures |p| <= |href| && p == href[..|p|]
    ensures '?' !in p && '#' !in p
    ensures |p| < |href| ==> href[|p|] == '?' || href[|p|] == '#'
  {
    if href == [] || href[0] == '?' || href[0] == '#' then []
    else [href[0]] + LinkPath(href[1..])
  }

  /**
   * The r.URL.Path net/http hands the handler for a request to `href`: the path part, with its
   * escapes decoded once.
   */
  function ServerPath(href: string): Option<string>
  {
    PathUnescape(LinkPath(href))
  }

  /** A leading part without '?' and '#' is kept whole in front of the path part of the rest. */
  lemma {:induction false} LinkPathPlainPrefix(a: string, b: string)
    requires '?' !in a && '#' !in a
    ensures LinkPath(a + b) == a + LinkPath(b)
  {
    if a != [] {
      assert a[0] in a;
      assert (a + b)[0] == a[0] && (a + b)[1..] == a[1..] + b;
      LinkPathPlainPrefix(a[1..], b);
      assert [a[0]] + (a[1..] + LinkPath(b)) == a + LinkPath(b);
    } else {
      assert a + b == b;
    }
  }

  /** A link without '?' and '#' is all path. */
  lemma LinkPathWhole(href: string)
    requires '?' !in href && '#' !in href
    ensures LinkPath(href) == href
  {
  }

  /** The route without the second decoding: the path after "/download/" is used as it arrives. */
  function DecideSingleDecode(cfg: Config, fs1: FileSystem, fs2: FileSystem, httpMethod: string, urlPath: string): Verdict
  {
    if httpMethod != "GET" then MethodNotAllowed
    else
      var rawPath := TrimPrefix(urlPath, DownloadPrefix);
      if rawPath == [] then EmptyPath
      else DecideDecoded(cfg, fs1, fs2, rawPath)
  }

  /** The route prefix contains no '%', so a link decodes to the prefix and the decoded rest. */
  lemma LinkArrives(rel: string)
    ensures ServerPath(DownloadPrefix + PathEscape(rel)) == Some(DownloadPrefix + rel)
    ensures TrimPrefix(DownloadPrefix + rel, DownloadPrefix) == rel
  {
    var link := DownloadPrefix + PathEscape(rel);
    EscapedLinkIsPath(rel);
    assert ServerPath(link) == PathUnescape(link);
    PrefixPlain();
    UnescapeEscape(rel);
    UnescapePlainPrefix(DownloadPrefix, PathEscape(rel));
    assert (DownloadPrefix + rel)[..|DownloadPrefix|] == DownloadPrefix;
  }

  /** The route prefix holds no '%', '?' or '#'. */
  lemma PrefixPlain()
    ensures '%' !in DownloadPrefix && '?' !in DownloadPrefix && '#' !in DownloadPrefix
  {
    assert DownloadPrefix == ['/', 'd', 'o', 'w', 'n', 'l', 'o', 'a', 'd', '/'];
  }

  /**
   * A link made of "/download/" and a text without '%' reaches the handler as "/download/" + the
   * part of the text before its first '?' or '#'.
   */
  lemma PlainLinkArrives(text: string)
    requires '%' !in text
    ensures ServerPath(DownloadPrefix + text) == Some(DownloadPrefix + LinkPath(text))
  {
    var q := LinkPath(text);
    PrefixPlain();
    LinkPathPlainPrefix(DownloadPrefix, text);
    forall i | 0 <= i < |q|
      ensures q[i] != '%'
    {
      assert q[i] == text[i];
    }
    UnescapePlainPrefix(DownloadPrefix, q);
  }

  /** A list link has no query and no fragment: all of it is path. */
  lemma EscapedLinkIsPath(rel: string)
    ensures LinkPath(DownloadPrefix + PathEscape(rel)) == DownloadPrefix + PathEscape(rel)
  {
    EscapedHasNoDelimiter(rel);
    PrefixPlain();
    LinkPathWhole(PathEscape(rel));
    LinkPathPlainPrefix(DownloadPrefix, PathEscape(rel));
  }

  /**
   * As written: the enabled link of an existing file whose relative path does not decode (a '%'
   * not followed by two hex digits, as in "100%.txt") is answered 400 instead of the file.
   */
  lemma PercentNameLinkRejected(cfg: Config, fs1: FileSystem, fs2: FileSystem, fi: FileInfo)
    requires fi.fileExists
    requires PathUnescape(fi.relPath).None?
    ensures RowAction(fi).Enabled?
    ensures ServerPath(RowAction(fi).href) == Some(DownloadPrefix + fi.relPath)
    ensures Decide(cfg, fs1, fs2, "GET", DownloadPrefix + fi.relPath) == BadEscape
  {
    LinkArrives(fi.relPath);
    assert fi.relPath != [];
  }

  /** The file name "100%.txt" is one such name. */
  lemma PercentNameExample()
    ensures PathUnescape("100%.txt").None?
  {
    var s := "100%.txt";
    PathUnescapeFails(s);
    assert BadPercent(s, 3);
  }

  /**
   * Corrected: decoding once, every enabled row of the list whose target passes the containment
   * test and is openable is served, with that file's name, size and bytes, when the filesystem
   * does not change between the list and the download.
   */
  lemma ListLinksServed(cfg: Config, fs: FileSystem, i: nat)
    requires ValidConfig(cfg)
    requires i < |Descriptors(cfg, fs)|
    requires var fi := Descriptors(cfg, fs)[i];
      fi.fileExists && GuardPasses(cfg.wd, fi.absPath) && OpenableFile(fs, fi.absPath)
    ensures var fi := Descriptors(cfg, fs)[i];
      && RowAction(fi).Enabled?
      && ServerPath(RowAction(fi).href) == Some(DownloadPrefix + fi.relPath)
      && DecideSingleDecode(cfg, fs, fs, "GET", DownloadPrefix + fi.relPath)
         == Serve(fi.fileName, fi.size, fs[fi.absPath].content)
  {
    var fi := Descriptors(cfg, fs)[i];
    DescriptorsShape(cfg, fs);
    LinkArrives(fi.relPath);
    assert fi.relPath != [];
    assert Target(cfg.wd, fi.relPath) == fi.absPath;
    assert Allowed(Descriptors(cfg, fs), fi.absPath);
  }
}
