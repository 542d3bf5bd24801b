/**
 * The command-line handling of `main` (main.go:847-900): the comma-separated -x list is split,
 * trimmed, emptied of blank entries and de-duplicated keeping first occurrences.
 */
module Flags {
  import opened Text

  /** Each piece with its surrounding white space trimmed. */
  function Trimmed(pieces: seq<string>): (ts: seq<string>)
    ensures |ts| == |pieces|
    ensures forall i :: 0 <= i < |pieces| ==> ts[i] == TrimSpace(pieces[i])
  {
    seq(|pieces|, i requires 0 <= i < |pieces| => TrimSpace(pieces[i]))
  }

  /** `xs` without its empty strings, in order. */
  function NonBlank(xs: seq<string>): seq<string>
  {
    if xs == [] then []
    else NonBlank(xs[..|xs| - 1]) + (if xs[|xs| - 1] != [] then [xs[|xs| - 1]] else [])
  }

  /** `xs` with every element after its first occurrence removed. */
  function Dedup(xs: seq<string>): seq<string>
  {
    if xs == [] then []
    else
      var init := xs[..|xs| - 1];
      if xs[|xs| - 1] in init then Dedup(init) else Dedup(init) + [xs[|xs| - 1]]
  }

  /** The allow-list the -x option `x` configures. */
  function MultiFilePaths(x: string): seq<string>
  {
    if x == [] then [] else Dedup(NonBlank(Trimmed(Split(x, ','))))
  }

  /** The index of the first occurrence of `x` in `xs`. */
  function IndexOf(xs: seq<string>, x: string): (k: nat)
    requires x in xs
    ensures k < |xs| && xs[k] == x
    ensures forall j :: 0 <= j < k ==> xs[j] != x
  {
    if xs[0] == x then 0 else 1 + IndexOf(xs[1..], x)
  }

  /** Parsing of -x as the program does it: trim the pieces between commas, then drop repeats. */
  method ParseMultiFilePaths(x: string) returns (paths: seq<string>)
    ensures paths == MultiFilePaths(x)
  {
    paths := [];
    if x != [] {
      paths := TrimPieces(Split(x, ','));
      paths := RemoveDuplicates(paths);
    }
  }

  /** The first loop: append every piece that is not blank once trimmed. */
  method TrimPieces(pieces: seq<string>) returns (paths: seq<string>)
    ensures paths == NonBlank(Trimmed(pieces))
  {
    paths := [];
    ghost var ts := Trimmed(pieces);
    var i := 0;
    while i < |pieces|
      invariant 0 <= i <= |pieces|
      invariant paths == NonBlank(ts[..i])
    {
      var cleanPath := TrimSpace(pieces[i]);
      NonBlankNext(ts, i);
      if cleanPath != [] {
        paths := paths + [cleanPath];
      }
      i := i + 1;
    }
    assert ts[..i] == ts;
  }

  /** Filtering one more element appends it when it is not empty. */
  lemma NonBlankNext(xs: seq<string>, i: nat)
    requires i < |xs|
    ensures NonBlank(xs[..i + 1]) == NonBlank(xs[..i]) + (if xs[i] != [] then [xs[i]] else [])
  {
    assert xs[..i + 1][..i] == xs[..i];
  }

  /** The second loop: keep a path only the first time the map of seen paths does not hold it. */
  method RemoveDuplicates(paths: seq<string>) returns (uniqueList: seq<string>)
    ensures uniqueList == Dedup(paths)
  {
    var uniquePaths: map<string, bool> := map[];
    uniqueList := [];
    var j := 0;
    while j < |paths|
      invariant 0 <= j <= |paths|
      invariant uniqueList == Dedup(paths[..j])
      invariant forall p :: p in uniquePaths <==> p in paths[..j]
      invariant forall p :: p in uniquePaths ==> uniquePaths[p]
    {
      var p := paths[j];
      assert paths[..j + 1][..j] == paths[..j];
      assert paths[..j + 1] == paths[..j] + [p];
      if !(p in uniquePaths && uniquePaths[p]) {
        uniquePaths := uniquePaths[p := true];
        uniqueList := uniqueList + [p];
      }
      j := j + 1;
    }
    assert paths[..j] == paths;
  }

  // ---------------------------------------------------------------------------------------

  lemma {:induction false} DedupMembers(xs: seq<string>)
    ensures forall x :: x in Dedup(xs) <==> x in xs
  {
    if xs != [] {
      var init := xs[..|xs| - 1];
      DedupMembers(init);
      assert xs == init + [xs[|xs| - 1]];
    }
  }

  lemma {:induction false} DedupDistinct(xs: seq<string>)
    ensures forall i, j :: 0 <= i < j < |Dedup(xs)| ==> Dedup(xs)[i] != Dedup(xs)[j]
  {
    if xs != [] {
      var init := xs[..|xs| - 1];
      DedupDistinct(init);
      DedupMembers(init);
    }
  }

  /** The first occurrence is the one position holding `x` with no `x` before it. */
  lemma IndexOfCharacterized(xs: seq<string>, x: string, k: nat)
    requires k < |xs| && xs[k] == x
    requires forall j :: 0 <= j < k ==> xs[j] != x
    ensures IndexOf(xs, x) == k
  {
  }

  lemma IndexOfInit(init: seq<string>, last: string, x: string)
    requires x in init
    ensures IndexOf(init + [last], x) == IndexOf(init, x)
  {
    IndexOfCharacterized(init + [last], x, IndexOf(init, x));
  }

  lemma IndexOfNewLast(init: seq<string>, last: string)
    requires last !in init
    ensures IndexOf(init + [last], last) == |init|
  {
    var xs := init + [last];
    forall j | 0 <= j < |init| ensures xs[j] != last {
      assert xs[j] == init[j];
    }
    IndexOfCharacterized(xs, last, |init|);
  }

  /** Every element of `d` occurs in `xs`, and earlier elements of `d` occur first earlier in `xs`. */
  predicate InFirstOccurrenceOrder(xs: seq<string>, d: seq<string>)
  {
    forall i, j :: 0 <= i < j < |d| ==> d[i] in xs && d[j] in xs && IndexOf(xs, d[i]) < IndexOf(xs, d[j])
  }

  /** De-duplication keeps the first occurrences in their original order. */
  lemma {:induction false} DedupKeepsFirstOrder(xs: seq<string>)
    ensures InFirstOccurrenceOrder(xs, Dedup(xs))
  {
    if xs != [] {
      var n := |xs|;
      var init := xs[..n - 1];
      var last := xs[n - 1];
      DedupKeepsFirstOrder(init);
      assert xs == init + [last];
      if last !in init {
        DedupOrderNew(init, last);
      } else {
        DedupOrderRepeat(init, last);
      }
    }
  }

  lemma DedupOrderNew(init: seq<string>, last: string)
    requires last !in init
    requires InFirstOccurrenceOrder(init, Dedup(init))
    ensures InFirstOccurrenceOrder(init + [last], Dedup(init + [last]))
  {
    var xs := init + [last];
    assert xs[..|xs| - 1] == init;
    var di := Dedup(init);
    assert Dedup(xs) == di + [last];
    DedupMembers(init);
    OrderExtends(init, last, di);
    IndexOfNewLast(init, last);
    forall k | 0 <= k < |di|
      ensures di[k] in xs && IndexOf(xs, di[k]) < IndexOf(xs, last)
    {
      IndexOfInit(init, last, di[k]);
    }
    OrderAppend(xs, di, last);
  }

  lemma DedupOrderRepeat(init: seq<string>, last: string)
    requires last in init
    requires InFirstOccurrenceOrder(init, Dedup(init))
    ensures InFirstOccurrenceOrder(init + [last], Dedup(init + [last]))
  {
    var xs := init + [last];
    assert xs[..|xs| - 1] == init;
    assert Dedup(xs) == Dedup(init);
    DedupMembers(init);
    OrderExtends(init, last, Dedup(init));
  }

  /** An order stated against `init` still holds against `init` extended by one element. */
  lemma OrderExtends(init: seq<string>, last: string, d: seq<string>)
    requires InFirstOccurrenceOrder(init, d)
    requires forall k :: 0 <= k < |d| ==> d[k] in init
    ensures InFirstOccurrenceOrder(init + [last], d)
  {
    forall i, j | 0 <= i < j < |d|
      ensures d[i] in init + [last] && d[j] in init + [last]
      ensures IndexOf(init + [last], d[i]) < IndexOf(init + [last], d[j])
    {
      IndexOfInit(init, last, d[i]);
      IndexOfInit(init, last, d[j]);
    }
  }

  /** Appending an element that first occurs after every element of `d` keeps the order. */
  lemma OrderAppend(xs: seq<string>, d: seq<string>, x: string)
    requires InFirstOccurrenceOrder(xs, d)
    requires x in xs
    requires forall k :: 0 <= k < |d| ==> d[k] in xs && IndexOf(xs, d[k]) < IndexOf(xs, x)
    ensures InFirstOccurrenceOrder(xs, d + [x])
  {
    var e := d + [x];
    forall i, j | 0 <= i < j < |e|
      ensures e[i] in xs && e[j] in xs && IndexOf(xs, e[i]) < IndexOf(xs, e[j])
    {
      assert e[i] == d[i];
      if j < |d| {
        assert e[j] == d[j];
      }
    }
  }

  lemma {:induction false} NonBlankMembers(xs: seq<string>)
    ensures forall t :: t in NonBlank(xs) <==> t != [] && t in xs
  {
    if xs != [] {
      var init := xs[..|xs| - 1];
      NonBlankMembers(init);
      assert xs == init + [xs[|xs| - 1]];
    }
  }

  /** The -x allow-list has no blank entry. */
  lemma MultiFilePathsNonBlank(x: string)
    ensures forall i :: 0 <= i < |MultiFilePaths(x)| ==> MultiFilePaths(x)[i] != []
  {
    if x != [] {
      var nb := NonBlank(Trimmed(Split(x, ',')));
      NonBlankMembers(Trimmed(Split(x, ',')));
      DedupMembers(nb);
      var r := MultiFilePaths(x);
      forall i | 0 <= i < |r| ensures r[i] != [] {
        assert r[i] in nb;
      }
    }
  }

  /** The -x allow-list names no path twice. */
  lemma MultiFilePathsDistinct(x: string)
    ensures forall i, j :: 0 <= i < j < |MultiFilePaths(x)| ==> MultiFilePaths(x)[i] != MultiFilePaths(x)[j]
  {
    if x != [] {
      DedupDistinct(NonBlank(Trimmed(Split(x, ','))));
    }
  }

  /** The -x allow-list holds exactly the non-blank trimmed pieces between commas. */
  lemma MultiFilePathsMembers(x: string)
    ensures forall t :: t in MultiFilePaths(x) <==> t != [] && exists p :: p in Split(x, ',') && TrimSpace(p) == t
  {
    var pieces := Split(x, ',');
    var ts := Trimmed(pieces);
    if x == [] {
      assert pieces == [[]];
      assert ts == [[]];
    } else {
      var nb := NonBlank(ts);
      NonBlankMembers(ts);
      DedupMembers(nb);
    }
    forall t ensures t in ts <==> exists p :: p in pieces && TrimSpace(p) == t {
      if t in ts {
        var i :| 0 <= i < |ts| && ts[i] == t;
        assert pieces[i] in pieces;
      }
      if exists p :: p in pieces && TrimSpace(p) == t {
        var p :| p in pieces && TrimSpace(p) == t;
        var i :| 0 <= i < |pieces| && pieces[i] == p;
        assert ts[i] == t;
      }
    }
  }

  /** The -x allow-list lists its paths in the order in which they first occur among the trimmed pieces. */
  lemma MultiFilePathsFirstOrder(x: string)
    ensures InFirstOccurrenceOrder(NonBlank(Trimmed(Split(x, ','))), MultiFilePaths(x))
  {
    if x != [] {
      var nb := NonBlank(Trimmed(Split(x, ',')));
      assert MultiFilePaths(x) == Dedup(nb);
      DedupKeepsFirstOrder(nb);
    }
  }

  lemma {:induction false} NonBlankOfBlanks(xs: seq<string>)
    requires forall i :: 0 <= i < |xs| ==> xs[i] == []
    ensures NonBlank(xs) == []
  {
    if xs != [] {
      NonBlankOfBlanks(xs[..|xs| - 1]);
    }
  }

  lemma {:induction false} SplitOfSeparatorsAndSpaces(s: string, sep: char)
    requires sep != ' '
    requires forall i :: 0 <= i < |s| ==> s[i] == sep || s[i] == ' '
    ensures forall i, k :: 0 <= i < |Split(s, sep)| && 0 <= k < |Split(s, sep)[i]| ==> Split(s, sep)[i][k] == ' '
  {
    if s != [] {
      SplitOfSeparatorsAndSpaces(s[1..], sep);
    }
  }

  /** An -x value made only of commas and spaces configures no file. */
  lemma OnlySeparatorsConfigureNothing(x: string)
    requires forall i :: 0 <= i < |x| ==> x[i] == ',' || x[i] == ' '
    ensures MultiFilePaths(x) == []
  {
    if x != [] {
      var pieces := Split(x, ',');
      SplitOfSeparatorsAndSpaces(x, ',');
      var ts := Trimmed(pieces);
      forall i | 0 <= i < |pieces| ensures ts[i] == [] {
        TrimAllSpaces(pieces[i]);
      }
      NonBlankOfBlanks(ts);
    }
  }
}
