/**
 * Percent-encoding of one URL path segment, as Go's net/url PathEscape and PathUnescape do it
 * (section 2.1 of RFC 3986). A `char` stands for one byte; characters beyond a byte never occur.
 */
module Escape {
  import opened Common
  import opened Text

  predicate IsHex(c: char)
  {
    '0' <= c <= '9' || 'a' <= c <= 'f' || 'A' <= c <= 'F'
  }

  function Unhex(c: char): (d: nat)
    requires IsHex(c)
    ensures d < 16
  {
    if '0' <= c <= '9' then c as int - '0' as int
    else if 'a' <= c <= 'f' then c as int - 'a' as int + 10
    else c as int - 'A' as int + 10
  }

  /** The upper-case hex digit of `d`, as in "0123456789ABCDEF". */
  function UpperHex(d: nat): (c: char)
    requires d < 16
    ensures IsHex(c) && Unhex(c) == d
  {
    if d < 10 then ('0' as int + d) as char else ('A' as int + d - 10) as char
  }

  /** shouldEscape(c, encodePathSegment): every byte except unreserved ones and ":@&=+$". */
  predicate ShouldEscape(c: char)
  {
    !('a' <= c <= 'z' || 'A' <= c <= 'Z' || '0' <= c <= '9'
      || c == '-' || c == '_' || c == '.' || c == '~'
      || c == '$' || c == '&' || c == '+' || c == ':' || c == '=' || c == '@')
  }

  /** url.PathEscape: every byte that may not appear in a path segment becomes "%XY". */
  function PathEscape(s: string): (r: string)
    ensures |r| >= |s|
  {
    if s == [] then []
    else
      var c := s[0];
      (if ShouldEscape(c) && (c as int) < 256
       then ['%', UpperHex(c as int / 16), UpperHex(c as int % 16)]
       else [c]) + PathEscape(s[1..])
  }

  /**
   * url.PathUnescape: "%XY" becomes the byte 0xXY; it fails (None) on a '%' that is not
   * followed by two hex digits. A '+' stays a '+'.
   */
  function PathUnescape(s: string): (r: Option<string>)
    ensures r.Some? ==> |r.value| <= |s|
    ensures r.Some? && '%' !in s ==> r.value == s
    ensures '%' !in s ==> r.Some?
  {
    if s == [] then Some([])
    else if s[0] == '%' then
      if |s| >= 3 && IsHex(s[1]) && IsHex(s[2]) then
        match PathUnescape(s[3..])
        case None => None
        case Some(rest) => Some([(16 * Unhex(s[1]) + Unhex(s[2])) as char] + rest)
      else None
    else
      match PathUnescape(s[1..])
      case None => None
      case Some(rest) => Some([s[0]] + rest)
  }

  /** Position `i` of `s` holds a '%' that is not followed by two hex digits. */
  predicate BadPercent(s: string, i: nat)
    requires i < |s|
  {
    s[i] == '%' && !(i + 2 < |s| && IsHex(s[i + 1]) && IsHex(s[i + 2]))
  }

  /** A string fails to decode exactly when one of its '%' is not followed by two hex digits. */
  lemma {:induction false} PathUnescapeFails(s: string)
    ensures PathUnescape(s).None? <==> exists i: nat :: i < |s| && BadPercent(s, i)
  {
    if s != [] {
      if s[0] == '%' && |s| >= 3 && IsHex(s[1]) && IsHex(s[2]) {
        PathUnescapeFails(s[3..]);
        BadPercentShift(s, 3);
      } else if s[0] != '%' {
        PathUnescapeFails(s[1..]);
        BadPercentShift(s, 1);
      } else {
        assert BadPercent(s, 0);
      }
    }
  }

  /**
   * When the first `k` bytes hold no bad '%' (a good "%XY" at the front, or one plain byte),
   * `s` has a bad '%' exactly when its suffix from `k` has one.
   */
  lemma BadPercentShift(s: string, k: nat)
    requires k == 1 || k == 3
    requires k <= |s|
    requires k == 1 ==> s[0] != '%'
    requires k == 3 ==> s[0] == '%' && IsHex(s[1]) && IsHex(s[2])
    ensures (exists i: nat :: i < |s| && BadPercent(s, i))
        <==> (exists i: nat :: i < |s[k..]| && BadPercent(s[k..], i))
  {
    var t := s[k..];
    forall i: nat | i < |t|
      ensures BadPercent(t, i) <==> BadPercent(s, i + k)
    {
      assert t[i] == s[i + k];
      if i + 2 < |t| {
        assert t[i + 1] == s[i + k + 1] && t[i + 2] == s[i + k + 2];
      }
    }
    if exists i: nat :: i < |s| && BadPercent(s, i) {
      var i: nat :| i < |s| && BadPercent(s, i);
      assert i >= k;
      assert BadPercent(t, i - k);
    }
  }

  /** The two hex digits PathEscape writes for a byte decode back to that byte. */
  lemma HexPair(c: char)
    requires (c as int) < 256
    ensures (16 * Unhex(UpperHex(c as int / 16)) + Unhex(UpperHex(c as int % 16))) as char == c
  {
  }

  /** Round trip: decoding what PathEscape wrote gives the original string back. */
  lemma {:induction false} UnescapeEscape(s: string)
    ensures PathUnescape(PathEscape(s)) == Some(s)
  {
    if s != [] {
      var c := s[0];
      UnescapeEscape(s[1..]);
      if ShouldEscape(c) && (c as int) < 256 {
        UnescapeHexCons(c, PathEscape(s[1..]));
      } else {
        UnescapeCons(c, PathEscape(s[1..]));
      }
      assert [c] + s[1..] == s;
    }
  }

  /** The "%XY" PathEscape writes for a byte decodes to that byte in front of the rest. */
  lemma UnescapeHexCons(c: char, t: string)
    requires (c as int) < 256 && PathUnescape(t).Some?
    ensures PathUnescape(['%', UpperHex(c as int / 16), UpperHex(c as int % 16)] + t)
         == Some([c] + PathUnescape(t).value)
  {
    var e := ['%', UpperHex(c as int / 16), UpperHex(c as int % 16)] + t;
    assert e[3..] == t;
    HexPair(c);
  }

  /**
   * What PathEscape writes holds no '/', so it stays one path segment, and no '?' or '#', so no
   * part of it is read as a query or a fragment.
   */
  lemma {:induction false} EscapedHasNoDelimiter(s: string)
    ensures '/' !in PathEscape(s)
    ensures '?' !in PathEscape(s) && '#' !in PathEscape(s)
  {
    if s != [] {
      EscapedHasNoDelimiter(s[1..]);
    }
  }

  /** A byte other than '%' decodes to itself in front of the rest. */
  lemma UnescapeCons(c: char, t: string)
    requires c != '%' && PathUnescape(t).Some?
    ensures PathUnescape([c] + t) == Some([c] + PathUnescape(t).value)
  {
    assert ([c] + t)[1..] == t;
  }

  /** A prefix without '%' decodes to itself, in front of whatever the rest decodes to. */
  lemma {:induction false} UnescapePlainPrefix(a: string, b: string)
    requires '%' !in a
    requires PathUnescape(b).Some?
    ensures PathUnescape(a + b) == Some(a + PathUnescape(b).value)
  {
    var x := PathUnescape(b).value;
    if a == [] {
      assert a + b == b;
      assert a + x == x;
    } else {
      var t := a[1..] + b;
      ConsConcat(a, b);
      assert a[0] in a;
      UnescapePlainPrefix(a[1..], b);
      UnescapeCons(a[0], t);
      ConsConcat(a, x);
    }
  }
}
