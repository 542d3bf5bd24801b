/**
 * The byte-string operations of Go's `strings` and `strconv` packages that the server uses.
 * A Go string is a sequence of bytes; here each `char` of a `string` stands for one byte.
 */
module Text {

  predicate HasPrefix(s: string, prefix: string)
  {
    |prefix| <= |s| && s[..|prefix|] == prefix
  }

  /** strings.TrimPrefix: `s` without `prefix` when it starts with it, else `s` unchanged. */
  function TrimPrefix(s: string, prefix: string): (r: string)
    ensures HasPrefix(s, prefix) ==> prefix + r == s
    ensures !HasPrefix(s, prefix) ==> r == s
  {
    if HasPrefix(s, prefix) then s[|prefix|..] else s
  }

  /** strings.Split with a one-byte separator: the pieces between separators, always at least one. */
  function Split(s: string, sep: char): (r: seq<string>)
    ensures |r| >= 1
    ensures forall i :: 0 <= i < |r| ==> sep !in r[i]
  {
    if s == [] then [[]]
    else
      var rest := Split(s[1..], sep);
      if s[0] == sep then [[]] + rest
      else [[s[0]] + rest[0]] + rest[1..]
  }

  /** strings.Join: the parts with `sep` between consecutive ones. */
  function Join(parts: seq<string>, sep: string): string
  {
    if |parts| == 0 then []
    else if |parts| == 1 then parts[0]
    else parts[0] + sep + Join(parts[1..], sep)
  }

  /** Concatenation seen from the first element of a non-empty left operand. */
  lemma ConsConcat<T>(a: seq<T>, b: seq<T>)
    requires a != []
    ensures a + b == [a[0]] + (a[1..] + b)
  {
  }

  lemma {:induction false} SplitNoSeparator(s: string, sep: char)
    requires sep !in s
    ensures Split(s, sep) == [s]
  {
    if s != [] {
      SplitNoSeparator(s[1..], sep);
      assert [s[0]] + s[1..] == s;
    }
  }

  /** Splitting around one separator splits each side independently. */
  lemma SplitAppend(a: string, sep: char, b: string)
    ensures Split(a + [sep] + b, sep) == Split(a, sep) + Split(b, sep)
  {
    SplitBeforeSeparator(a, [sep] + b, sep);
    assert a + [sep] + b == a + ([sep] + b);
    assert ([sep] + b)[1..] == b;
  }

  /** When `t` starts with the separator, the pieces of `a + t` are those of `a` followed by those after it. */
  lemma {:induction false} SplitBeforeSeparator(a: string, t: string, sep: char)
    requires t != [] && t[0] == sep
    ensures Split(a + t, sep) == Split(a, sep) + Split(t[1..], sep)
  {
    if a == [] {
      assert a + t == t;
    } else {
      assert (a + t)[0] == a[0];
      assert (a + t)[1..] == a[1..] + t;
      SplitBeforeSeparator(a[1..], t, sep);
    }
  }

  lemma JoinFirst(parts: seq<string>, sep: string)
    requires |parts| >= 1
    ensures HasPrefix(Join(parts, sep), parts[0])
  {
  }

  lemma {:induction false} JoinAppend(xs: seq<string>, ys: seq<string>, sep: string)
    requires |xs| >= 1 && |ys| >= 1
    ensures Join(xs + ys, sep) == Join(xs, sep) + sep + Join(ys, sep)
  {
    if |xs| == 1 {
      assert (xs + ys)[1..] == ys;
    } else {
      assert (xs + ys)[1..] == xs[1..] + ys;
      JoinAppend(xs[1..], ys, sep);
    }
  }

  /** Round trip: joining pieces that hold no separator and splitting again gives the pieces back. */
  lemma {:induction false} SplitJoin(parts: seq<string>, sep: char)
    requires |parts| >= 1
    requires forall i :: 0 <= i < |parts| ==> sep !in parts[i]
    ensures Split(Join(parts, [sep]), sep) == parts
  {
    if |parts| == 1 {
      SplitNoSeparator(parts[0], sep);
    } else {
      SplitJoin(parts[1..], sep);
      SplitNoSeparator(parts[0], sep);
      SplitAppend(parts[0], sep, Join(parts[1..], [sep]));
    }
  }

  /** Round trip: splitting and joining again with the same separator gives the string back. */
  lemma {:induction false} JoinSplit(s: string, sep: char)
    ensures Join(Split(s, sep), [sep]) == s
  {
    if s != [] {
      JoinSplit(s[1..], sep);
      var rest := Split(s[1..], sep);
      if s[0] == sep {
        assert ([[]] + rest)[1..] == rest;
      } else if |rest| == 1 {
        assert [s[0]] + s[1..] == s;
      } else {
        var r := [[s[0]] + rest[0]] + rest[1..];
        assert r[1..] == rest[1..];
        assert rest == [rest[0]] + rest[1..];
        assert Join(rest, [sep]) == rest[0] + [sep] + Join(rest[1..], [sep]);
        assert [s[0]] + s[1..] == s;
      }
    }
  }

  /** The decimal digits of `n`, as strconv.Itoa writes a non-negative number. */
  function Decimal(n: nat): (r: string)
    ensures |r| >= 1
    ensures forall i :: 0 <= i < |r| ==> '0' <= r[i] <= '9'
    decreases n
  {
    if n < 10 then [Digit(n)] else Decimal(n / 10) + [Digit(n % 10)]
  }

  function Digit(d: nat): (c: char)
    requires d < 10
    ensures '0' <= c <= '9' && c as int - '0' as int == d
  {
    ('0' as int + d) as char
  }

  /** The value the digits of `s` spell in base 10. */
  function DecimalValue(s: string): nat
    requires forall i :: 0 <= i < |s| ==> '0' <= s[i] <= '9'
  {
    if s == [] then 0 else 10 * DecimalValue(s[..|s| - 1]) + (s[|s| - 1] as int - '0' as int)
  }

  /** Reading back the digits Decimal writes gives the number again. */
  lemma {:induction false} DecimalRoundTrip(n: nat)
    ensures DecimalValue(Decimal(n)) == n
    decreases n
  {
    var r := Decimal(n);
    if n >= 10 {
      DecimalRoundTrip(n / 10);
      assert r[..|r| - 1] == Decimal(n / 10);
    } else {
      assert r[..0] == [];
    }
  }
  /** The white-space bytes strings.TrimSpace removes without decoding UTF-8. */
  predicate AsciiSpace(c: char)
  {
    c == ' ' || c == '\t' || c == '\n' || c == '\U{0B}' || c == '\U{0C}' || c == '\r'
  }

  /**
   * Whether the bytes s[i..j] are the UTF-8 encoding of a Unicode white-space rune
   * (unicode.IsSpace): U+0009-000D, U+0020, U+0085, U+00A0, U+1680, U+2000-200A, U+2028,
   * U+2029, U+202F, U+205F, U+3000.
   */
  predicate SpaceRune(s: string, i: nat, j: nat)
    requires i <= j <= |s|
  {
    || (j - i == 1 && AsciiSpace(s[i]))
    || (j - i == 2 && s[i] == '\U{C2}' && (s[i + 1] == '\U{85}' || s[i + 1] == '\U{A0}'))
    || (j - i == 3 && s[i] == '\U{E1}' && s[i + 1] == '\U{9A}' && s[i + 2] == '\U{80}')
    || (j - i == 3 && s[i] == '\U{E2}' && s[i + 1] == '\U{80}'
        && ('\U{80}' <= s[i + 2] <= '\U{8A}' || s[i + 2] == '\U{A8}' || s[i + 2] == '\U{A9}'
            || s[i + 2] == '\U{AF}'))
    || (j - i == 3 && s[i] == '\U{E2}' && s[i + 1] == '\U{81}' && s[i + 2] == '\U{9F}')
    || (j - i == 3 && s[i] == '\U{E3}' && s[i + 1] == '\U{80}' && s[i + 2] == '\U{80}')
  }

  /** The length of the white-space rune `s` starts with, or 0 when it starts with none. */
  function LeadingSpace(s: string): (n: nat)
    ensures n <= |s|
    ensures n > 0 ==> SpaceRune(s, 0, n)
    ensures n == 0 ==> forall k :: 1 <= k <= 3 && k <= |s| ==> !SpaceRune(s, 0, k)
  {
    if |s| >= 1 && SpaceRune(s, 0, 1) then 1
    else if |s| >= 2 && SpaceRune(s, 0, 2) then 2
    else if |s| >= 3 && SpaceRune(s, 0, 3) then 3
    else 0
  }

  /** The length of the white-space rune `s` ends with, or 0 when it ends with none. */
  function TrailingSpace(s: string): (n: nat)
    ensures n <= |s|
    ensures n > 0 ==> SpaceRune(s, |s| - n, |s|)
    ensures n == 0 ==> forall j :: 0 <= j < |s| && |s| - j <= 3 ==> !SpaceRune(s, j, |s|)
  {
    if |s| >= 1 && SpaceRune(s, |s| - 1, |s|) then 1
    else if |s| >= 2 && SpaceRune(s, |s| - 2, |s|) then 2
    else if |s| >= 3 && SpaceRune(s, |s| - 3, |s|) then 3
    else 0
  }

  function TrimLeftSpace(s: string): string
    decreases |s|
  {
    var n := LeadingSpace(s);
    if n == 0 then s else TrimLeftSpace(s[n..])
  }

  function TrimRightSpace(s: string): string
    decreases |s|
  {
    var n := TrailingSpace(s);
    if n == 0 then s else TrimRightSpace(s[..|s| - n])
  }

  /** strings.TrimSpace: `s` without the white-space runes at either end. */
  function TrimSpace(s: string): string
  {
    TrimRightSpace(TrimLeftSpace(s))
  }

  /** `w` is a run of white-space runes, read from the front. */
  predicate LeadingRun(w: string)
    decreases |w|
  {
    w == [] || (LeadingSpace(w) > 0 && LeadingRun(w[LeadingSpace(w)..]))
  }

  /** `w` is a run of white-space runes, read from the back. */
  predicate TrailingRun(w: string)
    decreases |w|
  {
    w == [] || (TrailingSpace(w) > 0 && TrailingRun(w[..|w| - TrailingSpace(w)]))
  }

  /**
   * strings.TrimSpace removes exactly white space from both ends: the result is a slice
   * s[a..b] of `s`, and what precedes it and what follows it are runs of white-space runes.
   * Together with TrimSpaceEnds, which says that nothing of that kind is left at either end.
   */
  lemma {:induction false} TrimSpaceShape(s: string) returns (a: nat, b: nat)
    ensures a <= b <= |s| && TrimSpace(s) == s[a..b]
    ensures LeadingRun(s[..a]) && TrailingRun(s[b..])
  {
    a := TrimLeftShape(s);
    assert TrimSpace(s) == TrimRightSpace(s[a..]);
    var k := TrimRightShape(s[a..]);
    b := a + k;
    SuffixParts(s, a, k, b, TrimSpace(s));
  }

  /** Re-indexes the pieces of the suffix s[a..] around its `k`-th character, at `b`, into `s`. */
  lemma SuffixParts(s: string, a: nat, k: nat, b: nat, t: string)
    requires b == a + k <= |s|
    requires t == s[a..][..k] && TrailingRun(s[a..][k..])
    ensures t == s[a..b] && TrailingRun(s[b..])
  {
    assert s[a..][..k] == s[a..b];
    assert s[a..][k..] == s[b..];
  }

  /** TrimSpace leaves no white-space rune at either end. */
  lemma {:induction false} TrimSpaceEnds(s: string)
    ensures LeadingSpace(TrimSpace(s)) == 0 && TrailingSpace(TrimSpace(s)) == 0
  {
    var a := TrimLeftShape(s);
    assert TrimSpace(s) == TrimRightSpace(s[a..]);
    var k := TrimRightShape(s[a..]);
    LeadingSpaceOfPrefix(s[a..], k);
  }

  /** TrimLeftSpace drops a leading run of white-space runes and leaves none at the front. */
  lemma {:induction false} TrimLeftShape(s: string) returns (a: nat)
    ensures a <= |s| && TrimLeftSpace(s) == s[a..]
    ensures LeadingRun(s[..a]) && LeadingSpace(s[a..]) == 0
    decreases |s|
  {
    var n := LeadingSpace(s);
    if n > 0 {
      var rest := s[n..];
      assert TrimLeftSpace(s) == TrimLeftSpace(rest);
      var c := TrimLeftShape(rest);
      a := n + c;
      DropOfDrop(s, n, c, a);
      LeadingRunExtend(s, n, c, a);
    } else {
      a := 0;
      assert s[..0] == [];
    }
  }

  /** Dropping `n` characters of `s` and then `c` more is dropping `a = n + c`. */
  lemma DropOfDrop(s: string, n: nat, c: nat, a: nat)
    requires a == n + c <= |s|
    ensures s[n..][c..] == s[a..]
  {
  }

  /** A leading run after the first white-space rune of `s` extends back over that rune. */
  lemma LeadingRunExtend(s: string, n: nat, c: nat, a: nat)
    requires n == LeadingSpace(s) > 0 && a == n + c <= |s|
    requires LeadingRun(s[n..][..c])
    ensures LeadingRun(s[..a])
  {
    LeadingSpaceOfPrefix(s, a);
    assert s[..a][n..] == s[n..][..c];
  }

  /** Cutting `s` short after its leading white-space rune leaves that rune in place. */
  lemma LeadingSpaceOfPrefix(s: string, m: nat)
    requires LeadingSpace(s) <= m <= |s|
    ensures LeadingSpace(s[..m]) == LeadingSpace(s)
  {
    var w := s[..m];
    forall i | 0 <= i < |w|
      ensures w[i] == s[i]
    {
    }
  }

  /** Dropping a front of `s` before its trailing white-space rune leaves that rune in place. */
  lemma TrailingSpaceOfSuffix(s: string, j: nat)
    requires j <= |s| - TrailingSpace(s)
    ensures TrailingSpace(s[j..]) == TrailingSpace(s)
  {
    var w := s[j..];
    forall i | 0 <= i < |w|
      ensures w[i] == s[j + i]
    {
    }
  }

  /** TrimRightSpace drops a trailing run of white-space runes and leaves none at the end. */
  lemma {:induction false} TrimRightShape(s: string) returns (b: nat)
    ensures b <= |s| && TrimRightSpace(s) == s[..b]
    ensures TrailingRun(s[b..]) && TrailingSpace(s[..b]) == 0
    decreases |s|
  {
    var n := TrailingSpace(s);
    if n > 0 {
      var rest := s[..|s| - n];
      assert TrimRightSpace(s) == TrimRightSpace(rest);
      b := TrimRightShape(rest);
      PrefixOfPrefix(s, |s| - n, b);
      TrailingRunExtend(s, n, b);
    } else {
      b := |s|;
      assert s[..|s|] == s;
      assert s[|s|..] == [];
    }
  }

  /** Cutting `s` at `m` and then at `b <= m` is cutting it at `b`. */
  lemma PrefixOfPrefix(s: string, m: nat, b: nat)
    requires b <= m <= |s|
    ensures s[..m][..b] == s[..b]
  {
  }

  /** A trailing run that reaches the last white-space rune of `s` extends over that rune. */
  lemma TrailingRunExtend(s: string, n: nat, b: nat)
    requires n == TrailingSpace(s) > 0 && b <= |s| - n
    requires TrailingRun(s[..|s| - n][b..])
    ensures TrailingRun(s[b..])
  {
    TrailingSpaceOfSuffix(s, b);
    assert s[b..][..|s| - b - n] == s[..|s| - n][b..];
  }

  /** A string made only of spaces trims to nothing. */
  lemma {:induction false} TrimAllSpaces(s: string)
    requires forall i :: 0 <= i < |s| ==> s[i] == ' '
    ensures TrimSpace(s) == []
    decreases |s|
  {
    if s != [] {
      assert SpaceRune(s, 0, 1);
      TrimAllSpaces(s[1..]);
    }
  }
}
