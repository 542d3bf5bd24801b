/**
 * formatFileSize (main.go:513-524): a byte count below 1024 is written "%d B"; a larger one is
 * divided by the largest power of 1024 that does not exceed it and written with one decimal
 * and the unit letter "KMGTPE"[exp]. The division itself is floating point and is not modelled:
 * the label keeps the divisor and the unit letter the integer loop chooses.
 */
module Sizes {
  import opened Common
  import opened Text

  const Units: string := "KMGTPE"

  /** "%d B" of `bytes`, or `bytes`/`div` printed as "%.1f" followed by `unit` and "B". */
  datatype SizeLabel = Whole(bytes: int) | Scaled(bytes: int, div: int, unit: char)

  /** 1024 to the power `k`. */
  function Pow(k: nat): (r: nat)
    ensures r >= 1
  {
    if k == 0 then 1 else 1024 * Pow(k - 1)
  }

  /** How many times `n` can be divided by 1024 before it drops below 1024. */
  function Log(n: nat): nat
  {
    if n < 1024 then 0 else 1 + Log(n / 1024)
  }

  /** "%d" of a signed number. */
  function SignedDecimal(n: int): string
  {
    if n < 0 then "-" + Decimal(-n) else Decimal(n)
  }

  /** The text of a small size; a scaled size's text needs the float quotient and is left out. */
  function WholeText(l: SizeLabel): string
    requires l.Whole?
  {
    SignedDecimal(l.bytes) + " B"
  }

  /**
   * The label formatFileSize chooses, stated without its loop: below 1024 (negative counts
   * included) the count itself, otherwise the power of 1024 that `Log` picks.
   */
  function Label(bytes: int): (r: SizeLabel)
    requires bytes <= MaxInt64
  {
    if bytes < 1024 then Whole(bytes)
    else
      var e := Log(bytes / 1024);
      ExponentBound(bytes);
      Scaled(bytes, Pow(e + 1), Units[e])
  }

  /** formatFileSize: divide by 1024 while the quotient is still at least 1024, counting the steps. */
  method FormatFileSize(bytes: int64) returns (size: SizeLabel)
    ensures size == Label(bytes as int)
  {
    if bytes < 1024 {
      return Whole(bytes as int);
    }
    var div: int64, exp: nat := 1024, 0;
    var n: int64 := bytes / 1024;
    ghost var L := Log(bytes as int / 1024);
    while n >= 1024
      invariant 1 <= n
      invariant div as int == Pow(exp + 1)
      invariant div as int * n as int <= bytes as int < div as int * (n as int + 1)
      invariant exp + Log(n as int) == L
      decreases n
    {
      DivideStep(div as int, n as int, bytes as int);
      div := div * 1024;
      exp := exp + 1;
      n := n / 1024;
    }
    ExponentBound(bytes as int);
    size := Scaled(bytes as int, div as int, Units[exp]);
  }

  /** One turn of the loop keeps the quotient bracket and cannot overflow `div`. */
  lemma DivideStep(div: int, n: int, bytes: int)
    requires div >= 1 && n >= 1024
    requires div * n <= bytes < div * (n + 1)
    ensures div * 1024 <= bytes
    ensures (div * 1024) * (n / 1024) <= bytes < (div * 1024) * (n / 1024 + 1)
  {
    var m := n / 1024;
    MulMonotone(div, 1024, n);
    MulMonotone(div, 1024 * m, n);
    MulMonotone(div, n + 1, 1024 * (m + 1));
    assert div * (1024 * m) == (div * 1024) * m;
    assert div * (1024 * (m + 1)) == (div * 1024) * (m + 1);
  }

  lemma MulMonotone(a: int, b: int, c: int)
    requires a >= 0 && b <= c
    ensures a * b <= a * c
  {
  }

  // ---------------------------------------------------------------------------------------

  lemma {:induction false} LogBounds(n: nat)
    requires n >= 1
    ensures Pow(Log(n)) <= n < Pow(Log(n) + 1)
    decreases n
  {
    if n >= 1024 {
      var m := n / 1024;
      LogBounds(m);
      var L := Log(m);
      assert Log(n) == L + 1;
      MulMonotone(1024, Pow(L), m);
      MulMonotone(1024, m + 1, Pow(L + 1));
    }
  }

  lemma {:induction false} PowGrows(j: nat, k: nat)
    requires j <= k
    ensures Pow(j) <= Pow(k)
    decreases k
  {
    if j < k {
      PowGrows(j, k - 1);
    }
  }

  /**
   * For a count of at least 1024 that fits an int64, the chosen power of 1024 does not exceed
   * the count, the next one does, and the unit index stays within "KMGTPE".
   */
  lemma ExponentBound(bytes: int)
    requires 1024 <= bytes <= MaxInt64
    ensures var e := Log(bytes / 1024);
      e <= 5 && Pow(e + 1) <= bytes < Pow(e + 2)
  {
    var m := bytes / 1024;
    var e := Log(m);
    LogBounds(m);
    MulMonotone(1024, Pow(e), m);
    MulMonotone(1024, m + 1, Pow(e + 1));
  }

  /**
   * The unit is the one power of 1024 that brackets the count: whenever 1024^k <= bytes < 1024^(k+1)
   * with k >= 1, the label divides by 1024^k and names unit letter k.
   */
  lemma LabelUnique(bytes: int, k: nat)
    requires 1 <= k <= 6 && bytes <= MaxInt64
    requires Pow(k) <= bytes < Pow(k + 1)
    ensures Label(bytes) == Scaled(bytes, Pow(k), Units[k - 1])
  {
    PowGrows(1, k);
    var e := Log(bytes / 1024);
    ExponentBound(bytes);
    if e + 1 < k {
      PowGrows(e + 2, k);
    } else if e + 1 > k {
      PowGrows(k + 1, e + 1);
    }
  }

  /** A count below 1024, negative ones included, is written as "<bytes> B". */
  lemma SmallSizeText(bytes: int)
    requires bytes < 1024
    ensures Label(bytes).Whole?
    ensures WholeText(Label(bytes)) == SignedDecimal(bytes) + " B"
  {
  }
}
