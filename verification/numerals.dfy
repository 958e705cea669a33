/** Decimal notation of natural numbers, as `Number.prototype.toString`
    produces it for the non-negative integers the roller prints, and its
    inverse. */
module Numerals {

  predicate IsDigit(c: char) {
    '0' <= c <= '9'
  }

  predicate AllDigits(s: string) {
    forall i :: 0 <= i < |s| ==> IsDigit(s[i])
  }

  function DigitChar(d: nat): (c: char)
    requires d < 10
    ensures IsDigit(c)
  {
    (48 + d) as char
  }

  function DigitValue(c: char): (d: nat)
    requires IsDigit(c)
    ensures d < 10 && DigitChar(d) == c
  {
    c as int - 48
  }

  /** Digits as `toString` prints them: at least one, and no leading zero
      unless the number is 0 itself. */
  predicate Canonical(s: string) {
    |s| > 0 && AllDigits(s) && (s[0] == '0' ==> |s| == 1)
  }

  /** The decimal digits of `n`, most significant first, without leading zeros. */
  function FromNat(n: nat): (s: string)
    ensures Canonical(s)
    ensures s[0] == '0' ==> n == 0
    decreases n
  {
    if n < 10 then [DigitChar(n)] else FromNat(n / 10) + [DigitChar(n % 10)]
  }

  /** The value of a string of decimal digits (0 for the empty string). */
  function ToNat(s: string): nat
    requires AllDigits(s)
  {
    if |s| == 0 then 0 else ToNat(s[..|s| - 1]) * 10 + DigitValue(s[|s| - 1])
  }

  /** Reading back the printed digits gives the number. */
  lemma {:induction false} ToNatFromNat(n: nat)
    ensures ToNat(FromNat(n)) == n
    decreases n
  {
    if n >= 10 {
      var s := FromNat(n);
      assert s[..|s| - 1] == FromNat(n / 10);
      ToNatFromNat(n / 10);
    }
  }

  /** Canonical digits are exactly what printing their value gives back. */
  lemma {:induction false} FromNatToNat(s: string)
    requires Canonical(s)
    ensures FromNat(ToNat(s)) == s
    decreases |s|
  {
    if |s| > 1 {
      var p := s[..|s| - 1];
      assert Canonical(p);
      ToNatLeading(p);
      FromNatToNat(p);
      var n := ToNat(s);
      assert n / 10 == ToNat(p) && n % 10 == DigitValue(s[|s| - 1]);
      assert s == p + [s[|s| - 1]];
    }
  }

  /** A number is at least its leading digit. */
  lemma {:induction false} ToNatLeading(s: string)
    requires |s| > 0 && AllDigits(s)
    ensures ToNat(s) >= DigitValue(s[0])
    decreases |s|
  {
    if |s| > 1 {
      ToNatLeading(s[..|s| - 1]);
    }
  }

  /** Printing is injective: distinct numbers print differently. */
  lemma FromNatInjective(m: nat, n: nat)
    ensures FromNat(m) == FromNat(n) ==> m == n
  {
    ToNatFromNat(m);
    ToNatFromNat(n);
  }

  /** Splits `s` into its longest all-digit prefix and the rest. */
  function SplitDigits(s: string): (p: (string, string))
    ensures p.0 + p.1 == s && AllDigits(p.0)
    ensures |p.1| == 0 || !IsDigit(p.1[0])
  {
    if |s| > 0 && IsDigit(s[0]) then
      var (d, r) := SplitDigits(s[1..]);
      assert [s[0]] + d + r == [s[0]] + s[1..] == s;
      ([s[0]] + d, r)
    else
      ([], s)
  }

  /** A digit string followed by a non-digit (or nothing) splits back into the two. */
  lemma {:induction false} SplitDigitsOf(w: string, t: string)
    requires AllDigits(w)
    requires |t| == 0 || !IsDigit(t[0])
    ensures SplitDigits(w + t) == (w, t)
  {
    if |w| > 0 {
      assert (w + t)[1..] == w[1..] + t;
      SplitDigitsOf(w[1..], t);
      assert [w[0]] + w[1..] == w;
    } else {
      assert w + t == t;
    }
  }
}
