/** File names of the screenshots: `screenshot_` + the screenshot number in
    decimal, left-padded with zeros to at least three digits, + `.jpg`
    (the format spec `{n:03d}` applied to a non-negative integer).
 */
module Naming {

  datatype Option<T> = None | Some(value: T)

  const Prefix: string := "screenshot_"
  const Suffix: string := ".jpg"
  /** Minimum number of digits of the number part. */
  const Width: nat := 3

  predicate IsDigit(c: char) {
    '0' <= c <= '9'
  }

  predicate AllDigits(s: string) {
    forall i :: 0 <= i < |s| ==> IsDigit(s[i])
  }

  function DigitValue(c: char): nat
    requires IsDigit(c)
  {
    c as int - '0' as int
  }

  function DigitChar(d: nat): (c: char)
    requires d < 10
    ensures IsDigit(c) && DigitValue(c) == d
  {
    ('0' as int + d) as char
  }

  /** The value of a string of decimal digits, most significant first;
      leading zeros are allowed. */
  function Value(s: string): nat
    requires AllDigits(s)
  {
    if s == [] then 0 else 10 * Value(s[..|s| - 1]) + DigitValue(s[|s| - 1])
  }

  /** The shortest decimal numeral of `n`. */
  function Decimal(n: nat): (s: string)
    ensures |s| >= 1 && AllDigits(s)
    ensures |s| == 1 <==> n < 10
    decreases n
  {
    if n < 10 then [DigitChar(n)] else Decimal(n / 10) + [DigitChar(n % 10)]
  }

  function Zeros(m: nat): (z: string)
  {
    seq(m, _ => '0')
  }

  /** Left-pads `s` with '0' up to `width` characters; a longer `s` is kept whole. */
  function PadLeft(s: string, width: nat): (r: string)
    ensures |r| == if |s| >= width then |s| else width
    ensures AllDigits(s) ==> AllDigits(r)
  {
    if |s| >= width then s else Zeros(width - |s|) + s
  }

  /** `n` formatted with `{n:03d}`. */
  function Padded(n: nat): (p: string)
    ensures |p| >= Width && AllDigits(p)
  {
    PadLeft(Decimal(n), Width)
  }

  /** The name of the file that screenshot number `n` is written to. */
  function ScreenshotName(n: nat): string
  {
    Prefix + Padded(n) + Suffix
  }

  /** Reads the screenshot number back out of a file name, if it has the
      shape `screenshot_DDD….jpg`. */
  function ParseScreenshotName(s: string): Option<nat>
  {
    if |s| < |Prefix| + Width + |Suffix| then None
    else if s[..|Prefix|] != Prefix || s[|s| - |Suffix|..] != Suffix then None
    else
      var digits := s[|Prefix|..|s| - |Suffix|];
      if AllDigits(digits) then Some(Value(digits)) else None
  }

  /** Leading zeros do not change the value of a numeral. */
  lemma {:induction false} ValueAfterZeros(m: nat, s: string)
    requires AllDigits(s)
    ensures AllDigits(Zeros(m) + s)
    ensures Value(Zeros(m) + s) == Value(s)
    decreases |s|
  {
    var t := Zeros(m) + s;
    assert forall i :: 0 <= i < |t| ==> t[i] == if i < m then '0' else s[i - m];
    if s == [] {
      assert t == Zeros(m);
      ValueOfZeros(m);
    } else {
      var s' := s[..|s| - 1];
      assert t[..|t| - 1] == Zeros(m) + s';
      ValueAfterZeros(m, s');
    }
  }

  lemma {:induction false} ValueOfZeros(m: nat)
    ensures AllDigits(Zeros(m))
    ensures Value(Zeros(m)) == 0
  {
    if m > 0 {
      assert Zeros(m)[..m - 1] == Zeros(m - 1);
      ValueOfZeros(m - 1);
    }
  }

  /** `Decimal` is the numeral of its argument, without leading zero. */
  lemma {:induction false} DecimalValue(n: nat)
    ensures Value(Decimal(n)) == n
    ensures n >= 10 ==> Decimal(n)[0] != '0'
    decreases n
  {
    if n >= 10 {
      var s := Decimal(n);
      assert s[..|s| - 1] == Decimal(n / 10);
      DecimalValue(n / 10);
    }
  }

  /** Padding with zeros keeps the value of a numeral. */
  lemma PadLeftValue(s: string, width: nat)
    requires AllDigits(s)
    ensures Value(PadLeft(s, width)) == Value(s)
  {
    if |s| < width {
      ValueAfterZeros(width - |s|, s);
    }
  }

  /** The padded number part reads back as the number. */
  lemma PaddedValue(n: nat)
    ensures Value(Padded(n)) == n
  {
    DecimalValue(n);
    PadLeftValue(Decimal(n), Width);
  }

  /** For numbers below 1000 the number part is exactly three digits:
      hundreds, tens, units. */
  lemma PaddedBelowThousand(n: nat)
    requires n < 1000
    ensures Padded(n) == [DigitChar(n / 100), DigitChar(n / 10 % 10), DigitChar(n % 10)]
  {
    var h, t, u := n / 100, n / 10 % 10, n % 10;
    if n < 10 {
      assert h == 0 && t == 0 && u == n;
      assert Decimal(n) == [DigitChar(u)];
      assert Zeros(2) == [DigitChar(0), DigitChar(0)];
    } else if n < 100 {
      assert h == 0 && t == n / 10 && t < 10;
      assert Decimal(t) == [DigitChar(t)];
      assert Decimal(n) == [DigitChar(t), DigitChar(u)];
      assert Zeros(1) == [DigitChar(0)];
    } else {
      var m := n / 10;
      assert 10 <= m < 100 && m / 10 == h && m % 10 == t;
      assert Decimal(h) == [DigitChar(h)];
      assert Decimal(m) == [DigitChar(h), DigitChar(t)];
      assert Decimal(n) == [DigitChar(h), DigitChar(t), DigitChar(u)];
    }
  }

  /** From 100 on, no padding is added: the number part is the plain numeral. */
  lemma PaddedFromHundred(n: nat)
    requires n >= 100
    ensures Padded(n) == Decimal(n)
  {
    assert |Decimal(n / 10)| >= 2;
  }

  /** The file name determines the screenshot number. */
  lemma ParseScreenshotNameRoundTrip(n: nat)
    ensures ParseScreenshotName(ScreenshotName(n)) == Some(n)
  {
    var s := ScreenshotName(n);
    var p := Padded(n);
    PaddedValue(n);
    assert s[..|Prefix|] == Prefix;
    assert s[|s| - |Suffix|..] == Suffix;
    assert s[|Prefix|..|s| - |Suffix|] == p;
  }

  /** Distinct screenshot numbers give distinct file names, so no screenshot
      overwrites another. */
  lemma ScreenshotNameInjective(a: nat, b: nat)
    ensures ScreenshotName(a) == ScreenshotName(b) <==> a == b
  {
    ParseScreenshotNameRoundTrip(a);
    ParseScreenshotNameRoundTrip(b);
  }

  /** Lexicographic order on strings by character code point (the C-locale
      sort order of file names). */
  predicate LexLess(s: string, t: string)
  {
    |t| > 0 && (|s| == 0 || s[0] < t[0] || (s[0] == t[0] && LexLess(s[1..], t[1..])))
  }

  lemma {:induction false} LexLessAfterCommonPrefix(p: string, s: string, t: string)
    requires LexLess(s, t)
    ensures LexLess(p + s, p + t)
  {
    if p != [] {
      LexLessAfterCommonPrefix(p[1..], s, t);
      assert (p + s)[1..] == p[1..] + s;
      assert (p + t)[1..] == p[1..] + t;
    } else {
      assert p + s == s && p + t == t;
    }
  }

  lemma LexLessFirstDiffers(c: char, d: char, s: string, t: string)
    requires c < d
    ensures LexLess([c] + s, [d] + t)
  {
  }

  lemma LexLessFirstEqual(c: char, s: string, t: string)
    requires LexLess(s, t)
    ensures LexLess([c] + s, [c] + t)
  {
    assert ([c] + s)[1..] == s;
    assert ([c] + t)[1..] == t;
  }

  /** Comparing two numbers below 1000 digit by digit, from the hundreds. */
  lemma DigitsCompare(a: nat, b: nat)
    requires a < b < 1000
    ensures || a / 100 < b / 100
            || (a / 100 == b / 100 && a / 10 % 10 < b / 10 % 10)
            || (a / 100 == b / 100 && a / 10 % 10 == b / 10 % 10 && a % 10 < b % 10)
  {
    assert a == 100 * (a / 100) + 10 * (a / 10 % 10) + a % 10;
    assert b == 100 * (b / 100) + 10 * (b / 10 % 10) + b % 10;
  }

  lemma ThreeDigitsSortInOrder(ha: char, ta: char, ua: char, hb: char, tb: char, ub: char, suffix: string)
    requires || ha < hb
             || (ha == hb && ta < tb)
             || (ha == hb && ta == tb && ua < ub)
    ensures LexLess([ha, ta, ua] + suffix, [hb, tb, ub] + suffix)
  {
    var ra, rb := [ua] + suffix, [ub] + suffix;
    var sa, sb := [ta] + ra, [tb] + rb;
    assert [ha, ta, ua] + suffix == [ha] + sa;
    assert [hb, tb, ub] + suffix == [hb] + sb;
    if ha < hb {
      LexLessFirstDiffers(ha, hb, sa, sb);
    } else {
      if ta < tb {
        LexLessFirstDiffers(ta, tb, ra, rb);
      } else {
        LexLessFirstDiffers(ua, ub, suffix, suffix);
        LexLessFirstEqual(ta, ra, rb);
      }
      LexLessFirstEqual(ha, sa, sb);
    }
  }

  lemma PaddedSortInOrder(a: nat, b: nat)
    requires a < b < 1000
    ensures LexLess(Padded(a) + Suffix, Padded(b) + Suffix)
  {
    PaddedBelowThousand(a);
    PaddedBelowThousand(b);
    DigitsCompare(a, b);
    ThreeDigitsSortInOrder(
      DigitChar(a / 100), DigitChar(a / 10 % 10), DigitChar(a % 10),
      DigitChar(b / 100), DigitChar(b / 10 % 10), DigitChar(b % 10), Suffix);
  }

  /** Below 1000, the zero padding makes the file names sort in the order
      the screenshots were taken. */
  lemma ScreenshotNamesSortInOrder(a: nat, b: nat)
    requires a < b < 1000
    ensures LexLess(ScreenshotName(a), ScreenshotName(b))
  {
    PaddedSortInOrder(a, b);
    LexLessAfterCommonPrefix(Prefix, Padded(a) + Suffix, Padded(b) + Suffix);
    assert ScreenshotName(a) == Prefix + (Padded(a) + Suffix);
    assert ScreenshotName(b) == Prefix + (Padded(b) + Suffix);
  }
}
