/** Decimal numerals: `String(n)`, `padStart` with zeros, and reading them back. */
module Decimals {
  import opened Sequences

  predicate IsDigit(c: char) {
    '0' <= c <= '9'
  }

  predicate AllDigits(s: string) {
    forall i :: 0 <= i < |s| ==> IsDigit(s[i])
  }

  function DigitChar(k: nat): (c: char)
    requires k < 10
    ensures IsDigit(c) && DigitValue(c) == k
  {
    '0' + k as char
  }

  function DigitValue(c: char): nat
    requires IsDigit(c)
  {
    (c - '0') as nat
  }

  lemma DigitBack(c: char)
    requires IsDigit(c)
    ensures DigitValue(c) < 10 && DigitChar(DigitValue(c)) == c
  {
  }

  /** `String(n)` */
  function Decimal(n: nat): (s: string)
    ensures AllDigits(s) && |s| > 0
  {
    if n < 10 then [DigitChar(n)] else Decimal(n / 10) + [DigitChar(n % 10)]
  }

  function Zeros(n: nat): (s: string)
    ensures |s| == n && forall i :: 0 <= i < n ==> s[i] == '0'
  {
    seq(n, _ => '0')
  }

  /** `s.padStart(width, '0')` */
  function PadStart(s: string, width: nat): (p: string)
    ensures |p| == if |s| < width then width else |s|
    ensures AllDigits(s) ==> AllDigits(p)
  {
    if |s| < width then Zeros(width - |s|) + s else s
  }

  /** `Number(s)` of a string of digits. */
  function ToNat(s: string): nat
    requires AllDigits(s)
  {
    if s == [] then 0 else 10 * ToNat(s[..|s| - 1]) + DigitValue(s[|s| - 1])
  }

  lemma ToNatLast(s: string)
    requires AllDigits(s) && s != []
    ensures ToNat(s) == 10 * ToNat(s[..|s| - 1]) + DigitValue(s[|s| - 1])
  {
  }

  lemma ToNatSnoc(s: string, c: char)
    requires AllDigits(s) && IsDigit(c)
    ensures AllDigits(s + [c]) && ToNat(s + [c]) == 10 * ToNat(s) + DigitValue(c)
  {
    assert (s + [c])[..|s|] == s;
  }

  lemma {:induction false} ToNatDecimal(n: nat)
    ensures ToNat(Decimal(n)) == n
  {
    if n < 10 {
      assert [DigitChar(n)][..0] == [];
    } else {
      ToNatDecimal(n / 10);
      ToNatSnoc(Decimal(n / 10), DigitChar(n % 10));
    }
  }

  lemma {:induction false} ToNatPadded(zeros: nat, s: string)
    requires AllDigits(s)
    ensures AllDigits(Zeros(zeros) + s) && ToNat(Zeros(zeros) + s) == ToNat(s)
    decreases |s|, zeros
  {
    if s != [] {
      var n := |s| - 1;
      ToNatPadded(zeros, s[..n]);
      assert Zeros(zeros) + s == (Zeros(zeros) + s[..n]) + [s[n]];
      ToNatSnoc(Zeros(zeros) + s[..n], s[n]);
    } else if zeros > 0 {
      ToNatPadded(zeros - 1, s);
      assert Zeros(zeros) + s == (Zeros(zeros - 1) + s) + ['0'];
      ToNatSnoc(Zeros(zeros - 1) + s, '0');
    }
  }

  lemma ToNatPadDecimal(n: nat, width: nat)
    ensures ToNat(PadStart(Decimal(n), width)) == n
  {
    ToNatDecimal(n);
    if |Decimal(n)| < width {
      ToNatPadded(width - |Decimal(n)|, Decimal(n));
    }
  }

  lemma PadSnoc(s: string, c: char, width: nat)
    requires width > 0
    ensures PadStart(s + [c], width) == PadStart(s, width - 1) + [c]
  {
  }

  /** A numeral is the padded decimal of the number it stands for. */
  lemma {:induction false} PadBack(s: string)
    requires AllDigits(s) && s != []
    ensures PadStart(Decimal(ToNat(s)), |s|) == s
  {
    var n := |s| - 1;
    var r := s[n];
    DigitBack(r);
    InitAndLast(s);
    if n == 0 {
      assert s[..0] == [];
      SmallDecimal(DigitValue(r));
    } else {
      hide Decimal, PadStart, ToNat;
      ToNatLast(s);
      PadBack(s[..n]);
      PadDigit(ToNat(s[..n]), r, n);
    }
  }

  lemma SmallDecimal(k: nat)
    requires k < 10
    ensures Decimal(k) == [DigitChar(k)]
  {
  }

  /** One more digit at the end of a padded numeral. */
  lemma PadDigit(q: nat, r: char, width: nat)
    requires IsDigit(r) && width > 0
    ensures PadStart(Decimal(10 * q + DigitValue(r)), width + 1) == PadStart(Decimal(q), width) + [r]
  {
    DigitBack(r);
    var k := DigitValue(r);
    if q > 0 {
      assert (10 * q + k) / 10 == q && (10 * q + k) % 10 == k;
      assert Decimal(10 * q + k) == Decimal(q) + [r];
      hide Decimal;
      PadSnoc(Decimal(q), r, width + 1);
    } else {
      SmallDecimal(k);
      SmallDecimal(0);
      hide Decimal;
      assert Zeros(width) + [r] == Zeros(width - 1) + ['0'] + [r];
    }
  }

  function Pow10(n: nat): (p: nat)
    ensures p > 0
  {
    if n == 0 then 1 else 10 * Pow10(n - 1)
  }

  /** A number has at most `width` digits exactly when it is below `10^width`. */
  lemma {:induction false} DecimalLength(n: nat, width: nat)
    requires width > 0
    ensures |Decimal(n)| <= width <==> n < Pow10(width)
  {
    if width == 1 {
      assert Pow10(1) == 10 * Pow10(0);
    } else {
      assert Pow10(width) == 10 * Pow10(width - 1) && Pow10(width) >= 10;
      if n >= 10 {
        DecimalLength(n / 10, width - 1);
      }
    }
  }

  // ----- the order of strings

  /** Lexicographic order by character. */
  predicate Less(a: string, b: string) {
    if b == [] then false
    else if a == [] then true
    else a[0] < b[0] || (a[0] == b[0] && Less(a[1..], b[1..]))
  }

  lemma {:induction false} LessTotal(a: string, b: string)
    ensures Less(a, b) || Less(b, a) || a == b
  {
    if a == [] || b == [] {
    } else {
      LessTotal(a[1..], b[1..]);
      assert a == [a[0]] + a[1..] && b == [b[0]] + b[1..];
    }
  }

  lemma {:induction false} LessAsymmetric(a: string, b: string)
    requires Less(a, b)
    ensures !Less(b, a)
  {
    if a == [] || a[0] < b[0] {
    } else {
      LessAsymmetric(a[1..], b[1..]);
    }
  }

  lemma LessIrreflexive(a: string)
    ensures !Less(a, a)
  {
    if Less(a, a) {
      LessAsymmetric(a, a);
    }
  }

  lemma {:induction false} LessSnoc(a: string, b: string, x: char, y: char)
    requires |a| == |b|
    ensures Less(a + [x], b + [y]) <==> Less(a, b) || (a == b && x < y)
  {
    if a == [] {
      assert a + [x] == [x] && b + [y] == [y];
    } else {
      assert (a + [x])[1..] == a[1..] + [x] && (b + [y])[1..] == b[1..] + [y];
      LessSnoc(a[1..], b[1..], x, y);
      assert a == [a[0]] + a[1..] && b == [b[0]] + b[1..];
    }
  }

  /** Numerals of the same length are ordered like the numbers they stand for. */
  lemma {:induction false} LessIsSmaller(a: string, b: string)
    requires AllDigits(a) && AllDigits(b) && |a| == |b|
    ensures Less(a, b) <==> ToNat(a) < ToNat(b)
    ensures a == b <==> ToNat(a) == ToNat(b)
  {
    if a == [] {
    } else {
      var n := |a| - 1;
      LessIsSmaller(a[..n], b[..n]);
      LessSnoc(a[..n], b[..n], a[n], b[n]);
      assert a == a[..n] + [a[n]] && b == b[..n] + [b[n]];
      assert a[n] < b[n] <==> DigitValue(a[n]) < DigitValue(b[n]);
      DigitBack(a[n]);
      DigitBack(b[n]);
    }
  }

  lemma {:induction false} LessPrefix(p: string, a: string, b: string)
    ensures Less(p + a, p + b) <==> Less(a, b)
  {
    if p == [] {
      assert p + a == a && p + b == b;
    } else {
      assert (p + a)[1..] == p[1..] + a && (p + b)[1..] == p[1..] + b;
      LessPrefix(p[1..], a, b);
    }
  }
}
