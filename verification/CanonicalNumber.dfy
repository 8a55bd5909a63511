/**
 `_canonical_number` of scripts/intent_bounded_replay/normalize.py: minimal plain decimal notation
 for integers and finite decimals, proved to be a normal form of the numeric value.
 */
module CanonicalNumber {
  import opened Digits
  import opened Results
  import opened Strings

  /** A Python `int`, a finite `Decimal` (sign, coefficient, exponent), or a NaN or infinity. */
  datatype Number = Integer(n: int) | Decimal(negative: bool, coefficient: nat, exponent: int) | NonFinite

  /** `str.rstrip(c)` for a single character. */
  function RStrip(s: string, c: char): string {
    if s != [] && s[|s| - 1] == c then RStrip(s[..|s| - 1], c) else s
  }

  function Sign(negative: bool): string {
    if negative then "-" else ""
  }

  function Abs(n: int): nat {
    if n < 0 then -n else n
  }

  function CanonicalText(x: Number): Result<string> {
    match x
    case Integer(n) => Success(Sign(n < 0) + NatText(Abs(n)))
    case NonFinite => Failure
    case Decimal(negative, coefficient, exponent) =>
      if coefficient == 0 then Success("0")
      else
        var digits := NatText(coefficient);
        var body :=
          if exponent >= 0 then digits + Zeros(exponent)
          else
            var point := |digits| + exponent;
            var raw :=
              if point > 0 then digits[..point] + "." + digits[point..]
              else "0." + Zeros(-point) + digits;
            RStrip(RStrip(raw, '0'), '.');
        Success(Sign(negative) + body)
  }

  // ----- Numeric meaning

  /** The number `numerator / 10^places`. */
  datatype Fraction = Fraction(numerator: int, places: nat)

  ghost predicate Equal(a: Fraction, b: Fraction) {
    a.numerator * Pow10(b.places) == b.numerator * Pow10(a.places)
  }

  function Signed(negative: bool, n: nat): int {
    if negative then 0 - n else n
  }

  /** The numeric value of a finite number. */
  ghost function FractionOf(x: Number): Fraction
    requires !x.NonFinite?
  {
    match x
    case Integer(n) => Fraction(n, 0)
    case Decimal(negative, coefficient, exponent) =>
      if exponent >= 0 then Fraction(Signed(negative, coefficient) * Pow10(exponent), 0)
      else Fraction(Signed(negative, coefficient), -exponent)
  }

  ghost predicate SameNumber(x: Number, y: Number) {
    !x.NonFinite? && !y.NonFinite? && Equal(FractionOf(x), FractionOf(y))
  }

  lemma MulAssoc(x: int, y: int, z: int)
    ensures x * (y * z) == (x * y) * z
  {
  }

  lemma MulCancel(x: int, y: int, n: int)
    requires n > 0 && x * n == y * n
    ensures x == y
  {
    assert (x - y) * n == 0;
  }

  lemma Cancel(x: int, y: int, k: nat)
    requires x * Pow10(k) == y * Pow10(k)
    ensures x == y
  {
    MulCancel(x, y, Pow10(k));
  }

  lemma EqualTrans(a: Fraction, b: Fraction, c: Fraction)
    requires Equal(a, b) && Equal(b, c)
    ensures Equal(a, c)
  {
    hide Pow10;
    var pa, pb, pc := Pow10(a.places), Pow10(b.places), Pow10(c.places);
    calc {
      a.numerator * pc * pb;
      (a.numerator * pb) * pc;
      (b.numerator * pa) * pc;
      (b.numerator * pc) * pa;
      (c.numerator * pb) * pa;
      c.numerator * pa * pb;
    }
    Cancel(a.numerator * pc, c.numerator * pa, b.places);
  }

  // ----- Plain notation

  /** Sign, digits before the point, digits after it. */
  datatype Plain = Plain(negative: bool, whole: string, frac: string)

  function PointTail(frac: string): string {
    if frac == "" then "" else "." + frac
  }

  function Show(p: Plain): string {
    Sign(p.negative) + (p.whole + PointTail(p.frac))
  }

  /** No redundant zero on either side, no bare point, no negative zero. */
  ghost predicate Canonical(p: Plain) {
    && AllDigits(p.whole) && Minimal(p.whole)
    && AllDigits(p.frac) && (p.frac != "" ==> p.frac[|p.frac| - 1] != '0')
    && (p.negative ==> Value(p.whole + p.frac) != 0)
  }

  /** What the notation denotes when it is read back. */
  ghost function Read(p: Plain): Fraction
    requires AllDigits(p.whole) && AllDigits(p.frac)
  {
    Fraction(Signed(p.negative, Value(p.whole + p.frac)), |p.frac|)
  }

  lemma {:induction false} RStripZeros(s: string)
    requires AllDigits(s)
    ensures |RStrip(s, '0')| <= |s| && AllDigits(RStrip(s, '0')) && s == RStrip(s, '0') + Zeros(|s| - |RStrip(s, '0')|)
    ensures RStrip(s, '0') != "" ==> RStrip(s, '0')[|RStrip(s, '0')| - 1] != '0'
  {
    if s != [] && s[|s| - 1] == '0' {
      RStripZeros(s[..|s| - 1]);
      assert s == s[..|s| - 1] + "0";
    }
  }

  lemma {:induction false} RStripAfterPoint(w: string, s: string)
    requires AllDigits(s)
    ensures RStrip(w + "." + s, '0') == w + "." + RStrip(s, '0')
    decreases |s|
  {
    var t := w + "." + s;
    if s != [] && s[|s| - 1] == '0' {
      assert t[..|t| - 1] == w + "." + s[..|s| - 1];
      RStripAfterPoint(w, s[..|s| - 1]);
    }
  }

  /** Stripping zeros and then the point leaves the minimal notation of the same digits. */
  lemma StripIsShow(w: string, s: string)
    requires AllDigits(w) && w != "" && AllDigits(s)
    ensures RStrip(RStrip(w + "." + s, '0'), '.') == Show(Plain(false, w, RStrip(s, '0')))
  {
    RStripAfterPoint(w, s);
    RStripZeros(s);
    RStripPoint(w, RStrip(s, '0'));
  }

  lemma RStripPoint(w: string, f: string)
    requires AllDigits(w) && w != "" && AllDigits(f)
    ensures RStrip(w + "." + f, '.') == Show(Plain(false, w, f))
  {
    if f == "" {
      RStripNone(w, '.');
      assert (w + "." + f)[..|w|] == w;
      assert RStrip(w + "." + f, '.') == w;
    } else {
      assert w + "." + f == w + PointTail(f);
      assert (w + "." + f)[|w| + |f|] == f[|f| - 1];
      RStripNone(w + "." + f, '.');
    }
  }

  lemma RStripNone(s: string, c: char)
    requires s != "" && s[|s| - 1] != c
    ensures RStrip(s, c) == s
  {
  }

  lemma StripKeepsValue(negative: bool, w: string, s: string)
    requires AllDigits(w) && AllDigits(s)
    ensures AllDigits(RStrip(s, '0'))
    ensures Equal(Read(Plain(negative, w, RStrip(s, '0'))), Fraction(Signed(negative, Value(w + s)), |s|))
    ensures Value(w + RStrip(s, '0')) == 0 ==> Value(w + s) == 0
  {
    RStripZeros(s);
    hide Pow10, Value, RStrip, Zeros, Equal;
    var f := RStrip(s, '0');
    var k := |s| - |f|;
    PaddedValue(w, f, s, k);
    var v := Value(w + f);
    SignedMul(negative, v, Pow10(k));
    ScaleEqual(Signed(negative, v), |f|, k);
    MulZero(v, Pow10(k));
  }

  lemma PaddedValue(w: string, f: string, s: string, k: nat)
    requires AllDigits(w) && AllDigits(f) && s == f + Zeros(k)
    ensures AllDigits(w + s) && Value(w + s) == Value(w + f) * Pow10(k)
  {
    hide Pow10, Value;
    assert w + s == (w + f) + Zeros(k);
    ValueAppend(w + f, Zeros(k));
    ZerosValue(k);
  }

  lemma MulZero(x: int, y: int)
    ensures x == 0 ==> x * y == 0
  {
  }

  lemma ScaleEqual(n: int, a: nat, k: nat)
    ensures Equal(Fraction(n, a), Fraction(n * Pow10(k), a + k))
  {
    Pow10Add(k, a);
    hide Pow10;
    MulAssoc(n, Pow10(k), Pow10(a));
  }

  lemma SignedMul(negative: bool, n: nat, m: nat)
    ensures n * m >= 0 && Signed(negative, n * m) == Signed(negative, n) * m
  {
  }

  /** Every finite number is written canonically, and reads back to its exact value. */
  lemma CanonicalTextReadsBack(x: Number) returns (p: Plain)
    requires !x.NonFinite?
    ensures Canonical(p) && CanonicalText(x) == Success(Show(p)) && Equal(Read(p), FractionOf(x))
  {
    hide Value, NatText, Zeros, Pow10, Equal, RStrip, Minimal;
    match x
    case Integer(n) =>
      p := IntegerReadsBack(n);
    case Decimal(negative, coefficient, exponent) =>
      if coefficient == 0 {
        p := ZeroReadsBack(negative, exponent);
      } else if exponent >= 0 {
        p := IntegralReadsBack(negative, coefficient, exponent);
      } else {
        p := FractionalReadsBack(negative, coefficient, exponent);
      }
  }

  lemma IntegerReadsBack(n: int) returns (p: Plain)
    ensures Canonical(p) && Sign(n < 0) + NatText(Abs(n)) == Show(p) && Equal(Read(p), Fraction(n, 0))
  {
    NatTextValue(Abs(n));
    hide NatText;
    p := Plain(n < 0, NatText(Abs(n)), "");
    assert p.whole + "" == p.whole;
  }

  lemma ZeroReadsBack(negative: bool, e: int) returns (p: Plain)
    ensures Canonical(p) && Show(p) == "0" && Equal(Read(p), FractionOf(Decimal(negative, 0, e)))
  {
    p := Plain(false, "0", "");
    assert "0" + "" == "0" && Value("0") == 0;
    MulZero(0, Pow10(if e >= 0 then e else 0));
  }

  lemma IntegralReadsBack(negative: bool, c: nat, e: nat) returns (p: Plain)
    requires c > 0
    ensures Canonical(p) && Sign(negative) + (NatText(c) + Zeros(e)) == Show(p)
    ensures Equal(Read(p), Fraction(Signed(negative, c) * Pow10(e), 0))
  {
    hide Value, NatText;
    NatTextValue(c);
    p := Plain(negative, NatText(c) + Zeros(e), "");
    ValueAppend(NatText(c), Zeros(e));
    ZerosValue(e);
    hide Zeros;
    assert p.whole + "" == p.whole;
    SignedMul(negative, c, Pow10(e));
    assert Sign(negative) + (NatText(c) + Zeros(e)) == Show(p);
    MulPositive(c, Pow10(e));
    assert Canonical(p);
  }

  lemma MulPositive(x: int, y: int)
    requires x > 0 && y > 0
    ensures x * y > 0
  {
  }

  lemma FractionalReadsBack(negative: bool, c: nat, e: int) returns (p: Plain)
    requires c > 0 && e < 0
    ensures Canonical(p) && CanonicalText(Decimal(negative, c, e)) == Success(Show(p))
    ensures Equal(Read(p), Fraction(Signed(negative, c), -e))
  {
    hide Value, NatText, Zeros, Pow10, Equal, RStrip;
    NatTextValue(c);
    var w, s := PointSplit(c, e);
    StripIsShow(w, s);
    StripKeepsValue(negative, w, s);
    RStripZeros(s);
    p := Plain(negative, w, RStrip(s, '0'));
    assert Sign(negative) + Show(Plain(false, w, RStrip(s, '0'))) == Show(p);
  }

  /** Where the point goes: `e` digits follow it, padded with zeros if there are too few. */
  lemma PointSplit(c: nat, e: int) returns (w: string, s: string)
    requires c > 0 && e < 0
    ensures AllDigits(w) && Minimal(w) && AllDigits(s) && |s| == -e && Value(w + s) == c
    ensures var digits := NatText(c);
            var point := |digits| + e;
            w + "." + s == if point > 0 then digits[..point] + "." + digits[point..] else "0." + Zeros(-point) + digits
  {
    hide NatText, Zeros, Pow10;
    NatTextValue(c);
    var digits := NatText(c);
    var point := |digits| + e;
    if point > 0 {
      w, s := digits[..point], digits[point..];
      assert w + s == digits;
    } else {
      w, s := "0", Zeros(-point) + digits;
      assert w + s == ("0" + Zeros(-point)) + digits;
      ValueAppend("0", Zeros(-point));
      ZerosValue(-point);
      ValueAppend("0" + Zeros(-point), digits);
      assert Value("0") == 0;
      assert "0." + Zeros(-point) + digits == w + "." + s;
    }
  }

  // ----- Uniqueness of the canonical notation

  /** Two canonical notations of one value are one notation. */
  lemma CanonicalUnique(p: Plain, q: Plain)
    requires Canonical(p) && Canonical(q) && Equal(Read(p), Read(q))
    ensures p == q
  {
    SamePlaces(p, q);
    SamePlaces(q, p);
    var k := |p.frac|;
    Cancel(Read(p).numerator, Read(q).numerator, k);
    assert Value(p.whole + p.frac) == Value(q.whole + q.frac) && p.negative == q.negative;
    SplitUnique(p.whole, p.frac, q.whole, q.frac);
  }

  /** More digits after the point would end in a zero. */
  lemma SamePlaces(p: Plain, q: Plain)
    requires Canonical(p) && Canonical(q) && Equal(Read(p), Read(q))
    ensures |q.frac| <= |p.frac|
  {
    var a, b := |p.frac|, |q.frac|;
    if a < b {
      var n, m := Read(p).numerator, Read(q).numerator;
      MultipleOfTen(n, m, a, b);
      NotMultipleOfTen(q);
    }
  }

  lemma NotMultipleOfTen(q: Plain)
    requires Canonical(q) && q.frac != ""
    ensures Read(q).numerator % 10 != 0
  {
    var s := q.whole + q.frac;
    assert s[|s| - 1] == q.frac[|q.frac| - 1];
    assert Value(s) % 10 == DigitValue(s[|s| - 1]);
  }

  lemma MultipleOfTen(n: int, m: int, a: nat, b: nat)
    requires a < b && n * Pow10(b) == m * Pow10(a)
    ensures m % 10 == 0
  {
    var k := b - a;
    Pow10Add(k, a);
    hide Pow10;
    MulAssoc(n, Pow10(k), Pow10(a));
    Cancel(n * Pow10(k), m, a);
    TenDivides(n, k);
  }

  lemma TenDivides(n: int, k: nat)
    requires k > 0
    ensures (n * Pow10(k)) % 10 == 0
  {
    MulRearrange(n, Pow10(k - 1));
    assert n * Pow10(k) == 10 * (n * Pow10(k - 1));
  }

  lemma SplitUnique(w: string, f: string, w': string, f': string)
    requires AllDigits(w) && AllDigits(f) && AllDigits(w') && AllDigits(f') && Minimal(w) && Minimal(w')
    requires |f| == |f'| && Value(w + f) == Value(w' + f')
    ensures w == w' && f == f'
  {
    ValueAppend(w, f);
    ValueAppend(w', f');
    ValueBound(f);
    ValueBound(f');
    DivideUnique(Value(w), Value(f), Value(w'), Value(f'), Pow10(|f|));
    MinimalUnique(w, w');
    SameLengthUnique(f, f');
  }

  lemma MulAtLeast(x: int, n: int)
    requires x >= 1 && n >= 0
    ensures x * n >= n
  {
  }

  lemma DivideUnique(a: nat, r: nat, b: nat, s: nat, n: nat)
    requires r < n && s < n && a * n + r == b * n + s
    ensures a == b && r == s
  {
    assert (a - b) * n == s - r;
    if a != b {
      MulAtLeast(if a < b then b - a else a - b, n);
    }
  }

  /** Equal texts iff numerically equal; only NaN and the infinities have none. */
  lemma CanonicalTextIffSame(x: Number, y: Number)
    ensures CanonicalText(x).Failure? <==> x.NonFinite?
    ensures !x.NonFinite? && !y.NonFinite? ==> (CanonicalText(x) == CanonicalText(y) <==> SameNumber(x, y))
  {
    if !x.NonFinite? && !y.NonFinite? {
      var p := CanonicalTextReadsBack(x);
      var q := CanonicalTextReadsBack(y);
      EqualSym(Read(p), FractionOf(x));
      if CanonicalText(x) == CanonicalText(y) {
        ShowInjective(p, q);
        EqualTrans(FractionOf(x), Read(p), FractionOf(y));
      }
      if SameNumber(x, y) {
        EqualTrans(Read(p), FractionOf(x), FractionOf(y));
        EqualSym(Read(q), FractionOf(y));
        EqualTrans(Read(p), FractionOf(y), Read(q));
        CanonicalUnique(p, q);
      }
    }
  }

  lemma EqualSym(a: Fraction, b: Fraction)
    requires Equal(a, b)
    ensures Equal(b, a)
  {
  }

  /** The notation can be parsed in one way only. */
  lemma ShowInjective(p: Plain, q: Plain)
    requires Canonical(p) && Canonical(q) && Show(p) == Show(q)
    ensures p == q
  {
    hide Value;
    var t := Show(p);
    var tailP, tailQ := PointTail(p.frac), PointTail(q.frac);
    assert t[0] == if p.negative then '-' else p.whole[0];
    assert t[0] == if q.negative then '-' else q.whole[0];
    assert p.negative == q.negative;
    assert p.whole + tailP == t[|Sign(p.negative)|..] == q.whole + tailQ;
    SpanUnique(IsDigit, p.whole, tailP, q.whole, tailQ);
    assert p.frac == if tailP == "" then "" else tailP[1..];
    assert q.frac == if tailQ == "" then "" else tailQ[1..];
  }

  predicate NumberChar(c: char) {
    IsDigit(c) || c == '-' || c == '.'
  }

  /** A canonical number starts with a digit or a minus sign and uses number characters only. */
  lemma CanonicalTextChars(x: Number)
    requires CanonicalText(x).Success?
    ensures var t := CanonicalText(x).value; t != "" && t[0] != '.' && forall i :: 0 <= i < |t| ==> NumberChar(t[i])
  {
    hide Value, CanonicalText, Show, Equal, Read, FractionOf;
    CanonicalTextIffSame(x, x);
    var p := CanonicalTextReadsBack(x);
    ShowChars(p);
  }

  lemma ShowChars(p: Plain)
    requires AllDigits(p.whole) && p.whole != "" && AllDigits(p.frac)
    ensures Show(p) != "" && Show(p)[0] != '.' && forall i :: 0 <= i < |Show(p)| ==> NumberChar(Show(p)[i])
  {
  }
}
