/** `write_double`, over exact reals: fixed-point text with rounding that does not carry. */
module WriteDouble {
  import opened Bytes
  import opened Decimal
  import opened Streams

  function Zeros(n: nat): (z: seq<byte>)
    ensures |z| == n && AllDigits(z)
  {
    seq(n, _ => 48)
  }

  function Times(x: real, n: int): real {
    x * n as real
  }

  /** The part of `v` behind the dot. */
  function Frac(v: real): (f: real)
    ensures 0.0 <= f < 1.0
  {
    v - v.Floor as real
  }

  /** `v` in units of the last printed place, rounded half up. */
  function Rounded(v: real, prec: nat): int {
    (Times(v, Pow10(prec)) + 0.5).Floor
  }

  /** The digits the code prints after the dot, as a number. */
  function FractionDigits(v: real, prec: nat): (n: nat)
    ensures n < Pow10(prec)
  {
    Rounded(v, prec) % Pow10(prec)
  }

  function FractionText(v: real, prec: nat): (t: seq<byte>)
    requires prec > 0
    ensures |t| == prec && AllDigits(t)
  {
    DigitsLength(FractionDigits(v, prec), prec);
    var ds := Digits(FractionDigits(v, prec));
    Zeros(prec - |ds|) + ds
  }

  function DoubleText(v: real, prec: nat): seq<byte>
    requires v >= 0.0
  {
    Digits(v.Floor) + if prec == 0 then [] else [DOT] + FractionText(v, prec)
  }

  predicate InRange(v: real, prec: nat) {
    v >= 0.0 && prec <= 9 && Times(v, Pow10(prec)) + 0.5 < U64 as real
  }

  method WriteDouble(fd: Output, val: real, prec: nat)
    requires InRange(val, prec)
    modifies fd
    ensures fd.text == old(fd.text) + DoubleText(val, prec)
  {
    hide Digits, DoubleText;
    RangeBounds(val, prec);
    var buf := new byte[20];
    WordDigits(val.Floor);
    var n := FmtUlong(buf, val.Floor);
    fd.Write(buf[..n]);
    if prec == 0 {
      TextParts(old(fd.text), val, prec);
      return;
    }

    var s := 1;
    n := 0;
    while n < prec
      invariant n <= prec && s == Pow10(n)
    {
      s := s * 10;
      n := n + 1;
    }
    var scaled := Times(val, s) + 0.5;
    assert scaled.Floor == Rounded(val, prec);
    DigitsLength(FractionDigits(val, prec), prec);
    WordDigits(FractionDigits(val, prec));
    n := FmtUlong(buf, scaled.Floor % s);
    fd.Write([DOT]);
    Pad(fd, prec, n);
    fd.Write(buf[..n]);
    TextParts(old(fd.text), val, prec);
  }

  lemma TextParts(before: seq<byte>, v: real, prec: nat)
    requires v >= 0.0
    ensures prec == 0 ==> before + Digits(v.Floor) == before + DoubleText(v, prec)
    ensures prec > 0 ==>
              var ds := Digits(FractionDigits(v, prec));
              && |ds| <= prec
              && before + Digits(v.Floor) + [DOT] + Zeros(prec - |ds|) + ds == before + DoubleText(v, prec)
  {
    hide Digits, FractionDigits, Zeros;
    if prec > 0 { DigitsLength(FractionDigits(v, prec), prec); }
  }

  /** The loop that pads the fraction on the left with zeros. */
  method Pad(fd: Output, prec: nat, n: nat)
    requires n <= prec
    modifies fd
    ensures fd.text == old(fd.text) + Zeros(prec - n)
  {
    var s := prec;
    while s - n > 0
      invariant n <= s <= prec
      invariant fd.text == old(fd.text) + Zeros(prec - s)
    {
      fd.Write([48]);
      s := s - 1;
      assert Zeros(prec - s) == Zeros(prec - s - 1) + [48];
    }
  }

  lemma RangeBounds(v: real, prec: nat)
    requires InRange(v, prec)
    ensures 0 <= v.Floor < U64
    ensures 0 <= Rounded(v, prec) < U64
    ensures Pow10(prec) <= 1000000000
  {
    assert Pow10(9) == 1000000000;
    PowAdd(prec, 9 - prec);
    assert Pow10(prec) * 1 <= Pow10(prec) * Pow10(9 - prec);
    TimesGrows(v, Pow10(prec));
  }

  lemma TimesGrows(v: real, s: int)
    requires v >= 0.0 && s >= 1
    ensures Times(v, s) >= v
  {
    assert v * (s - 1) as real >= 0.0;
  }

  /** Decimal text with a dot: digits, a dot, digits. */
  predicate IsDecimal(t: seq<byte>) {
    var i := DigitRun(t);
    i < |t| && t[i] == DOT && AllDigits(t[i + 1..])
  }

  /** The number with this whole part and these fraction digits. */
  function Fixed(whole: seq<byte>, frac: seq<byte>): real
    requires AllDigits(whole) && AllDigits(frac)
  {
    Value(whole) as real + Value(frac) as real / Pow10(|frac|) as real
  }

  /** The number such a text denotes. */
  function DecimalReal(t: seq<byte>): real
    requires IsDecimal(t)
  {
    Fixed(t[..DigitRun(t)], t[DigitRun(t) + 1..])
  }

  /** A text split at its dot. */
  lemma DecimalParts(whole: seq<byte>, frac: seq<byte>)
    requires AllDigits(whole) && AllDigits(frac)
    ensures var t := whole + [DOT] + frac;
      && DigitRun(t) == |whole| && IsDecimal(t)
      && DecimalReal(t) == Fixed(whole, frac)
  {
    var t := whole + [DOT] + frac;
    assert t[..|whole|] == whole && t[|whole| + 1..] == frac && t[|whole|] == DOT;
    DigitRunIs(t, |whole|);
  }

  lemma {:induction false} ZerosDenoteNothing(n: nat)
    ensures Value(Zeros(n)) == 0
  {
    if n > 0 {
      ZerosDenoteNothing(n - 1);
      assert Zeros(n)[..n - 1] == Zeros(n - 1);
    }
  }

  lemma FractionTextDenotes(v: real, prec: nat)
    requires prec > 0
    ensures Value(FractionText(v, prec)) == FractionDigits(v, prec)
  {
    var n := FractionDigits(v, prec);
    DigitsLength(n, prec);
    DigitsDenote(n);
    ZerosDenoteNothing(prec - |Digits(n)|);
    ValueAppend(Zeros(prec - |Digits(n)|), Digits(n));
  }

  lemma TimesFixed(w: int, f: int, s: int)
    requires s > 0
    ensures Times(w as real + f as real / s as real, s) == Times(w as real, s) + f as real
  {
    var q := f as real / s as real;
    assert q * s as real == f as real;
  }

  /** The printed text is a decimal with `prec` fraction digits; in units of the last place it
      is the whole part of `v` followed by the rounded fraction. */
  lemma DoubleTextDenotes(v: real, prec: nat)
    requires v >= 0.0 && prec > 0
    ensures var t, s := DoubleText(v, prec), Pow10(prec);
      && t == Digits(v.Floor) + [DOT] + FractionText(v, prec)
      && |t| == |Digits(v.Floor)| + 1 + prec
      && IsDecimal(t) && DecimalReal(t) == Fixed(Digits(v.Floor), FractionText(v, prec))
      && Times(DecimalReal(t), s) == Times(v.Floor as real, s) + FractionDigits(v, prec) as real
  {
    hide Rounded, FractionDigits, FractionText, Value, Digits, DigitRun, Pow10, IsDecimal, DecimalReal, Times;
    var w, f := Digits(v.Floor), FractionText(v, prec);
    assert DoubleText(v, prec) == w + [DOT] + f;
    FractionTextDenotes(v, prec);
    DigitsDenote(v.Floor);
    DecimalParts(w, f);
    TimesFixed(v.Floor, FractionDigits(v, prec), Pow10(prec));
  }

  /** The same, as a number: the whole part, and the value in units of the last place, rounded half up,
      without what that is in wholes. */
  lemma DoubleTextReads(v: real, prec: nat)
    requires v >= 0.0
    ensures prec == 0 ==> DoubleText(v, prec) == Digits(v.Floor)
    ensures prec > 0 ==>
              && IsDecimal(DoubleText(v, prec))
              && var s := Pow10(prec);
              DecimalReal(DoubleText(v, prec))
              == v.Floor as real + ((v * s as real + 0.5).Floor % s) as real / s as real
  {
    if prec > 0 {
      hide FractionDigits, FractionText, Value, Digits, DigitRun, Pow10, IsDecimal, DecimalReal, DoubleText, Times;
      DoubleTextDenotes(v, prec);
      FractionTextDenotes(v, prec);
      DigitsDenote(v.Floor);
      FractionDigitsAre(v, prec);
    }
  }

  lemma FractionDigitsAre(v: real, prec: nat)
    ensures FractionDigits(v, prec) == (v * Pow10(prec) as real + 0.5).Floor % Pow10(prec)
  {
    hide Pow10, Rounded;
    RoundedIs(v, prec);
    SameRemainder(Rounded(v, prec), (v * Pow10(prec) as real + 0.5).Floor, Pow10(prec));
  }

  lemma RoundedIs(v: real, prec: nat)
    ensures Rounded(v, prec) == (v * Pow10(prec) as real + 0.5).Floor
  {
    hide Pow10, Times;
    TimesIs(v, Pow10(prec));
  }

  lemma TimesIs(v: real, n: int)
    ensures Times(v, n) == v * n as real
  {
  }

  lemma SameRemainder(a: int, b: int, m: int)
    requires a == b && m > 0
    ensures a % m == b % m
  {
  }

  lemma ModShift(a: int, k: int, m: int)
    requires 0 <= a <= m && m > 0
    ensures (a + k * m) % m == if a < m then a else 0
  {
    var b := if a < m then a else 0;
    var j := if a < m then k else k + 1;
    var q := (a + k * m) / m;
    assert (q - j) * m == b - (a + k * m) % m;
    MulBetween(q - j, m);
  }

  lemma MulBetween(d: int, m: int)
    requires -m < d * m < m
    ensures d == 0
  {
  }

  lemma FloorShift(x: real, k: int)
    ensures (x + k as real).Floor == x.Floor + k
  {
  }

  lemma TimesFraction(f: real, s: int)
    requires 0.0 <= f < 1.0 && s > 0
    ensures 0.0 <= Times(f, s) < s as real
  {
    var g, r := 1.0 - f, s as real;
    assert f * r >= 0.0;
    assert g * r > 0.0 && g * r == r - f * r;
  }

  lemma TimesSplit(k: int, f: real, s: int)
    ensures Times(k as real + f, s) == (k * s) as real + Times(f, s)
    ensures Times(k as real, s) == (k * s) as real
  {
    assert (k * s) as real == k as real * s as real;
  }

  /** The scaled fraction `y`, rounded and dropped when that reaches the whole `s`. */
  function CarryFree(y: real, s: int): int {
    if y + 0.5 < s as real then (y + 0.5).Floor else 0
  }

  lemma RemainderOf(y: real, k: int, s: int)
    requires 0.0 <= y < s as real
    ensures ((y + 0.5).Floor + k * s) % s == CarryFree(y, s)
  {
    ModShift((y + 0.5).Floor, k, s);
  }

  /** Rounding the fraction alone: the whole part drops out of the remainder. */
  lemma RemainderRounds(k: int, f: real, s: int)
    requires s > 0 && 0.0 <= f < 1.0
    ensures (Times(k as real + f, s) + 0.5).Floor % s == CarryFree(Times(f, s), s)
  {
    hide Times;
    TimesFraction(f, s);
    RemainderOf(Times(f, s), k, s);
    TimesSplit(k, f, s);
    FloorShift(Times(f, s) + 0.5, k * s);
  }

  lemma FractionRounds(v: real, prec: nat)
    ensures FractionDigits(v, prec) == CarryFree(Times(Frac(v), Pow10(prec)), Pow10(prec))
  {
    hide Times, CarryFree, Pow10;
    RemainderRounds(v.Floor, Frac(v), Pow10(prec));
    assert v.Floor as real + Frac(v) == v;
  }

  /** `x` is within half of a unit of 1/s of `v`. */
  predicate Near(x: real, v: real, s: int) {
    -0.5 <= Times(x, s) - Times(v, s) <= 0.5
  }

  /** The printed number is within half a unit of the last place exactly when rounding
      the fraction does not reach the next whole number. */
  lemma ErrorBound(v: real, prec: nat)
    requires v >= 0.0 && prec > 0
    ensures IsDecimal(DoubleText(v, prec))
    ensures var s := Pow10(prec);
      Near(DecimalReal(DoubleText(v, prec)), v, s) <==> Times(Frac(v), s) + 0.5 < s as real
  {
    hide DoubleText, FractionDigits, DecimalReal, Pow10, Times;
    DoubleTextDenotes(v, prec);
    hide IsDecimal;
    FractionRounds(v, prec);
    PowGrows(prec);
    TimesFraction(Frac(v), Pow10(prec));
    TimesSplit(v.Floor, Frac(v), Pow10(prec));
    assert v.Floor as real + Frac(v) == v;
  }

  /** A number just below 2 that is printed as 1.00. */
  lemma NoCarryExample()
    ensures DoubleText(1.999, 2) == Text("1.00")
    ensures DecimalReal(DoubleText(1.999, 2)) == 1.0
  {
    assert Pow10(2) == 100;
    assert (1.999).Floor == 1;
    assert (1.999 * 100.0 + 0.5).Floor == 200;
    assert FractionDigits(1.999, 2) == 0;
    assert Zeros(1) == [48];
    DoubleTextDenotes(1.999, 2);
  }
}
