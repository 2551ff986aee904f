/** `write_uint64` and `write_uint64_human`: whole numbers, plain and scaled by powers of 1000. */
module Human {
  import opened Bytes
  import opened Decimal
  import opened Streams
  import opened WriteDouble

  method WriteUint64(fd: Output, val: u64)
    modifies fd
    ensures fd.text == old(fd.text) + Digits(val)
  {
    WordDigits(val);
    var buf := new byte[40];
    var n := FmtUint64(buf, val);
    fd.Write(buf[..n]);
  }

  /** `human_suf`, with the NUL that ends it. */
  const SUFFIXES := Text("_kmgt") + [NUL]

  function Pow1000(k: nat): (p: nat)
    ensures p > 0
  {
    if k == 0 then 1 else 1000 * Pow1000(k - 1)
  }

  /** How often the loop divides: as long as a thousandth of `v` is still above `min`. */
  function Steps(min: nat, v: nat): nat
    decreases v
  {
    if v / 1000 > min then 1 + Steps(min, v / 1000) else 0
  }

  /** The first value that needs more than `k` divisions: (min + 1) * 1000^(k + 1). */
  function Limit(min: nat, k: nat): (l: nat)
    ensures l > 0
  {
    if k == 0 then 1000 * (min + 1) else 1000 * Limit(min, k - 1)
  }

  /** The number printed before the suffix. */
  function Mantissa(val: nat, scale: nat): (q: real)
    requires scale > 0
    ensures q >= 0.0
  {
    QuotientRange(val, scale);
    val as real / scale as real
  }

  /** The text `write_uint64_human` writes, while the suffix is in the table. */
  function HumanText(min: nat, val: nat): seq<byte> {
    var k := Steps(min, val);
    DoubleText(Mantissa(val, Pow1000(k)), 2) + if 0 < k < |SUFFIXES| then [SUFFIXES[k]] else []
  }

  /** What the suffix of a human text stands for, if it has one. */
  function Unit(t: seq<byte>): (u: nat)
    ensures u > 0
  {
    if t == [] then 1
    else if t[|t| - 1] == 'k' as int then 1000
    else if t[|t| - 1] == 'm' as int then 1000000
    else if t[|t| - 1] == 'g' as int then 1000000000
    else if t[|t| - 1] == 't' as int then 1000000000000
    else 1
  }

  /** The text without its suffix. */
  function Number(t: seq<byte>): seq<byte> {
    if Unit(t) == 1 then t else t[..|t| - 1]
  }

  /** Reading a human text as a person does: the decimal, times what the suffix stands for. */
  function HumanReal(t: seq<byte>): real
    requires IsDecimal(Number(t))
  {
    Times(DecimalReal(Number(t)), Unit(t))
  }

  /** The text has two decimals, at most four digits before them, and reads back as the value, up to 1/200 of what
      the suffix stands for exactly if the value stays out of the last half percent below a multiple of that. */
  predicate ReadsBack(t: seq<byte>, val: nat) {
    var u := Unit(t);
    && IsDecimal(Number(t)) && |Number(t)| == |Digits(val / u)| + 3
    && val < 2000 * u && (u > 1 ==> 2 * u <= val)
    && (-(u as real) <= 200.0 * (HumanReal(t) - val as real) <= u as real <==> 200 * (val % u) < 199 * u)
  }

  /** Below 2 * 10^15, with min = 1 as all callers have it, the text reads back as the value; with a NUL for a
      suffix up to 2 * 10^18, and an access behind the table from there on. */
  method WriteUint64Human(fd: Output, min: u64, val: u64) returns (offTable: bool)
    requires 100000 * (min + 1) < U64
    modifies fd
    ensures old(fd.text) <= fd.text
    ensures min == 1 && val < 2000000000000000 ==>
              ReadsBack(fd.text[|old(fd.text)|..], val)
    ensures min == 1 && 2000000000000000 <= val < 2000000000000000000 ==>
              fd.text == old(fd.text) + DoubleText(val as real / 1000000000000000.0, 2) + [0]
    ensures offTable <==> val >= (min + 1) * 1000000000000000000
    ensures fd.text == old(fd.text) + HumanText(min, val)
  {
    hide ReadsBack, DoubleText, Mantissa;
    var v, scale: nat, suf: nat := val, 1, 0;
    StepsLeast(min, val);
    WordSteps(min, val);
    while v / 1000 > min && suf < |SUFFIXES| + 1
      invariant 0 <= v && scale == Pow1000(suf) && v == val / scale
      invariant Steps(min, val) == suf + Steps(min, v)
      invariant fd.text == old(fd.text)
      decreases v
    {
      DivThousand(val, scale);
      v := v / 1000;
      scale := scale * 1000;
      suf := suf + 1;
    }
    assert Steps(min, v) == 0 && suf == Steps(min, val);
    MantissaInRange(min, val);
    WriteDouble.WriteDouble(fd, Mantissa(val, scale), 2);
    offTable := false;
    if suf > 0 {
      if suf < |SUFFIXES| {
        fd.Write([SUFFIXES[suf]]);
      } else {
        offTable := true;
      }
    }
    Appended(old(fd.text), fd.text, min, val);
  }

  /** What the appended text means. */
  lemma Appended(before: seq<byte>, after: seq<byte>, min: nat, val: nat)
    requires after == before + HumanText(min, val)
    ensures min == 1 && val < 2000000000000000 ==> ReadsBack(after[|before|..], val)
    ensures min == 1 && 2000000000000000 <= val < 2000000000000000000 ==>
              after == before + DoubleText(val as real / 1000000000000000.0, 2) + [0]
    ensures Steps(min, val) >= |SUFFIXES| <==> val >= (min + 1) * 1000000000000000000
  {
    hide ReadsBack, DoubleText, HumanText;
    assert after[|before|..] == HumanText(min, val);
    HumanReads(min, val);
    SuffixExactly(min, val);
  }

  lemma QuotientRange(a: nat, b: nat)
    requires b > 0
    ensures a as real / b as real >= 0.0
  {
    var q := a as real / b as real;
    assert q * b as real == a as real;
    MulSign(q, b as real);
  }

  /** Dividing step by step is dividing by the product. */
  lemma DivThousand(a: nat, b: nat)
    requires b > 0
    ensures a / b / 1000 == a / (b * 1000)
  {
    var q, r := a / b, a % b;
    var k, m := q / 1000, q % 1000;
    assert a == b * q + r;
    assert b * q == b * (1000 * k + m) == (b * 1000) * k + b * m;
    BelowThousand(b, m);
    DivUnique(a, b * 1000, k, b * m + r);
  }

  lemma BelowThousand(b: nat, m: nat)
    requires m < 1000
    ensures b * m <= 999 * b
  {
    assert b * (999 - m) >= 0;
  }

  lemma DivUnique(a: nat, d: nat, q: nat, r: nat)
    requires d > 0 && a == d * q + r && r < d
    ensures a / d == q && a % d == r
  {
    var e := a / d - q;
    assert e * d == r - a % d;
    MulBetween(e, d);
  }

  /** The loop stops at the least power that brings the value under the limit. */
  lemma {:induction false} StepsLeast(min: nat, v: nat)
    ensures v < Limit(min, Steps(min, v))
    ensures forall j :: 0 <= j < Steps(min, v) ==> v >= Limit(min, j)
    decreases v
  {
    if v / 1000 > min {
      StepsLeast(min, v / 1000);
      forall j | 0 <= j < Steps(min, v) ensures v >= Limit(min, j) {
        if j > 0 { assert v / 1000 >= Limit(min, j - 1); }
      }
    }
  }

  lemma {:induction false} LimitGrows(min: nat, j: nat, k: nat)
    requires j <= k
    ensures Limit(min, j) <= Limit(min, k)
    decreases k
  {
    if j < k { LimitGrows(min, j, k - 1); }
  }

  /** How many divisions a value takes, read off its size. */
  lemma StepsAtMost(min: nat, v: nat, k: nat)
    ensures Steps(min, v) <= k <==> v < Limit(min, k)
  {
    StepsLeast(min, v);
    if Steps(min, v) <= k {
      LimitGrows(min, Steps(min, v), k);
    }
  }

  lemma {:induction false} LimitIs(min: nat, k: nat)
    ensures Limit(min, k) == (min + 1) * Pow1000(k + 1)
    ensures Limit(min, k) >= Pow1000(k + 1)
  {
    if k > 0 {
      LimitIs(min, k - 1);
      assert 1000 * ((min + 1) * Pow1000(k)) == (min + 1) * (1000 * Pow1000(k));
    } else {
      assert Pow1000(1) == 1000 * Pow1000(0);
    }
  }

  /** The pointer bound in the loop guard never stops the loop, and the scale stays a 64-bit word. */
  lemma WordSteps(min: nat, v: u64)
    ensures Steps(min, v) <= 6
    ensures Pow1000(Steps(min, v)) < U64
    ensures Steps(min, v) > 0 ==> Pow1000(Steps(min, v)) <= v
  {
    LimitIs(min, 6);
    assert Pow1000(4) == 1000000000000;
    assert Pow1000(7) == 1000000000 * Pow1000(4);
    StepsAtMost(min, v, 6);
    var k := Steps(min, v);
    if k > 0 {
      StepsLeast(min, v);
      assert v >= Limit(min, k - 1);
      LimitIs(min, k - 1);
    }
  }

  /** What is left of the value after scaling lies between `min + 1` and 1000 times that. */
  lemma ScaledRange(min: nat, val: nat)
    ensures var k := Steps(min, val);
      && val < 1000 * (min + 1) * Pow1000(k)
      && (k > 0 ==> (min + 1) * Pow1000(k) <= val)
  {
    var k := Steps(min, val);
    StepsLeast(min, val);
    LimitIs(min, k);
    Rearrange(min + 1, Pow1000(k));
    if k > 0 {
      assert val >= Limit(min, k - 1);
      LimitIs(min, k - 1);
    }
  }

  lemma Rearrange(m: nat, p: nat)
    ensures m * (1000 * p) == 1000 * m * p
  {
  }

  lemma QuotientBelow(val: nat, scale: nat, bound: nat)
    requires scale > 0 && val < bound * scale
    ensures Mantissa(val, scale) < bound as real
  {
    var q, s := val as real / scale as real, scale as real;
    assert q * s == val as real;
    assert (bound * scale) as real == bound as real * s;
    if q >= bound as real { assert q * s >= bound as real * s; }
  }

  lemma MantissaInRange(min: nat, val: nat)
    requires 100000 * (min + 1) < U64
    ensures InRange(Mantissa(val, Pow1000(Steps(min, val))), 2)
  {
    var q := Mantissa(val, Pow1000(Steps(min, val)));
    ScaledRange(min, val);
    QuotientBelow(val, Pow1000(Steps(min, val)), 1000 * (min + 1));
    assert Pow10(2) == 100;
    assert Times(q, 100) == q * 100.0;
  }

  /** A suffix letter of `_kmgt` is printed, or none is needed, exactly below (min + 1) * 10^15;
      with min = 1, as all callers have it, below 2 * 10^15. From there on the NUL behind the letters
      is written, and from (min + 1) * 10^18 the table is overrun. */
  lemma SuffixExactly(min: nat, val: nat)
    ensures Steps(min, val) <= 4 <==> val < (min + 1) * 1000000000000000
    ensures Steps(min, val) <= 5 <==> val < (min + 1) * 1000000000000000000
  {
    StepsAtMost(min, val, 4);
    StepsAtMost(min, val, 5);
    LimitIs(min, 4);
    LimitIs(min, 5);
    assert Pow1000(3) == 1000000000;
    assert Pow1000(5) == 1000000 * Pow1000(3) && Pow1000(6) == 1000 * Pow1000(5);
  }

  lemma TimesQuotient(val: nat, scale: nat)
    requires scale > 0
    ensures Times(val as real / scale as real, scale) == val as real
  {
  }

  lemma TimesMinus(x: real, k: int, n: nat)
    ensures Times(x - k as real, n) == Times(x, n) - (k * n) as real
  {
  }

  lemma TimesNegated(x: real, n: nat)
    ensures Times(-x, n) == -Times(x, n)
  {
  }

  lemma TimesSign(d: real, n: nat)
    requires n > 0
    ensures d >= 0.0 <==> Times(d, n) >= 0.0
    ensures d > 0.0 <==> Times(d, n) > 0.0
  {
    MulSign(d, n as real);
  }

  lemma QuotientFloor(val: nat, scale: nat)
    requires scale > 0
    ensures Mantissa(val, scale).Floor == val / scale
    ensures Times(Mantissa(val, scale), scale) == val as real
    ensures Times(Frac(Mantissa(val, scale)), scale) == (val % scale) as real
  {
    hide Times;
    var q, k := val as real / scale as real, val / scale;
    TimesQuotient(val, scale);
    assert val == k * scale + val % scale;
    var f := q - k as real;
    TimesMinus(q, k, scale);
    TimesSign(f, scale);
    TimesMinus(-f, -1, scale);
    TimesNegated(f, scale);
    TimesSign(1.0 - f, scale);
    assert -f - (-1) as real == 1.0 - f;
    assert q.Floor == k && Frac(q) == f;
  }

  /** The printed number, times the scale its suffix stands for, is within 1/200 of that scale of the
      value exactly when the remainder stays out of the last half percent, where rounding would carry. */
  lemma HumanError(val: nat, scale: nat)
    requires scale > 0
    ensures var t := DoubleText(Mantissa(val, scale), 2);
      && IsDecimal(t)
      && (-(scale as real) <= 200.0 * (Times(DecimalReal(t), scale) - val as real) <= scale as real
          <==> 200 * (val % scale) < 199 * scale)
  {
    hide DoubleText, DecimalReal, IsDecimal, Pow10;
    var q := Mantissa(val, scale);
    assert Pow10(2) == 100 by { PowTwo(); }
    ErrorBound(q, 2);
    QuotientFloor(val, scale);
    ScaleError(DecimalReal(DoubleText(q, 2)), q, Frac(q), scale);
  }

  lemma PowTwo()
    ensures Pow10(2) == 100
  {
  }

  lemma ScaleError(x: real, q: real, f: real, scale: nat)
    requires scale > 0
    ensures Near(x, q, 100) <==> -(scale as real) <= 200.0 * (Times(x, scale) - Times(q, scale)) <= scale as real
    ensures Times(f, 100) + 0.5 < 100.0 <==> 200.0 * Times(f, scale) < 199.0 * scale as real
  {
    var s, e, g := scale as real, 200.0 * (x - q), 200.0 * f - 199.0;
    assert e * s == 200.0 * (x * s - q * s);
    MulSign(1.0 - e, s);
    MulSign(1.0 + e, s);
    MulSign(-g, s);
  }

  lemma MulSign(d: real, s: real)
    requires s > 0.0
    ensures d >= 0.0 <==> d * s >= 0.0
    ensures d > 0.0 <==> d * s > 0.0
  {
  }

  /** The suffix that belongs to a power of 1000. */
  lemma SuffixMeans(min: nat, val: nat)
    ensures var k, t := Steps(min, val), HumanText(min, val);
      k <= 4 ==> Unit(t) == Pow1000(k) && Number(t) == DoubleText(Mantissa(val, Pow1000(k)), 2)
  {
    hide Steps, Mantissa;
    var k := Steps(min, val);
    var m := DoubleText(Mantissa(val, Pow1000(k)), 2);
    if k <= 4 {
      SmallPowers();
      assert SUFFIXES == [95, 107, 109, 103, 116, 0];
      LastIsDigit(Mantissa(val, Pow1000(k)));
      assert k > 0 ==> (m + [SUFFIXES[k]])[..|m|] == m;
    }
  }

  lemma SmallPowers()
    ensures Pow1000(0) == 1 && Pow1000(1) == 1000 && Pow1000(2) == 1000000 && Pow1000(3) == 1000000000
    ensures Pow1000(4) == 1000000000000 && Pow1000(5) == 1000000000000000
  {
    assert Pow1000(2) == 1000000;
  }

  lemma LastIsDigit(v: real)
    requires v >= 0.0
    ensures var t := DoubleText(v, 2); t != [] && IsDigit(t[|t| - 1])
  {
    var t, f := DoubleText(v, 2), FractionText(v, 2);
    hide FractionText;
    assert t[|t| - 1] == f[1];
  }

  /** What the output means, in the words of the reader. */
  lemma HumanReads(min: nat, val: nat)
    ensures min == 1 && val < 2000000000000000 ==>
              ReadsBack(HumanText(min, val), val)
    ensures min == 1 && 2000000000000000 <= val < 2000000000000000000 ==>
              HumanText(min, val) == DoubleText(val as real / 1000000000000000.0, 2) + [0]
    ensures val >= (min + 1) * 1000000000000000000 ==>
              HumanText(min, val) == DoubleText(Mantissa(val, Pow1000(Steps(min, val))), 2)
  {
    if min == 1 && val < 2000000000000000 { SmallReads(val); }
    if min == 1 && 2000000000000000 <= val < 2000000000000000000 { NulSuffix(val); }
    SuffixExactly(min, val);
  }

  lemma NulSuffix(val: nat)
    requires 2000000000000000 <= val < 2000000000000000000
    ensures HumanText(1, val) == DoubleText(val as real / 1000000000000000.0, 2) + [0]
  {
    hide DoubleText, Pow1000, Steps;
    SuffixExactly(1, val);
    SmallPowers();
    assert Steps(1, val) == 5;
    assert SUFFIXES[5] == 0;
  }

  lemma SmallReads(val: nat)
    requires val < 2000000000000000
    ensures ReadsBack(HumanText(1, val), val)
  {
    hide Steps, Pow1000, Limit, DoubleText, IsDecimal, DecimalReal, Unit, Number, HumanText, Digits, Times, Mantissa;
    var scale := Pow1000(Steps(1, val));
    SuffixExactly(1, val);
    SuffixMeans(1, val);
    ScaledRange(1, val);
    HumanError(val, scale);
    DoubleTextDenotes(Mantissa(val, scale), 2);
    QuotientFloor(val, scale);
    SmallPowers();
    SameParts(val, Unit(HumanText(1, val)), scale);
  }

  lemma SameParts(val: nat, a: nat, b: nat)
    requires a == b && a > 0
    ensures val / a == val / b && val % a == val % b
  {
  }

  lemma TwoExactly(v: real)
    requires v.Floor == 2 && FractionDigits(v, 2) == 0
    ensures DoubleText(v, 2) == Text("2.00")
  {
    hide FractionDigits;
    assert Digits(0) == [48] && Digits(2) == [50];
    assert Zeros(1) == [48];
    assert FractionText(v, 2) == [48, 48];
    assert Text("2.00") == [50, DOT, 48, 48];
  }

  /** 2999 is printed as 2.00k. */
  lemma HumanExample()
    ensures HumanText(1, 2999) == Text("2.00k")
  {
    hide HumanText, DoubleText;
    KiloSuffix(2999);
    assert FractionDigits(2.999, 2) == 0 by {
      PowTwo();
      assert Times(2.999, 100) + 0.5 == 300.4;
    }
    TwoExactly(2.999);
    SpelledKilo();
  }

  lemma SpelledKilo()
    ensures Text("2.00k") == Text("2.00") + ['k' as int]
  {
  }

  lemma KiloSuffix(val: nat)
    requires 2000 <= val < 2000000
    ensures HumanText(1, val) == DoubleText(val as real / 1000.0, 2) + ['k' as int]
  {
    assert Steps(1, val) == 1 by { assert Steps(1, val / 1000) == 0; }
    hide DoubleText, Pow1000, Steps;
    SmallPowers();
    assert SUFFIXES[1] == 107;
  }

  /** 2 * 10^15 is the first value with a NUL for a suffix. */
  lemma SuffixExample()
    ensures HumanText(1, 2000000000000000) == Text("2.00") + [0]
  {
    hide HumanText, DoubleText;
    NulSuffix(2000000000000000);
    assert FractionDigits(2.0, 2) == 0 by {
      PowTwo();
      assert Times(2.0, 100) + 0.5 == 200.5;
    }
    TwoExactly(2.0);
  }
}
