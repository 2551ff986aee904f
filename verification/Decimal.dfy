/** Decimal text: `fmt_ulong`, `fmt_uint64` and `scan_ulong`. */
module Decimal {
  import opened Bytes

  function Pow10(n: nat): (p: nat)
    ensures p > 0
  {
    if n == 0 then 1 else 10 * Pow10(n - 1)
  }

  predicate AllDigits(ds: seq<byte>) {
    forall i :: 0 <= i < |ds| ==> IsDigit(ds[i])
  }

  /** The canonical decimal digits of `n`, most significant first. */
  function Digits(n: nat): (ds: seq<byte>)
    ensures ds != [] && AllDigits(ds)
  {
    if n < 10 then [48 + n] else Digits(n / 10) + [48 + n % 10]
  }

  /** The number a run of digits denotes. */
  function Value(ds: seq<byte>): (v: nat)
    requires AllDigits(ds)
  {
    if ds == [] then 0 else Value(ds[..|ds| - 1]) * 10 + (ds[|ds| - 1] - 48)
  }

  /** The length of the longest run of digits at the start of `s`. */
  function DigitRun(s: seq<byte>): (k: nat)
    ensures k <= |s| && AllDigits(s[..k]) && (k < |s| ==> !IsDigit(s[k]))
  {
    if s == [] || !IsDigit(s[0]) then 0 else
      var k := DigitRun(s[1..]);
      assert s[..k + 1] == [s[0]] + s[1..][..k];
      1 + k
  }

  predicate Canonical(ds: seq<byte>) {
    ds != [] && AllDigits(ds) && (|ds| > 1 ==> ds[0] != 48)
  }

  lemma {:induction false} DigitRunIs(s: seq<byte>, k: nat)
    requires k <= |s| && AllDigits(s[..k]) && (k < |s| ==> !IsDigit(s[k]))
    ensures DigitRun(s) == k
  {
    if k > 0 {
      assert s[0] == s[..k][0];
      assert s[1..][..k - 1] == s[..k][1..];
      DigitRunIs(s[1..], k - 1);
    }
  }

  /** `Digits` is canonical and denotes its argument. */
  lemma {:induction false} DigitsDenote(n: nat)
    ensures Canonical(Digits(n)) && Value(Digits(n)) == n
  {
    if n < 10 {
      assert [48 + n][..0] == [];
    } else {
      DigitsDenote(n / 10);
      assert Digits(n)[..|Digits(n)| - 1] == Digits(n / 10);
      if |Digits(n / 10)| == 1 {
        assert Value(Digits(n / 10)) == Value(Digits(n / 10)[..0]) * 10 + (Digits(n / 10)[0] - 48);
      }
    }
  }

  /** The ten digits, and what a digit behind a number does to it. */
  lemma DigitsSpelled(n: nat, d: nat)
    requires d < 10
    ensures Digits(d) == [Text("0123456789")[d]] && Value([Text("0123456789")[d]]) == d
    ensures n > 0 ==> Digits(n * 10 + d) == Digits(n) + [Text("0123456789")[d]]
  {
    assert Text("0123456789") == [48, 49, 50, 51, 52, 53, 54, 55, 56, 57];
    assert [Text("0123456789")[d]][..0] == [];
    assert (n * 10 + d) / 10 == n && (n * 10 + d) % 10 == d;
  }

  /** A canonical text is the only canonical text of its number. */
  lemma {:induction false} CanonicalUnique(ds: seq<byte>)
    requires Canonical(ds)
    ensures Digits(Value(ds)) == ds
  {
    var init, last := ds[..|ds| - 1], ds[|ds| - 1];
    if |ds| == 1 {
      assert init == [];
    } else {
      CanonicalUnique(init);
      CanonicalPositive(init);
      assert Value(ds) / 10 == Value(init) && Value(ds) % 10 == last - 48;
      assert ds == init + [last];
    }
  }

  lemma {:induction false} CanonicalPositive(ds: seq<byte>)
    requires ds != [] && AllDigits(ds) && ds[0] != 48
    ensures Value(ds) > 0
  {
    if |ds| == 1 {
      assert Value(ds) == Value(ds[..0]) * 10 + (ds[0] - 48);
    } else {
      CanonicalPositive(ds[..|ds| - 1]);
    }
  }

  lemma {:induction false} ValueBound(ds: seq<byte>)
    requires AllDigits(ds)
    ensures Value(ds) < Pow10(|ds|)
  {
    if ds != [] { ValueBound(ds[..|ds| - 1]); }
  }

  /** `n` has at most `k` digits exactly when it is below 10^k. */
  lemma {:induction false} DigitsLength(n: nat, k: nat)
    requires k > 0
    ensures |Digits(n)| <= k <==> n < Pow10(k)
  {
    if k == 1 {
      assert Pow10(1) == 10 * Pow10(0);
    } else if n < 10 {
      PowGrows(k);
    } else {
      DigitsLength(n / 10, k - 1);
    }
  }

  lemma {:induction false} PowGrows(k: nat)
    requires k > 0
    ensures Pow10(k) >= 10
  {
    if k > 1 { PowGrows(k - 1); }
  }

  lemma {:induction false} PowAdd(a: nat, b: nat)
    ensures Pow10(a + b) == Pow10(a) * Pow10(b)
  {
    if a > 0 {
      PowAdd(a - 1, b);
      assert Pow10(a) * Pow10(b) == 10 * (Pow10(a - 1) * Pow10(b));
    }
  }

  lemma Pow10Twenty()
    ensures Pow10(5) == 100000 && Pow10(10) == 10000000000 && Pow10(20) == 100000000000000000000
  {
    assert Pow10(5) == 100000;
    PowAdd(5, 5);
    PowAdd(10, 10);
  }

  /** An unsigned 64-bit number has at most twenty digits. */
  lemma WordDigits(n: u64)
    ensures |Digits(n)| <= 20
  {
    Pow10Twenty();
    DigitsLength(n, 20);
  }

  /** Zeros on the left do not change the number. */
  lemma {:induction false} ValueAppend(a: seq<byte>, b: seq<byte>)
    requires AllDigits(a) && AllDigits(b)
    ensures AllDigits(a + b) && Value(a + b) == Value(a) * Pow10(|b|) + Value(b)
  {
    assert AllDigits(a + b);
    if b == [] {
      assert a + b == a;
    } else {
      var b' := b[..|b| - 1];
      ValueAppend(a, b');
      assert (a + b)[..|a + b| - 1] == a + b';
      assert Pow10(|b|) == 10 * Pow10(|b'|);
      Tenfold(Value(a), Pow10(|b'|));
    }
  }

  lemma Tenfold(x: nat, p: nat)
    ensures x * (10 * p) == 10 * (x * p)
  {
  }

  /** `fmt_ulong`; a null buffer asks for the length only. */
  method FmtUlong(s: array?<byte>, u: u64) returns (len: nat)
    requires s != null ==> |Digits(u)| <= s.Length
    modifies if s == null then {} else {s}
    ensures len == |Digits(u)|
    ensures s != null ==> s[..len] == Digits(u) && s[len..] == old(s[len..])
  {
    len := 1;
    var q := u;
    while q > 9
      invariant 0 <= q && len >= 1
      invariant |Digits(u)| == len - 1 + |Digits(q)|
    {
      len, q := len + 1, q / 10;
    }
    if s != null {
      Fill(s, len, u);
    }
  }

  /** `fmt_uint64`: the same length loop, counted in the loop header. */
  method FmtUint64(s: array?<byte>, val: u64) returns (l: nat)
    requires s != null ==> |Digits(val)| <= s.Length
    modifies if s == null then {} else {s}
    ensures l == |Digits(val)|
    ensures s != null ==> s[..l] == Digits(val) && s[l..] == old(s[l..])
  {
    var v := val;
    l := 1;
    while v > 9
      invariant 0 <= v && l >= 1
      invariant |Digits(val)| == l - 1 + |Digits(v)|
    {
      v := v / 10;
      l := l + 1;
    }
    if s != null {
      Fill(s, l, val);
    }
  }

  /** The backward fill shared by both formatters: digits are written from `s[len - 1]` down to `s[0]`. */
  method Fill(s: array<byte>, len: nat, u: u64)
    requires len == |Digits(u)| <= s.Length
    modifies s
    ensures s[..len] == Digits(u) && s[len..] == old(s[len..])
  {
    var k, v := len - 1, u / 10;
    s[k] := 48 + u % 10;
    assert s[k..len] == [48 + u % 10];
    while v != 0
      invariant 0 <= v && 0 <= k < len
      invariant s[len..] == old(s[len..])
      invariant v > 0 ==> k == |Digits(v)| && Digits(v) + s[k..len] == Digits(u)
      invariant v == 0 ==> k == 0 && s[0..len] == Digits(u)
      decreases v
    {
      ghost var d := s[k..len];
      k := k - 1;
      s[k] := 48 + v % 10;
      assert s[k..len] == [48 + v % 10] + d;
      if v >= 10 {
        assert Digits(v) + d == Digits(v / 10) + ([48 + v % 10] + d);
      }
      v := v / 10;
    }
    assert s[..len] == s[0..len];
  }

  /** The scanner's digit test: the byte minus '0', as an unsigned char. */
  function DigitOf(b: byte): (c: nat)
    ensures c < 10 <==> IsDigit(b)
    ensures c < 10 ==> c == b - 48
  {
    AsChar(b as int - 48) % 256
  }

  lemma WrapDigit(v: nat, c: nat)
    ensures (v % U64 * 10 + c) % U64 == (v * 10 + c) % U64
  {
    WrapMultiple(v % U64 * 10 + c, 10 * (v / U64));
  }

  /** `scan_ulong`: how many leading digits `s` has, and their number modulo 2^64. */
  method ScanUlong(s: seq<byte>) returns (pos: nat, u: u64)
    requires DigitRun(s) < |s|
    ensures pos == DigitRun(s)
    ensures u == Value(s[..pos]) % U64
  {
    pos, u := 0, 0;
    var c := DigitOf(s[pos]);
    while c < 10
      invariant pos < |s| && AllDigits(s[..pos])
      invariant c == DigitOf(s[pos])
      invariant u == Value(s[..pos]) % U64
      decreases |s| - pos
    {
      assert s[..pos + 1][..pos] == s[..pos];
      WrapDigit(Value(s[..pos]), c);
      u := (u * 10 + c) % U64;
      pos := pos + 1;
      if pos == |s| { DigitRunIs(s, pos); }
      c := DigitOf(s[pos]);
    }
    DigitRunIs(s, pos);
  }

  /** Formatting, then scanning up to any following non-digit, gives the number back. */
  method FormatThenScan(buf: array<byte>, u: u64, after: byte) returns (pos: nat, back: u64)
    requires buf.Length > 20 && !IsDigit(after)
    modifies buf
    ensures back == u && pos == |Digits(u)|
  {
    WordDigits(u);
    var len := FmtUlong(buf, u);
    buf[len] := after;
    DigitsDenote(u);
    ghost var s := buf[..];
    assert s[..len] == Digits(u) && s[len] == after;
    DigitRunIs(s, len);
    pos, back := ScanUlong(buf[..]);
  }
}
