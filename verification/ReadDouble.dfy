/** `read_double_from_fd`, over exact reals: what it makes of every possible input. */
module ReadDouble {
  import opened Bytes
  import opened Decimal
  import opened Streams
  import opened WriteDouble

  /** The ways a call can end. `consumed` is its return value, the number of bytes read. */
  datatype Reading =
    | Stored(value: real, consumed: nat)  // *val was assigned
    | NotFinite(consumed: nat)            // *val was assigned, after a division by a wrapped-around zero
    | Untouched(consumed: nat)            // *val was left alone
    | Stuck                               // the input ended where the loops need a fresh byte: no return

  predicate IsBlank(b: byte) {
    b == SPACE || b == TAB
  }

  predicate AllBlank(s: seq<byte>) {
    forall i :: 0 <= i < |s| ==> IsBlank(s[i])
  }

  function BlankRun(s: seq<byte>): (k: nat)
    ensures k <= |s| && AllBlank(s[..k]) && (k < |s| ==> !IsBlank(s[k]))
  {
    if s == [] || !IsBlank(s[0]) then 0 else
      assert s[..BlankRun(s[1..]) + 1] == [s[0]] + s[1..][..BlankRun(s[1..])];
      1 + BlankRun(s[1..])
  }

  lemma {:induction false} BlankRunIs(s: seq<byte>, k: nat)
    requires k <= |s| && AllBlank(s[..k]) && (k < |s| ==> !IsBlank(s[k]))
    ensures BlankRun(s) == k
  {
    if k > 0 {
      assert s[0] == s[..k][0];
      assert s[1..][..k - 1] == s[..k][1..];
      BlankRunIs(s[1..], k - 1);
    }
  }

  /** Where the digits that start at `from` end. */
  function DigitsEnd(s: seq<byte>, from: nat): (e: nat)
    requires from <= |s|
    ensures from <= e <= |s| && AllDigits(s[from..e]) && (e < |s| ==> !IsDigit(s[e]))
  {
    var k := DigitRun(s[from..]);
    assert s[from..][..k] == s[from..from + k];
    assert from + k < |s| ==> s[from..][k] == s[from + k];
    from + k
  }

  lemma DigitsEndIs(s: seq<byte>, from: nat, e: nat)
    requires from <= e <= |s| && AllDigits(s[from..e]) && (e < |s| ==> !IsDigit(s[e]))
    ensures DigitsEnd(s, from) == e
  {
    assert s[from..][..e - from] == s[from..e];
    DigitRunIs(s[from..], e - from);
  }

  /** The digits between `from` and `to`, accumulated in a 64-bit word. */
  function Word(s: seq<byte>, from: nat, to: nat): (n: u64)
    requires from <= to <= |s| && AllDigits(s[from..to])
    ensures from == to ==> n == 0
  {
    Value(s[from..to]) % U64
  }

  /** The power of ten for `k` fraction digits, in a 64-bit word. */
  function Scale(k: nat): (l: u64)
    ensures k == 0 ==> l == 1
  {
    Pow10(k) % U64
  }

  lemma ScaleStep(k: nat)
    ensures Scale(k) * 10 % U64 == Scale(k + 1)
  {
    WrapDigit(Pow10(k), 0);
  }

  /** What a call makes of the input `s`: blanks, sign, whole part, fraction; whole part and fraction
      as the code accumulates them, in 64-bit words. */
  function ReadingOf(s: seq<byte>): Reading {
    if s == [] then Stored(0.0, 0)
    else
      var b := BlankRun(s);
      if b == |s| then Stuck
      else if s[b] != MINUS then ReadingFromWhole(s, b, 1.0)
      else if b + 1 == |s| then Untouched(b + 1)
      else ReadingFromWhole(s, b + 1, -1.0)
  }

  function ReadingFromWhole(s: seq<byte>, from: nat, sign: real): Reading
    requires from < |s|
  {
    var d := DigitsEnd(s, from);
    if d == |s| then Stuck
    else
      var n := Word(s, from, d);
      if s[d] == DOT then ReadingFromFraction(s, d + 1, n, sign)
      else if s[d] < 128 then Untouched(d + 1)
      else Finish(n, 0, 1, sign, d + 1)
  }

  function ReadingFromFraction(s: seq<byte>, from: nat, whole: nat, sign: real): Reading
    requires from <= |s|
  {
    if from == |s| then Finish(whole, 0, 1, sign, from)
    else
      var e := DigitsEnd(s, from);
      if e == |s| then Stuck
      else Finish(whole, Word(s, from, e), Scale(e - from), sign, e + 1)
  }

  function Finish(whole: nat, n: nat, l: nat, sign: real, consumed: nat): Reading {
    if l == 0 then NotFinite(consumed) else Stored(Assembled(whole, n, l, sign), consumed)
  }

  /** The value assigned at the end, from the whole part, the fraction digits and their scale. */
  function Assembled(whole: nat, n: nat, l: nat, sign: real): real
    requires l > 0
  {
    (whole as real + n as real * (1.0 / l as real)) * sign
  }

  /** One more blank; when it is the last byte, no fresh one will come. */
  lemma MoreBlanks(s: seq<byte>, pos: nat)
    requires 0 < pos <= |s| && AllBlank(s[..pos - 1]) && IsBlank(s[pos - 1])
    ensures AllBlank(s[..pos])
    ensures pos == |s| ==> ReadingOf(s) == Stuck
  {
    assert s[..pos] == s[..pos - 1] + [s[pos - 1]];
    if pos == |s| { BlankRunIs(s, pos); }
  }

  lemma NoBlanks(s: seq<byte>)
    ensures AllBlank(s[..0])
  {
  }

  /** `read_double_from_fd`, on every input on which it returns. */
  method ReadDoubleFromFd(fd: Input) returns (r: Reading)
    requires ReadingOf(fd.pending) != Stuck
    modifies fd
    ensures r == ReadingOf(old(fd.pending))
    ensures r.consumed <= |old(fd.pending)| && fd.pending == old(fd.pending)[r.consumed..]
  {
    hide ReadingFromWhole, AllBlank;
    ghost var s := fd.pending;
    NoBlanks(s);
    var c: byte := 0;
    var sign := 1.0;

    // skip leading spaces
    var pos, more: nat;
    pos, c := fd.ReadOne(c);
    while pos > 0 && IsBlank(c)
      invariant pos <= |s| && fd.pending == s[pos..]
      invariant pos == 0 ==> s == [] && c == 0
      invariant pos > 0 ==> c == s[pos - 1] && AllBlank(s[..pos - 1])
      decreases |s| - pos
    {
      MoreBlanks(s, pos);
      more, c := fd.ReadOne(c);
      pos := pos + more;
    }
    if pos > 0 { BlankRunIs(s, pos - 1); }

    // sign or end of file
    if c == MINUS {
      sign := -1.0;
      more, c := fd.ReadOne(c);
      pos := pos + more;
      if more == 0 { return Untouched(pos); }
    }
    if pos <= 0 {
      return Stored(0.0 * sign, pos);
    }
    assert ReadingOf(s) == ReadingFromWhole(s, pos - 1, sign);
    r := ReadWhole(fd, s, pos - 1, c, sign);
  }

  /** The decimal loop, entered with the byte at `from` in `c`. */
  method ReadWhole(fd: Input, ghost s: seq<byte>, from: nat, first: byte, sign: real) returns (r: Reading)
    requires from < |s| && s[from] == first && fd.pending == s[from + 1..]
    requires ReadingFromWhole(s, from, sign) != Stuck
    modifies fd
    ensures r == ReadingFromWhole(s, from, sign)
    ensures r.consumed <= |s| && fd.pending == s[r.consumed..]
  {
    hide Word, Assembled, AllDigits, ReadingFromFraction;
    NoDigits(s, from);
    var c, pos, more := first, from + 1, 0;
    var n: u64 := 0;
    while c < 128
      invariant from < pos <= |s| && fd.pending == s[pos..] && c == s[pos - 1]
      invariant AllDigits(s[from..pos - 1]) && n == Word(s, from, pos - 1)
      decreases |s| - pos
    {
      if IsDigit(c) {
        ReadDigit(s, from, pos);
        n := (n * 10 + (c - 48)) % U64;
      } else if c == DOT {
        break;
      } else {
        DigitsEndIs(s, from, pos - 1);
        return Untouched(pos);
      }
      NextByte(s, pos);
      more, c := fd.ReadOne(c);
      pos := pos + more;
    }
    DigitsEndIs(s, from, pos - 1);
    if c == DOT {
      r := ReadFraction(fd, s, pos, n, sign);
    } else {
      // a negative char ends both loops
      r := Stored(Assembled(n, 0, 1, sign), pos);
    }
  }

  /** The rest of the call, from the byte behind the dot. */
  method ReadFraction(fd: Input, ghost s: seq<byte>, from: nat, whole: u64, sign: real) returns (r: Reading)
    requires 0 < from <= |s| && s[from - 1] == DOT && fd.pending == s[from..]
    requires ReadingFromFraction(s, from, whole, sign) != Stuck
    modifies fd
    ensures r == ReadingFromFraction(s, from, whole, sign)
    ensures r.consumed <= |s| && fd.pending == s[r.consumed..]
  {
    hide Word, Scale, Assembled, DigitsEnd;
    var c: byte := DOT;
    var pos, more := from, 0;
    NextByte(s, pos);
    more, c := fd.ReadOne(c);
    pos := pos + more;
    if more == 0 {
      // the dot was the last byte: it is still in c, and the loop would end at once
      return Stored(Assembled(whole, 0, 1, sign), pos);
    }
    var n: u64, l: u64;
    pos, n, l := ReadFractionDigits(fd, s, from, c);
    r := if l == 0 then NotFinite(pos) else Stored(Assembled(whole, n, l, sign), pos);
  }

  /** The fraction loop, entered with the byte at `from` in `c`. */
  method ReadFractionDigits(fd: Input, ghost s: seq<byte>, from: nat, first: byte) returns (pos: nat, n: u64, l: u64)
    requires from < |s| && s[from] == first && fd.pending == s[from + 1..] && DigitsEnd(s, from) < |s|
    modifies fd
    ensures pos == DigitsEnd(s, from) + 1 && fd.pending == s[pos..]
    ensures n == Word(s, from, pos - 1) && l == Scale(pos - 1 - from)
  {
    hide Word, Scale, AllDigits, DigitsEnd;
    NoDigits(s, from);
    var c, more := first, 0;
    pos, n, l := from + 1, 0, 1;
    while c < 128 && IsDigit(c)
      invariant from < pos <= |s| && fd.pending == s[pos..] && c == s[pos - 1]
      invariant AllDigits(s[from..pos - 1]) && n == Word(s, from, pos - 1)
      invariant l == Scale(pos - 1 - from)
      decreases |s| - pos
    {
      ScaleStep(pos - 1 - from);
      l := l * 10 % U64;
      ReadDigit(s, from, pos);
      n := (n * 10 + (c - 48)) % U64;
      NextByte(s, pos);
      more, c := fd.ReadOne(c);
      pos := pos + more;
    }
    DigitsEndIs(s, from, pos - 1);
  }

  lemma NextByte(s: seq<byte>, pos: nat)
    requires pos <= |s|
    ensures if pos == |s| then s[pos..] == [] else s[pos..][0] == s[pos] && s[pos..][1..] == s[pos + 1..]
  {
  }

  lemma NoDigits(s: seq<byte>, from: nat)
    requires from <= |s|
    ensures AllDigits(s[from..from]) && Word(s, from, from) == 0 && Scale(0) == 1
  {
  }

  /** One more digit: it is not the last byte unless the call gets stuck, and the word accumulates it. */
  lemma ReadDigit(s: seq<byte>, from: nat, pos: nat)
    requires from < pos <= |s| && IsDigit(s[pos - 1]) && AllDigits(s[from..pos - 1])
    ensures AllDigits(s[from..pos])
    ensures (Word(s, from, pos - 1) * 10 + (s[pos - 1] - 48)) % U64 == Word(s, from, pos)
    ensures pos == |s| ==> DigitsEnd(s, from) == |s|
  {
    assert s[from..pos] == s[from..pos - 1] + [s[pos - 1]];
    assert s[from..pos][..pos - 1 - from] == s[from..pos - 1];
    WrapDigit(Value(s[from..pos - 1]), s[pos - 1] - 48);
    if pos == |s| { DigitsEndIs(s, from, pos); }
  }

  function SignText(negative: bool): seq<byte> {
    if negative then [MINUS] else []
  }

  function Sign(negative: bool): real {
    if negative then -1.0 else 1.0
  }

  /** Behind blanks and a sign, the call continues with the whole part. */
  lemma ReadsSigned(blanks: seq<byte>, negative: bool, rest: seq<byte>)
    requires AllBlank(blanks) && rest != [] && (negative || (!IsBlank(rest[0]) && rest[0] != MINUS))
    ensures var s := blanks + SignText(negative) + rest;
      ReadingOf(s) == ReadingFromWhole(s, |s| - |rest|, Sign(negative))
  {
    hide ReadingFromWhole;
    var s := blanks + SignText(negative) + rest;
    assert s[..|blanks|] == blanks;
    assert s[|blanks|] == if negative then MINUS else rest[0];
    BlankRunIs(s, |blanks|);
  }

  lemma WordFits(digits: seq<byte>)
    requires AllDigits(digits) && |digits| <= 19
    ensures Value(digits) < U64 && Pow10(|digits|) < U64
  {
    hide Value, Pow10;
    var k := |digits|;
    ValueBound(digits);
    Pow10Twenty();
    PowAdd(k, 20 - k);
    PowGrows(20 - k);
    AtLeastTenfold(Pow10(k), Pow10(20 - k));
  }

  lemma AtLeastTenfold(a: nat, b: nat)
    requires b >= 10
    ensures a * 10 <= a * b
  {
  }

  lemma AssembledExact(whole: nat, n: nat, l: nat, sign: real)
    requires l > 0
    ensures Assembled(whole, n, l, sign) == (whole as real + n as real / l as real) * sign
  {
    assert n as real * (1.0 / l as real) == n as real / l as real;
  }

  /** The text `[-]dec` behind blanks. */
  function SignedText(blanks: seq<byte>, negative: bool, whole: seq<byte>): seq<byte> {
    blanks + (if negative then Text("-") else []) + whole
  }

  function Signed(negative: bool, x: real): real {
    if negative then -x else x
  }

  lemma SignedTextIs(blanks: seq<byte>, negative: bool, whole: seq<byte>)
    ensures SignedText(blanks, negative, whole) == blanks + SignText(negative) + whole
    ensures Text(".") == [DOT] && Text("-") == [MINUS]
  {
    assert Text("-") == [MINUS];
  }

  /** `[-]dec.frac`, with any numbers of digits, up to the first byte that is no digit: whole part, fraction and
      scale as 64-bit words; what follows is not touched. */
  lemma ReadsWords(blanks: seq<byte>, negative: bool, whole: seq<byte>, frac: seq<byte>, after: byte, more: seq<byte>)
    requires (forall i :: 0 <= i < |blanks| ==> blanks[i] in Text(" \t"))
    requires AllDigits(whole) && AllDigits(frac) && !IsDigit(after)
    ensures var s := SignedText(blanks, negative, whole) + Text(".") + frac + [after] + more;
      ReadingOf(s)
      == FromWords(negative, Value(whole) % 0x1_0000_0000_0000_0000, Value(frac) % 0x1_0000_0000_0000_0000,
                   Pow10(|frac|) % 0x1_0000_0000_0000_0000, |s| - |more|)
  {
    hide Value, Pow10, ReadingOf, ReadingFromFraction, ReadingFromWhole, Finish;
    var rest := whole + [DOT] + frac + [after] + more;
    var s := blanks + SignText(negative) + rest;
    var from := |s| - |rest|;
    var d := from + |whole|;
    var e := d + 1 + |frac|;
    SignedTextIs(blanks, negative, whole);
    assert s == SignedText(blanks, negative, whole) + Text(".") + frac + [after] + more;
    BlanksAre(blanks);
    ReadsSigned(blanks, negative, rest);
    assert s[from..d] == whole && s[d] == DOT;
    assert s[d + 1..e] == frac && s[e] == after;
    ReadsParts(s, from, d, e, Sign(negative));
    FinishIs(Value(whole) % U64, Value(frac) % U64, Scale(|frac|), negative, e + 1);
  }

  lemma BlanksAre(blanks: seq<byte>)
    ensures AllBlank(blanks) <==> forall i :: 0 <= i < |blanks| ==> blanks[i] in Text(" \t")
  {
    assert Text(" \t") == [32, 9];
  }

  /** The number `[-]whole.n` with the fraction in units of 1 / l. */
  function FromWords(negative: bool, whole: nat, n: nat, l: nat, consumed: nat): Reading {
    if l == 0 then NotFinite(consumed)
    else Stored(Signed(negative, whole as real + n as real / l as real), consumed)
  }

  lemma FinishIs(whole: nat, n: nat, l: nat, negative: bool, consumed: nat)
    ensures Finish(whole, n, l, Sign(negative), consumed) == FromWords(negative, whole, n, l, consumed)
  {
    if l > 0 { AssembledExact(whole, n, l, Sign(negative)); }
  }

  lemma ReadsParts(s: seq<byte>, from: nat, d: nat, e: nat, sign: real)
    requires from <= d < e < |s| && AllDigits(s[from..d]) && s[d] == DOT
    requires AllDigits(s[d + 1..e]) && !IsDigit(s[e])
    ensures ReadingFromWhole(s, from, sign)
         == Finish(Word(s, from, d), Word(s, d + 1, e), Scale(e - d - 1), sign, e + 1)
  {
    hide Word, Finish, Scale, DigitsEnd;
    DigitsEndIs(s, from, d);
    DigitsEndIs(s, d + 1, e);
  }

  /** With up to 19 fraction digits and a whole part of 64 bits, the exact decimal value is stored. */
  lemma ReadsDecimal(blanks: seq<byte>, negative: bool, whole: seq<byte>, frac: seq<byte>,
                     after: byte, more: seq<byte>)
    requires (forall i :: 0 <= i < |blanks| ==> blanks[i] in Text(" \t"))
    requires AllDigits(whole) && AllDigits(frac) && !IsDigit(after)
    requires Value(whole) < 0x1_0000_0000_0000_0000 && |frac| <= 19
    ensures var s := SignedText(blanks, negative, whole) + Text(".") + frac + [after] + more;
      ReadingOf(s)
      == Stored(Signed(negative, Value(whole) as real + Value(frac) as real / Pow10(|frac|) as real), |s| - |more|)
  {
    hide Value, Pow10, ReadingOf, SignedText, FromWords;
    ReadsWords(blanks, negative, whole, frac, after, more);
    WordFits(frac);
    SmallWord(Value(whole));
    SmallWord(Value(frac));
    SmallWord(Pow10(|frac|));
    var s := SignedText(blanks, negative, whole) + Text(".") + frac + [after] + more;
    assert ReadingOf(s) == FromWords(negative, Value(whole), Value(frac), Pow10(|frac|), |s| - |more|);
    FromWordsIs(negative, Value(whole), Value(frac), Pow10(|frac|), |s| - |more|);
  }

  lemma SmallWord(n: nat)
    requires n < U64
    ensures n % 0x1_0000_0000_0000_0000 == n
  {
  }

  lemma FromWordsIs(negative: bool, whole: nat, n: nat, l: nat, consumed: nat)
    requires l > 0
    ensures FromWords(negative, whole, n, l, consumed)
         == Stored(Signed(negative, whole as real + n as real / l as real), consumed)
  {
  }

  /** The scale wraps around to zero, and the division by it is not finite, exactly from 64 fraction digits on. */
  lemma NotFiniteExactly(blanks: seq<byte>, negative: bool, whole: seq<byte>, frac: seq<byte>,
                         after: byte, more: seq<byte>)
    requires (forall i :: 0 <= i < |blanks| ==> blanks[i] in Text(" \t"))
    requires AllDigits(whole) && AllDigits(frac) && !IsDigit(after)
    ensures ReadingOf(SignedText(blanks, negative, whole) + Text(".") + frac + [after] + more).NotFinite?
      <==> |frac| >= 64
  {
    hide Value, Pow10, ReadingOf, SignedText, Signed;
    ReadsWords(blanks, negative, whole, frac, after, more);
    ScaleZero(|frac|);
  }

  function Pow2(k: nat): (p: nat)
    ensures p > 0
  {
    if k == 0 then 1 else 2 * Pow2(k - 1)
  }

  function Pow5(k: nat): nat {
    if k == 0 then 1 else 5 * Pow5(k - 1)
  }

  lemma {:induction false} Pow5Odd(k: nat)
    ensures Pow5(k) % 2 == 1
  {
    if k > 0 {
      Pow5Odd(k - 1);
      var m := Pow5(k - 1) / 2;
      assert Pow5(k) == 2 * (5 * m + 2) + 1;
    }
  }

  lemma {:induction false} PowSplit(k: nat)
    ensures Pow10(k) == Pow2(k) * Pow5(k)
  {
    if k > 0 {
      PowSplit(k - 1);
      Regroup(2, Pow2(k - 1), 5, Pow5(k - 1));
    }
  }

  lemma {:induction false} Pow2Add(j: nat, k: nat)
    ensures Pow2(j + k) == Pow2(j) * Pow2(k)
  {
    if j > 0 {
      Pow2Add(j - 1, k);
      assert Pow2(j + k) == 2 * Pow2(j - 1 + k);
      Regroup(2, Pow2(j - 1), 1, Pow2(k));
    }
  }

  lemma Regroup(a: nat, x: nat, b: nat, y: nat)
    ensures (a * b) * (x * y) == (a * x) * (b * y)
  {
  }

  lemma ScaleZero(k: nat)
    ensures Scale(k) == 0 <==> k >= 64
  {
    hide Pow2, Pow5, Pow10;
    assert Pow2(64) == U64 by { Pow2Sixteen(); Pow2Add(16, 16); Pow2Add(32, 32); }
    PowSplit(k);
    if k >= 64 {
      Pow2Add(64, k - 64);
      WordMultiple(Pow2(k - 64), Pow5(k));
    } else {
      Pow2Add(k, 64 - k);
      EvenExponent(64 - k);
      Pow5Odd(k);
      if Scale(k) == 0 { OddIsNot(Pow2(k), Pow2(63 - k), Pow5(k), Pow10(k) / U64); }
    }
  }

  lemma EvenExponent(k: nat)
    requires k > 0
    ensures Pow2(k) == 2 * Pow2(k - 1)
  {
  }

  lemma Pow2Sixteen()
    ensures Pow2(16) == 65536
  {
    assert Pow2(8) == 256;
  }

  lemma WordMultiple(b: nat, c: nat)
    ensures (U64 * b * c) % U64 == 0
  {
    WrapMultiple(0, b * c);
  }

  /** An odd number is not a multiple of twice anything. */
  lemma OddIsNot(a: nat, half: nat, odd: nat, m: nat)
    requires a > 0 && odd % 2 == 1
    ensures a * odd != a * (2 * half) * m
  {
    if a * odd == a * (2 * half) * m {
      assert a * (2 * half) * m == a * (2 * (half * m));
      Cancel(a, odd, 2 * (half * m));
    }
  }

  lemma Cancel(a: nat, x: int, y: int)
    requires a > 0 && a * x == a * y
    ensures x == y
  {
    assert (x - y) * a == 0;
    MulBetween(x - y, a);
  }

  /** The form `[-]dec` without a dot, which the comment in the source also lists: the value is dropped, whatever
      it is, unless the byte behind it is negative as a char. Without any digits the same holds. */
  lemma ReadsBareInteger(blanks: seq<byte>, negative: bool, whole: seq<byte>, after: byte, more: seq<byte>)
    requires (forall i :: 0 <= i < |blanks| ==> blanks[i] in Text(" \t"))
    requires AllDigits(whole) && after !in Text(".0123456789") && (negative || whole != [] || after !in Text(" \t-"))
    ensures var s := SignedText(blanks, negative, whole) + [after] + more;
      ReadingOf(s)
      == if after < 128 then Untouched(|s| - |more|)
         else Stored(Signed(negative, (Value(whole) % 0x1_0000_0000_0000_0000) as real), |s| - |more|)
  {
    hide Value, ReadingOf, ReadingFromWhole, Assembled;
    var rest := whole + [after] + more;
    var s := blanks + SignText(negative) + rest;
    var from := |s| - |rest|;
    var e := from + |whole|;
    SignedTextIs(blanks, negative, whole);
    assert s == SignedText(blanks, negative, whole) + [after] + more;
    BlanksAre(blanks);
    AfterIs(after);
    ReadsSigned(blanks, negative, rest);
    assert s[from..e] == whole && s[e] == after;
    EndsBare(s, from, e, Sign(negative));
    AssembledExact(Value(whole) % U64, 0, 1, Sign(negative));
  }

  lemma AfterIs(b: byte)
    ensures b in Text(".0123456789") <==> IsDigit(b) || b == DOT
    ensures b in Text(" \t-") <==> IsBlank(b) || b == MINUS
  {
    assert Text(".0123456789") == [46, 48, 49, 50, 51, 52, 53, 54, 55, 56, 57];
    assert Text(" \t-") == [32, 9, 45];
  }

  lemma EndsBare(s: seq<byte>, from: nat, e: nat, sign: real)
    requires from <= e < |s| && AllDigits(s[from..e]) && !IsDigit(s[e]) && s[e] != DOT
    ensures ReadingFromWhole(s, from, sign)
         == if s[e] < 128 then Untouched(e + 1) else Stored(Assembled(Word(s, from, e), 0, 1, sign), e + 1)
  {
    hide Word, Assembled, ReadingFromFraction, DigitsEnd;
    DigitsEndIs(s, from, e);
  }

  /** What is left: nothing, a sign and nothing behind it, and a dot as the last byte. */
  lemma ReadsShort(blanks: seq<byte>, negative: bool, whole: seq<byte>)
    requires (forall i :: 0 <= i < |blanks| ==> blanks[i] in Text(" \t")) && AllDigits(whole)
    ensures ReadingOf([]) == Stored(0.0, 0)
    ensures ReadingOf(blanks + Text("-")) == Untouched(|blanks| + 1)
    ensures var s := SignedText(blanks, negative, whole) + Text(".");
      ReadingOf(s) == Stored(Signed(negative, (Value(whole) % 0x1_0000_0000_0000_0000) as real), |s|)
  {
    hide Value, ReadingOf, ReadingFromWhole, Assembled, Text, SignedText;
    BlanksAre(blanks);
    SignedTextIs(blanks, negative, whole);
    EndsInSign(blanks);
    NothingToRead();
    var rest := whole + [DOT];
    var s := blanks + SignText(negative) + rest;
    assert s == SignedText(blanks, negative, whole) + Text(".");
    ReadsSigned(blanks, negative, rest);
    EndsInDot(s, |s| - |rest|, Sign(negative), whole);
    AssembledExact(Value(whole) % U64, 0, 1, Sign(negative));
  }

  lemma NothingToRead()
    ensures ReadingOf([]) == Stored(0.0, 0)
  {
  }

  lemma EndsInSign(blanks: seq<byte>)
    requires AllBlank(blanks)
    ensures ReadingOf(blanks + [MINUS]) == Untouched(|blanks| + 1)
  {
    var t := blanks + [MINUS];
    assert t[..|blanks|] == blanks;
    BlankRunIs(t, |blanks|);
  }

  lemma EndsInDot(s: seq<byte>, from: nat, sign: real, whole: seq<byte>)
    requires from < |s| && s[from..] == whole + [DOT] && AllDigits(whole)
    ensures ReadingFromWhole(s, from, sign) == Stored(Assembled(Value(whole) % U64, 0, 1, sign), |s|)
  {
    hide Value, Assembled, DigitsEnd;
    var e := |s| - 1;
    assert s[from..][..|whole|] == s[from..e] && s[e] == s[from..][|whole|];
    DigitsEndIs(s, from, e);
  }

  /** Printing a number and reading the text back, up to any byte that is not a digit, stores exactly
      the number printed and consumes the text and that byte. */
  lemma ReadBack(v: real, prec: nat, after: byte)
    requires InRange(v, prec) && prec > 0 && !IsDigit(after)
    ensures IsDecimal(DoubleText(v, prec))
    ensures ReadingOf(DoubleText(v, prec) + [after])
         == Stored(DecimalReal(DoubleText(v, prec)), |DoubleText(v, prec)| + 1)
  {
    hide Value, Pow10, ReadingOf, IsDecimal, DecimalReal, Digits, FractionText;
    var whole, frac := Digits(v.Floor), FractionText(v, prec);
    RangeBounds(v, prec);
    DigitsDenote(v.Floor);
    DoubleTextDenotes(v, prec);
    ReadsDecimal([], false, whole, frac, after, []);
    assert Text(".") == [DOT];
    assert SignedText([], false, whole) + [DOT] + frac + [after] + [] == DoubleText(v, prec) + [after];
  }

  /** An input that ends in the middle of a number, or of the blanks before one. */
  ghost predicate CutOff(s: seq<byte>) {
    s != [] && exists b: nat, from: nat, d: nat :: CutAt(s, b, from, d)
  }

  ghost predicate CutAt(s: seq<byte>, b: nat, from: nat, d: nat) {
    && b <= from <= d <= |s| && AllBlank(s[..b]) && AllDigits(s[from..d])
    && (from == b || (from == b + 1 && s[b] == MINUS))
    && (|| (d == |s| && (from < d || b == |s|))
        || (d + 1 < |s| && s[d] == DOT && AllDigits(s[d + 1..])))
  }

  /** The call fails to return exactly on cut-off input. */
  lemma StuckExactly(s: seq<byte>)
    ensures ReadingOf(s) == Stuck <==> CutOff(s)
  {
    if CutOff(s) {
      var b: nat, from: nat, d: nat :| CutAt(s, b, from, d);
      CutIsStuck(s, b, from, d);
    }
    if ReadingOf(s) == Stuck {
      StuckIsCut(s);
    }
  }

  lemma CutIsStuck(s: seq<byte>, b: nat, from: nat, d: nat)
    requires s != [] && CutAt(s, b, from, d)
    ensures ReadingOf(s) == Stuck
  {
    hide Value, Word, Scale, Assembled;
    if from < d { assert s[from] == s[from..d][0]; }
    BlankRunIs(s, b);
    if b < |s| {
      DigitsEndIs(s, from, d);
      if d < |s| {
        assert s[d + 1..|s|] == s[d + 1..];
        DigitsEndIs(s, d + 1, |s|);
      }
    }
  }

  lemma StuckIsCut(s: seq<byte>)
    requires ReadingOf(s) == Stuck
    ensures CutOff(s)
  {
    hide ReadingFromWhole;
    var b := BlankRun(s);
    if b == |s| {
      assert CutAt(s, b, b, b);
    } else {
      WholeIsCut(s, b, if s[b] == MINUS then b + 1 else b, if s[b] == MINUS then -1.0 else 1.0);
    }
  }

  lemma WholeIsCut(s: seq<byte>, b: nat, from: nat, sign: real)
    requires b <= from < |s| && AllBlank(s[..b]) && (from == b || (from == b + 1 && s[b] == MINUS))
    requires ReadingFromWhole(s, from, sign) == Stuck
    ensures CutOff(s)
  {
    hide Value, Word, Scale, Assembled, ReadingOf;
    var d := DigitsEnd(s, from);
    if d < |s| {
      assert s[d + 1..DigitsEnd(s, d + 1)] == s[d + 1..];
    }
    assert CutAt(s, b, from, d);
  }

  /** A digit at the end of the input: the call does not return. */
  lemma StuckExample()
    ensures ReadingOf(Text("1")) == Stuck
  {
    CutIsStuck(Text("1"), 0, 0, 1);
  }
}
