/** `scan_hex`: hexadecimal digits, tested with arithmetic on signed chars. */
module ScanHex {
  import opened Bytes

  predicate IsHex(b: byte) {
    48 <= b <= 57 || 65 <= b <= 70 || 97 <= b <= 102
  }

  function HexDigit(b: byte): (d: nat)
    requires IsHex(b)
    ensures d < 16
  {
    if b <= 57 then b - 48 else if b <= 70 then b - 55 else b - 87
  }

  predicate AllHex(s: seq<byte>) {
    forall i :: 0 <= i < |s| ==> IsHex(s[i])
  }

  /** The number `n` followed by the digits `s`. */
  function Extend(n: nat, s: seq<byte>): nat
    requires AllHex(s)
  {
    if s == [] then n else Extend(n, s[..|s| - 1]) * 16 + HexDigit(s[|s| - 1])
  }

  /** `tolower` in the C locale. */
  function ToLower(b: byte): byte {
    if 65 <= b <= 90 then b + 32 else b
  }

  method ScanHex(s: seq<byte>, l: nat, n0: u64) returns (i: nat, n: u64)
    requires l <= |s|
    ensures i <= l && AllHex(s[..i]) && (i < l ==> !IsHex(s[i]))
    ensures n == Extend(n0, s[..i]) % U64
  {
    i, n := 0, n0;
    while i < l
      invariant i <= l && AllHex(s[..i])
      invariant n == Extend(n0, s[..i]) % U64
    {
      var c := AsChar(s[i] as int - 48);
      if c < 0 {
        return;
      } else if c > 9 {
        c := AsChar(ToLower(s[i]) as int - 97);
        if c < 0 || c > 5 {
          return;
        }
        c := c + 10;
      }
      assert IsHex(s[i]) && c == HexDigit(s[i]);
      ExtendOne(n0, s, i);
      n := (n * 16 + c) % U64;
      i := i + 1;
    }
  }

  /** The hexadecimal digit `d`, as `printf` writes it in upper or lower case. */
  function HexChar(d: nat, upper: bool): byte
    requires d < 16
  {
    (if upper then Text("0123456789ABCDEF") else Text("0123456789abcdef"))[d]
  }

  /** Reading a digit undoes writing it, and nothing else is a digit. */
  lemma HexDigitReads(d: nat, upper: bool)
    requires d < 16
    ensures IsHex(HexChar(d, upper)) && HexDigit(HexChar(d, upper)) == d
  {
    HexCharIs(d, upper);
  }

  lemma HexCharIs(d: nat, upper: bool)
    requires d < 16
    ensures HexChar(d, upper) == if d < 10 then 48 + d else if upper then 55 + d else 87 + d
  {
    if upper {
      assert Text("0123456789ABCDEF") == [48, 49, 50, 51, 52, 53, 54, 55, 56, 57, 65, 66, 67, 68, 69, 70];
    } else {
      assert Text("0123456789abcdef") == [48, 49, 50, 51, 52, 53, 54, 55, 56, 57, 97, 98, 99, 100, 101, 102];
    }
  }

  lemma HexCharsOnly(b: byte)
    ensures IsHex(b) <==> exists d: nat, upper: bool :: d < 16 && HexChar(d, upper) == b
  {
    if IsHex(b) {
      HexCharIs(HexDigit(b), b < 97);
    }
    if d: nat, upper: bool :| d < 16 && HexChar(d, upper) == b {
      HexDigitReads(d, upper);
    }
  }

  /** `v` in `k` hexadecimal digits or more, each in the case `upper` says. */
  function HexText(v: nat, k: nat, upper: nat -> bool): (t: seq<byte>)
    ensures |t| >= k
    decreases v, k
  {
    if v == 0 && k == 0 then [] else HexText(v / 16, if k == 0 then 0 else k - 1, upper) + [HexChar(v % 16, upper(k))]
  }

  /** Scanning undoes printing, for numbers of any size. */
  lemma {:induction false} HexTextReads(v: nat, k: nat, upper: nat -> bool)
    ensures AllHex(HexText(v, k, upper)) && Extend(0, HexText(v, k, upper)) == v
    decreases v, k
  {
    if v > 0 || k > 0 {
      var t := HexText(v, k, upper);
      var k' := if k == 0 then 0 else k - 1;
      HexTextReads(v / 16, k', upper);
      HexDigitReads(v % 16, upper(k));
      assert t[..|t| - 1] == HexText(v / 16, k', upper);
    }
  }

  /** Printing a 64-bit number and scanning the text gives the number back, and takes every digit. */
  method PrintThenScan(v: u64, k: nat, upper: nat -> bool) returns (i: nat, n: u64)
    ensures i == |HexText(v, k, upper)| && n == v
  {
    hide HexText, Extend, IsHex;
    var t := HexText(v, k, upper);
    HexTextReads(v, k, upper);
    assert t[..|t|] == t;
    i, n := ScanHex(t, |t|, 0);
    assert i == |t|;
  }

  lemma ExtendOne(n: nat, s: seq<byte>, i: nat)
    requires i < |s| && AllHex(s[..i]) && IsHex(s[i])
    ensures AllHex(s[..i + 1])
    ensures Extend(n, s[..i + 1]) % U64 == (Extend(n, s[..i]) % U64 * 16 + HexDigit(s[i])) % U64
  {
    assert s[..i + 1][..i] == s[..i];
    var v := Extend(n, s[..i]);
    assert v * 16 + HexDigit(s[i]) == (v % U64 * 16 + HexDigit(s[i])) + U64 * (16 * (v / U64));
    WrapMultiple(v % U64 * 16 + HexDigit(s[i]), 16 * (v / U64));
  }
}
