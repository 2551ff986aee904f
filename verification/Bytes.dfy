/** Bytes, machine words and NUL-terminated strings as the C code sees them. */
module Bytes {

  type byte = b: int | 0 <= b < 256

  const U32 := 0x1_0000_0000
  const U64 := 0x1_0000_0000_0000_0000

  /** An `uint64_t` or (on the targets of ustat) an `unsigned long`. */
  type u64 = n: int | 0 <= n < 0x1_0000_0000_0000_0000

  const NUL: byte := 0
  const TAB: byte := 9
  const NEWLINE: byte := 10
  const SPACE: byte := 32
  const MINUS: byte := 45
  const DOT: byte := 46

  /** The bytes of a source literal, without its terminating NUL. */
  function Text(s: string): (r: seq<byte>)
    ensures |r| == |s| && forall i :: 0 <= i < |s| ==> r[i] == s[i] as int % 256
  {
    seq(|s|, i requires 0 <= i < |s| => s[i] as int % 256)
  }

  /** `isspace` in the C locale; bytes above 127 are not space. */
  predicate IsSpace(b: byte) {
    b == SPACE || 9 <= b <= 13
  }

  predicate IsDigit(b: byte) {
    48 <= b <= 57
  }

  /** The named bytes and the character classes, as C spells them. */
  lemma CharacterClasses()
    ensures [NUL, TAB, NEWLINE, SPACE, MINUS, DOT] == Text("\0\t\n -.")
    ensures forall b: byte :: IsDigit(b) <==> b in Text("0123456789")
    ensures forall b: byte :: IsSpace(b) <==> b in Text(" \t\n\U{b}\U{c}\r")
  {
    assert Text("\0\t\n -.") == [0, 9, 10, 32, 45, 46];
    assert Text("0123456789") == [48, 49, 50, 51, 52, 53, 54, 55, 56, 57];
    assert Text(" \t\n\U{b}\U{c}\r") == [32, 9, 10, 11, 12, 13];
  }

  /** The value of a byte stored in a (signed, eight bit) `char`. */
  function AsChar(n: int): (c: int)
    ensures -128 <= c < 128 && (c - n) % 256 == 0
  {
    (n + 128) % 256 - 128
  }

  lemma WrapMultiple(a: int, k: int)
    ensures (a + U64 * k) % U64 == a % U64
  {
  }

  /** Whether the memory `s` holds a NUL-terminated string. */
  predicate Terminated(s: seq<byte>) {
    NUL in s
  }

  /** The string held by the memory `s`: everything before its first NUL. */
  function CString(s: seq<byte>): seq<byte> {
    if s == [] || s[0] == NUL then [] else [s[0]] + CString(s[1..])
  }

  lemma {:induction false} CStringIs(s: seq<byte>, k: nat)
    requires k <= |s| && NUL !in s[..k] && (k < |s| ==> s[k] == NUL)
    ensures CString(s) == s[..k]
  {
    if k > 0 {
      assert s[0] == s[..k][0];
      assert s[1..][..k - 1] == s[..k][1..];
      CStringIs(s[1..], k - 1);
    }
  }

  /** `CString` is the longest NUL-free prefix. */
  lemma {:induction false} CStringPrefix(s: seq<byte>)
    ensures CString(s) <= s && NUL !in CString(s)
    ensures |CString(s)| < |s| ==> s[|CString(s)|] == NUL
    ensures Terminated(s) <==> |CString(s)| < |s|
  {
    if s != [] && s[0] != NUL {
      CStringPrefix(s[1..]);
      assert s == [s[0]] + s[1..];
    }
  }

  /** It ends at the latest at any NUL. */
  lemma {:induction false} CStringEnds(s: seq<byte>, k: nat)
    requires k < |s| && s[k] == NUL
    ensures |CString(s)| <= k
  {
    if k > 0 { CStringEnds(s[1..], k - 1); }
  }

  /** A string without NUL, in memory with its terminator. */
  lemma StringInMemory(s: seq<byte>)
    requires NUL !in s
    ensures Terminated(s + [NUL]) && CString(s + [NUL]) == s
  {
    var m := s + [NUL];
    assert m[..|s|] == s && m[|s|] == NUL;
    CStringIs(m, |s|);
  }

  /** A NUL-free prefix of the memory is a prefix of the string, and conversely. */
  lemma {:induction false} PrefixOfCString(p: seq<byte>, s: seq<byte>)
    requires NUL !in p
    ensures p <= CString(s) <==> p <= s
  {
    if p != [] && s != [] && p[0] == s[0] {
      PrefixOfCString(p[1..], s[1..]);
      PrefixCons(p, s);
      PrefixCons(p, CString(s));
    }
  }

  lemma PrefixCons(p: seq<byte>, s: seq<byte>)
    requires p != [] && s != [] && p[0] == s[0]
    ensures p <= s <==> p[1..] <= s[1..]
  {
    assert p == [p[0]] + p[1..] && s == [s[0]] + s[1..];
  }
}
