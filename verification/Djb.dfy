/** The four-fold unrolled string routines of djb/, and what they decide. */
module Djb {
  import opened Bytes

  /** What C asks of a pointer handed over with a length: `len` bytes, or a NUL before that. */
  predicate Readable(s: seq<byte>, len: nat) {
    len <= |s| || Terminated(s)
  }

  /** The bytes `str_diffn` may look at: at most `len`, up to the first NUL. */
  function Window(s: seq<byte>, len: nat): seq<byte> {
    CString(if len <= |s| then s[..len] else s)
  }

  /** Strict lexicographic order of byte strings, on unsigned values. */
  predicate LexLess(a: seq<byte>, b: seq<byte>) {
    exists k: nat :: k <= |a| && k < |b| && a[..k] == b[..k] && (k < |a| ==> a[k] < b[k])
  }

  /** The value of `str_diffn`: the first difference, or 0. */
  function Diffn(s: seq<byte>, t: seq<byte>, len: nat): int
    requires Readable(s, len) && Readable(t, len)
  {
    if len == 0 then 0
    else if s[0] != t[0] || s[0] == NUL then s[0] - t[0]
    else Diffn(s[1..], t[1..], len - 1)
  }

  method StrLen(s: seq<byte>) returns (len: nat)
    requires Terminated(s)
    ensures len == |CString(s)| % U32
  {
    CStringPrefix(s);
    var t := 0;
    while true
      invariant t <= |CString(s)|
      decreases |s| - t
    {
      if s[t] == NUL { break; } t := t + 1;
      if s[t] == NUL { break; } t := t + 1;
      if s[t] == NUL { break; } t := t + 1;
      if s[t] == NUL { break; } t := t + 1;
    }
    assert t == |CString(s)|;
    len := t % U32;
  }

  method StrStart(s: seq<byte>, t: seq<byte>) returns (start: bool)
    requires Terminated(s) && Terminated(t)
    ensures start <==> CString(t) <= CString(s)
  {
    hide CString;
    var k := 0;
    while true
      invariant AgreeUpTo(s, t, k)
      decreases |t| - k
    {
      AgreeStep(s, t, k);
      if t[k] == NUL { return true; } if t[k] != s[k] { return false; } k := k + 1;
      AgreeStep(s, t, k);
      if t[k] == NUL { return true; } if t[k] != s[k] { return false; } k := k + 1;
      AgreeStep(s, t, k);
      if t[k] == NUL { return true; } if t[k] != s[k] { return false; } k := k + 1;
      AgreeStep(s, t, k);
      if t[k] == NUL { return true; } if t[k] != s[k] { return false; } k := k + 1;
    }
  }

  /** The strings at `s` and `t` share their first `k` bytes. */
  predicate AgreeUpTo(s: seq<byte>, t: seq<byte>, k: nat) {
    && k <= |CString(s)| && k <= |CString(t)| && CString(s)[..k] == CString(t)[..k]
  }

  lemma AgreeStep(s: seq<byte>, t: seq<byte>, k: nat)
    requires Terminated(s) && Terminated(t) && AgreeUpTo(s, t, k)
    ensures k < |s| && k < |t|
    ensures t[k] == NUL ==> CString(t) <= CString(s)
    ensures t[k] != NUL && t[k] != s[k] ==> !(CString(t) <= CString(s))
    ensures t[k] != NUL && t[k] == s[k] ==> AgreeUpTo(s, t, k + 1)
  {
    CStringPrefix(s);
    CStringPrefix(t);
    hide CString;
    var a, b := CString(s), CString(t);
    if k < |b| {
      assert t[k] == b[k] && b[k] in b;
      if k < |a| { assert s[k] == a[k]; }
    } else {
      assert b == b[..k];
    }
  }

  /** The comparison after `k` equal bytes, with `n` bytes to go. */
  predicate ComparedTo(s: seq<byte>, t: seq<byte>, len: nat, k: nat, n: nat) {
    && Readable(s, len) && Readable(t, len)
    && n + k == len && k <= |s| && k <= |t| && Readable(s[k..], n) && Readable(t[k..], n)
    && Diffn(s[k..], t[k..], n) == Diffn(s, t, len)
  }

  lemma CompareStart(s: seq<byte>, t: seq<byte>, len: nat)
    requires Readable(s, len) && Readable(t, len)
    ensures ComparedTo(s, t, len, 0, len)
  {
    assert s[0..] == s && t[0..] == t;
  }

  lemma CompareStep(s: seq<byte>, t: seq<byte>, len: nat, k: nat, n: nat)
    requires ComparedTo(s, t, len, k, n)
    ensures n == 0 ==> Diffn(s, t, len) == 0
    ensures n > 0 ==> k < |s| && k < |t|
    ensures n > 0 && (s[k] != t[k] || s[k] == NUL) ==> Diffn(s, t, len) == s[k] as int - t[k] as int
    ensures n > 0 && s[k] == t[k] != NUL ==> ComparedTo(s, t, len, k + 1, n - 1)
  {
    if n > 0 {
      assert s[k..][1..] == s[k + 1..] && t[k..][1..] == t[k + 1..];
      assert s[k..] == [s[k]] + s[k + 1..] && t[k..] == [t[k]] + t[k + 1..];
    }
  }

  method StrDiffn(s: seq<byte>, t: seq<byte>, len: nat) returns (d: int)
    requires Readable(s, len) && Readable(t, len)
    ensures d == Diffn(s, t, len)
  {
    hide ComparedTo, Diffn;
    var n, k := len, 0;
    CompareStart(s, t, len);
    while true
      invariant 0 <= n && ComparedTo(s, t, len, k, n)
      decreases n
    {
      CompareStep(s, t, len, k, n);
      if n == 0 { return 0; } n := n - 1; if s[k] != t[k] || s[k] == NUL { break; } k := k + 1;
      CompareStep(s, t, len, k, n);
      if n == 0 { return 0; } n := n - 1; if s[k] != t[k] || s[k] == NUL { break; } k := k + 1;
      CompareStep(s, t, len, k, n);
      if n == 0 { return 0; } n := n - 1; if s[k] != t[k] || s[k] == NUL { break; } k := k + 1;
      CompareStep(s, t, len, k, n);
      if n == 0 { return 0; } n := n - 1; if s[k] != t[k] || s[k] == NUL { break; } k := k + 1;
    }
    d := s[k] as int - t[k] as int;
  }

  method ByteCopy(to: array<byte>, n: nat, from: array<byte>, off: nat)
    requires to != from && n <= to.Length && off + n <= from.Length
    modifies to
    ensures to[..n] == from[off..off + n]
    ensures to[n..] == old(to[n..])
  {
    var left, k := n, 0;
    while true
      invariant 0 <= left && left + k == n
      invariant forall j :: 0 <= j < k ==> to[j] == from[off + j]
      invariant to[k..] == old(to[k..])
      decreases left
    {
      if left == 0 { break; } to[k] := from[off + k]; k, left := k + 1, left - 1;
      if left == 0 { break; } to[k] := from[off + k]; k, left := k + 1, left - 1;
      if left == 0 { break; } to[k] := from[off + k]; k, left := k + 1, left - 1;
      if left == 0 { break; } to[k] := from[off + k]; k, left := k + 1, left - 1;
    }
    assert to[..n] == from[off..off + n];
  }

  lemma WindowStep(s: seq<byte>, len: nat)
    requires len > 0 && Readable(s, len) && s[0] != NUL
    ensures Readable(s[1..], len - 1)
    ensures Window(s, len) == [s[0]] + Window(s[1..], len - 1)
  {
    if len <= |s| {
      assert s[..len][1..] == s[1..][..len - 1];
    } else {
      assert s == [s[0]] + s[1..];
    }
  }

  /** `str_diffn` is zero exactly on equal windows, and otherwise has the sign of their lexicographic order. */
  lemma {:induction false} DiffnOrders(s: seq<byte>, t: seq<byte>, len: nat)
    requires Readable(s, len) && Readable(t, len)
    ensures Diffn(s, t, len) == 0 <==> Window(s, len) == Window(t, len)
    ensures Diffn(s, t, len) < 0 <==> LexLess(Window(s, len), Window(t, len))
    ensures Diffn(s, t, len) > 0 <==> LexLess(Window(t, len), Window(s, len))
    decreases len
  {
    var a, b := Window(s, len), Window(t, len);
    if len == 0 {
      assert a == b == [];
    } else if s[0] != t[0] || s[0] == NUL {
      if s[0] != NUL { WindowStep(s, len); }
      if t[0] != NUL { WindowStep(t, len); }
      LexFirst(a, b);
      LexFirst(b, a);
    } else {
      WindowStep(s, len);
      WindowStep(t, len);
      var a', b' := Window(s[1..], len - 1), Window(t[1..], len - 1);
      DiffnOrders(s[1..], t[1..], len - 1);
      hide Window, LexLess;
      LexCons(s[0], a', b');
      LexCons(s[0], b', a');
      assert a == b <==> a' == b' by { SameTail(s[0], a', b'); }
    }
  }

  lemma SameTail(x: byte, a: seq<byte>, b: seq<byte>)
    ensures [x] + a == [x] + b <==> a == b
  {
    assert ([x] + a)[1..] == a && ([x] + b)[1..] == b;
  }

  lemma LexFirst(a: seq<byte>, b: seq<byte>)
    requires a == [] || b == [] || a[0] != b[0]
    ensures LexLess(a, b) <==> b != [] && (a == [] || a[0] < b[0])
  {
    if b != [] && (a == [] || a[0] < b[0]) {
      assert a[..0] == b[..0];
    }
    if LexLess(a, b) {
      var k: nat :| k <= |a| && k < |b| && a[..k] == b[..k] && (k < |a| ==> a[k] < b[k]);
      if k > 0 { SameHead(a, b, k); }
    }
  }

  lemma SameHead(a: seq<byte>, b: seq<byte>, k: nat)
    requires 0 < k <= |a| && k <= |b| && a[..k] == b[..k]
    ensures a[0] == b[0]
  {
    assert a[..k][0] == b[..k][0];
  }

  lemma LexCons(x: byte, a: seq<byte>, b: seq<byte>)
    ensures LexLess([x] + a, [x] + b) <==> LexLess(a, b)
  {
    var xa, xb := [x] + a, [x] + b;
    if LexLess(xa, xb) {
      var k: nat :| k <= |xa| && k < |xb| && xa[..k] == xb[..k] && (k < |xa| ==> xa[k] < xb[k]);
      assert k > 0;
      TailPrefix(x, a, k - 1);
      TailPrefix(x, b, k - 1);
      assert a[..k - 1] == b[..k - 1];
    }
    if LexLess(a, b) {
      var k: nat :| k <= |a| && k < |b| && a[..k] == b[..k] && (k < |a| ==> a[k] < b[k]);
      TailPrefix(x, a, k);
      TailPrefix(x, b, k);
      assert k + 1 < |xa| ==> xa[k + 1] < xb[k + 1];
    }
  }

  lemma TailPrefix(x: byte, a: seq<byte>, k: nat)
    requires k <= |a|
    ensures ([x] + a)[..k + 1] == [x] + a[..k]
    ensures ([x] + a)[..k + 1][1..] == a[..k]
  {
  }
}
