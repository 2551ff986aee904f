/** The mount table of ustat_fs_linux.c and ustat_fs.c: filled from mountinfo in one pass, searched by name. */
module MountFs {
  import opened Bytes
  import opened Djb
  import opened MountSpec

  /** `struct ustat_fs`: `id` is the memory behind the pointer, terminator included. */
  datatype MountEntry = MountEntry(id: seq<byte>, idLen: nat, total: int, free: int)

  /** What `statvfs` reports for a path: total and free bytes, both 0 when it fails. */
  type StatVfs = seq<byte> -> (int, int)

  predicate Skipped(point: seq<byte>) {
    Text("/proc") <= point || Text("/sys") <= point || Text("/dev") <= point
  }

  /** Whether a mount point gets an entry: not a system mount, and with a size. */
  predicate Keeps(stat: StatVfs, point: seq<byte>) {
    !Skipped(point) && stat(CString(point)).0 != 0
  }

  function EntryOf(stat: StatVfs, point: seq<byte>): MountEntry {
    var size := stat(CString(point));
    MountEntry(point + [NUL], |point|, size.0, size.1)
  }

  function Kept(stat: StatVfs, points: seq<seq<byte>>): seq<seq<byte>> {
    if points == [] then []
    else
      var last := points[|points| - 1];
      Kept(stat, points[..|points| - 1]) + if Keeps(stat, last) then [last] else []
  }

  /** The entries made for the given mount points, in order. */
  function Entries(stat: StatVfs, points: seq<seq<byte>>): (es: seq<MountEntry>)
    ensures |es| == |Kept(stat, points)|
    ensures forall i :: 0 <= i < |es| ==> es[i] == EntryOf(stat, Kept(stat, points)[i])
    ensures forall i :: 0 <= i < |es| ==>
              var p := Kept(stat, points)[i];
              && es[i].id == p + [NUL] && es[i].idLen == |p|
              && es[i].total == stat(CString(p)).0 && es[i].free == stat(CString(p)).1
  {
    var kept := Kept(stat, points);
    seq(|kept|, i requires 0 <= i < |kept| => EntryOf(stat, kept[i]))
  }

  /** What is not a system mount and has a size is kept as often as it occurs, everything else never. */
  lemma KeptExactly(stat: StatVfs, points: seq<seq<byte>>, p: seq<byte>)
    ensures multiset(Kept(stat, points))[p]
         == if Text("/proc") <= p || Text("/sys") <= p || Text("/dev") <= p || stat(CString(p)).0 == 0 then 0
            else multiset(points)[p]
  {
    KeptMultiplicity(stat, points, p);
  }

  lemma {:induction false} KeptMultiplicity(stat: StatVfs, points: seq<seq<byte>>, p: seq<byte>)
    ensures multiset(Kept(stat, points))[p] == if Keeps(stat, p) then multiset(points)[p] else 0
  {
    hide Keeps;
    if points != [] {
      var init, last := points[..|points| - 1], points[|points| - 1];
      KeptMultiplicity(stat, init, p);
      assert points == init + [last];
      assert Kept(stat, points) == Kept(stat, init) + if Keeps(stat, last) then [last] else [];
    }
  }

  lemma KeptIn(stat: StatVfs, points: seq<seq<byte>>, p: seq<byte>)
    ensures p in Kept(stat, points) <==> p in points && Keeps(stat, p)
  {
    hide Keeps, Kept;
    KeptMultiplicity(stat, points, p);
    assert p in Kept(stat, points) <==> p in multiset(Kept(stat, points));
    assert p in points <==> p in multiset(points);
  }

  /** The first kept mount point is the first that deserves it. */
  lemma {:induction false} FirstKept(stat: StatVfs, points: seq<seq<byte>>) returns (at: nat)
    requires Kept(stat, points) != []
    ensures at < |points| && points[at] == Kept(stat, points)[0] && Keeps(stat, points[at])
    ensures forall k :: 0 <= k < at ==> !Keeps(stat, points[k])
  {
    hide Keeps;
    var init, last := points[..|points| - 1], points[|points| - 1];
    if Kept(stat, init) != [] {
      at := FirstKept(stat, init);
    } else {
      at := |points| - 1;
      forall k | 0 <= k < at ensures !Keeps(stat, points[k]) {
        KeptIn(stat, init, init[k]);
      }
    }
  }

  lemma EntriesGrow(stat: StatVfs, points: seq<seq<byte>>, p: seq<byte>)
    ensures Entries(stat, points + [p]) == Entries(stat, points) + if Keeps(stat, p) then [EntryOf(stat, p)] else []
  {
    assert (points + [p])[..|points|] == points;
  }

  /** The number of separators on the current line before position `k`. */
  function FieldNo(s: seq<byte>, k: nat): nat
    requires k <= |s|
  {
    if k == 0 || s[k - 1] == NEWLINE then 0
    else FieldNo(s, k - 1) + if IsSeparator(s[k - 1]) then 1 else 0
  }

  /** The byte the loop leaves at position `k`: NUL over every separator but the fourth of a line. */
  function Blanked(s: seq<byte>, k: nat): byte
    requires k < |s|
  {
    if IsSeparator(s[k]) && FieldNo(s, k + 1) != 4 then NUL else s[k]
  }

  /** Field numbers count the spaces and tabs since the start of the line. */
  lemma {:induction false} FieldNoCounts(s: seq<byte>, from: nat, k: nat)
    requires from <= k <= |s| && (from == 0 || s[from - 1] == NEWLINE) && NEWLINE !in s[from..k]
    ensures FieldNo(s, k) == |set i | from <= i < k && s[i] in Text(" \t")|
  {
    hide Text;
    var found := set i | from <= i < k && s[i] in Text(" \t");
    LiteralCuts();
    if from == k {
      assert found == {};
    } else {
      assert s[from..k] == s[from..k - 1] + [s[k - 1]];
      FieldNoCounts(s, from, k - 1);
      OneMoreGap(s, from, k);
    }
  }

  lemma OneMoreGap(s: seq<byte>, from: nat, k: nat)
    requires from < k <= |s|
    ensures |set i | from <= i < k && s[i] in Text(" \t")|
         == |set i | from <= i < k - 1 && s[i] in Text(" \t")| + if s[k - 1] in Text(" \t") then 1 else 0
  {
    hide Text;
    var before := set i | from <= i < k - 1 && s[i] in Text(" \t");
    assert (set i | from <= i < k && s[i] in Text(" \t"))
        == if s[k - 1] in Text(" \t") then before + {k - 1} else before;
  }

  /** What the loop leaves: of the spaces and tabs of a line all but the fourth become NUL, nothing else changes. */
  lemma BlankedMeans(s: seq<byte>, from: nat, k: nat)
    requires from <= k < |s| && (from == 0 || s[from - 1] == NEWLINE) && NEWLINE !in s[from..k]
    ensures Blanked(s, k)
         == if s[k] in Text(" \t") && |set i | from <= i < k && s[i] in Text(" \t")| != 3 then 0 else s[k]
  {
    hide Text;
    LiteralCuts();
    FieldNoCounts(s, from, k);
    FieldStep(s, k);
  }

  lemma FieldStep(s: seq<byte>, i: nat)
    requires i < |s|
    ensures FieldNo(s, i + 1) == if s[i] == NEWLINE then 0 else FieldNo(s, i) + if IsSeparator(s[i]) then 1 else 0
    ensures Blanked(s, i) == if IsSeparator(s[i]) && FieldNo(s, i) != 3 then NUL else s[i]
  {
  }

  lemma FieldStart(s: seq<byte>)
    ensures FieldNo(s, 0) == 0
  {
  }

  /** How far the loop has come at position `i`: the mount points found, and those still to come. */
  ghost predicate Progress(s: seq<byte>, i: nat, done: seq<seq<byte>>, field: nat, part: seq<byte>)
    requires i <= |s|
  {
    MountPoints(s) == done + Upcoming(field, part, s[i..])
  }

  lemma ProgressStart(s: seq<byte>)
    ensures Progress(s, 0, [], 0, [])
  {
    UpcomingFromStart(s);
    assert s[0..] == s && [] + MountPoints(s) == MountPoints(s);
  }

  lemma ProgressStep(s: seq<byte>, i: nat, done: seq<seq<byte>>, field: nat, part: seq<byte>)
    requires i < |s| && Progress(s, i, done, field, part)
    ensures if s[i] == NEWLINE then Progress(s, i + 1, done, 0, [])
            else if IsSeparator(s[i]) then Progress(s, i + 1, if field == 4 then done + [part] else done, field + 1, [])
            else Progress(s, i + 1, done, field, if field == 4 then part + [s[i]] else [])
    ensures IsSeparator(s[i]) && field == 4 ==> done + [part] <= MountPoints(s)
  {
    hide MountPoints;
    assert s[i..][0] == s[i] && s[i..][1..] == s[i + 1..];
    if IsSeparator(s[i]) && field == 4 {
      assert done + ([part] + Upcoming(5, [], s[i + 1..])) == done + [part] + Upcoming(5, [], s[i + 1..]);
    }
  }

  /** Where the loop is in the fifth field: before its first byte, or behind the part that starts at `mnt`. */
  ghost predicate PartAt(s: seq<byte>, i: nat, field: nat, mnt: int, part: seq<byte>)
    requires i <= |s|
  {
    && (field < 4 ==> mnt == -1)
    && (field == 4 ==> if mnt < 0 then mnt == -1 && part == [] else mnt < i && part == s[mnt..i])
  }

  lemma PartStart(s: seq<byte>)
    ensures PartAt(s, 0, 0, -1, [])
  {
  }

  lemma PartStep(s: seq<byte>, i: nat, field: nat, mnt: int, part: seq<byte>)
    requires i < |s| && PartAt(s, i, field, mnt, part)
    ensures PartAt(s, i + 1, 0, -1, []) && (field >= 4 ==> PartAt(s, i + 1, field + 1, mnt, []))
    ensures field < 4 ==> PartAt(s, i + 1, field + 1, mnt, [])
    ensures field != 4 ==> PartAt(s, i + 1, field, mnt, [])
    ensures field == 4 ==> PartAt(s, i + 1, field, if mnt < 0 then i else mnt, part + [s[i]])
    ensures field == 4 && mnt >= 0 ==> mnt < i && part == s[mnt..i] != []
    ensures field < 4 ==> mnt < 0
  {
  }

  lemma ProgressEnd(s: seq<byte>, done: seq<seq<byte>>, field: nat, part: seq<byte>)
    requires Progress(s, |s|, done, field, part)
    ensures MountPoints(s) == done
  {
  }

  /** How many mount points come before the first empty one. */
  function FirstEmpty(points: seq<seq<byte>>): (k: nat)
    ensures k <= |points| && [] !in points[..k] && (k < |points| ==> points[k] == [])
  {
    if points == [] || points[0] == [] then 0 else
      var k := FirstEmpty(points[1..]);
      assert points[..k + 1] == [points[0]] + points[1..][..k];
      1 + k
  }

  lemma {:induction false} FirstEmptyIs(done: seq<seq<byte>>, points: seq<seq<byte>>)
    requires done + [[]] <= points && [] !in done
    ensures FirstEmpty(points) == |done| && points[..|done|] == done && [] in points
  {
    assert points[|done|] == (done + [[]])[|done|];
    if done != [] {
      assert points[0] == done[0];
      assert done[1..] + [[]] <= points[1..];
      FirstEmptyIs(done[1..], points[1..]);
    }
  }

  lemma CStringOfField(point: seq<byte>, rest: seq<byte>)
    ensures CString(point + [NUL] + rest) == CString(point)
    ensures Terminated(point + [NUL] + rest)
  {
    var m := point + [NUL] + rest;
    assert m[|point|] == NUL;
    CStringPrefix(point);
    var k := |CString(point)|;
    assert m[..k] == point[..k];
    CStringIs(m, k);
  }

  /** The table after mount point `p`: unchanged if that is a system mount or has no size, else with one more entry,
      which holds its name and the sizes `statvfs` reports, total first. */
  ghost predicate Grown(stat: StatVfs, before: seq<MountEntry>, after: seq<MountEntry>, p: seq<byte>) {
    if Text("/proc") <= p || Text("/sys") <= p || Text("/dev") <= p || stat(CString(p)).0 == 0 then after == before
    else
      && |after| == |before| + 1 && after[..|before|] == before
      && var e := after[|before|];
      && e.id == p + [NUL] && e.idLen == |p|
      && e.total == stat(CString(p)).0 && e.free == stat(CString(p)).1
  }

  class FsTable {
    var fs: seq<MountEntry>
    const stat: StatVfs

    constructor (stat: StatVfs)
      ensures fs == [] && this.stat == stat
    {
      fs := [];
      this.stat := stat;
    }

    /** `str_start(mnt, prefix)` for a literal prefix. */
    static method StartsWith(buf: array<byte>, mnt: nat, l: nat, prefix: seq<byte>) returns (start: bool)
      requires mnt + l < buf.Length && buf[mnt + l] == NUL && NUL !in prefix
      ensures start <==> prefix <= buf[mnt..mnt + l]
    {
      ghost var point := buf[mnt..mnt + l];
      assert buf[mnt..] == point + [NUL] + buf[mnt + l + 1..];
      CStringOfField(point, buf[mnt + l + 1..]);
      StringInMemory(prefix);
      PrefixOfCString(prefix, point);
      start := StrStart(buf[mnt..], prefix + [NUL]);
    }

    /** `_add_mount_entry`: the field starts at `mnt`, and its terminator has been written behind it. */
    method AddMountEntry(buf: array<byte>, mnt: nat, l: nat)
      requires mnt + l < buf.Length && buf[mnt + l] == NUL
      modifies this
      ensures Grown(stat, old(fs), fs, buf[mnt..mnt + l])
    {
      hide CString, Terminated, Text;
      var skip := StartsWith(buf, mnt, l, Text("/proc"));
      if skip { return; }
      skip := StartsWith(buf, mnt, l, Text("/sys"));
      if skip { return; }
      skip := StartsWith(buf, mnt, l, Text("/dev"));
      if skip { return; }

      ghost var point := buf[mnt..mnt + l];
      assert buf[mnt..] == point + [NUL] + buf[mnt + l + 1..];
      CStringOfField(point, buf[mnt + l + 1..]);
      var size := stat(CString(buf[mnt..]));
      if size.0 != 0 {
        var id := new byte[l + 1];
        ByteCopy(id, l + 1, buf, mnt);
        assert id[..] == id[..l + 1] == point + [NUL];
        fs := fs + [MountEntry(id[..], l, size.0, size.1)];
      }
    }

    /** The scanning loop of `_fs_init_platform`, from the filled buffer on. `fault` reports that a
        null pointer was handed to `_add_mount_entry`. */
    method Index(buf: array<byte>, n: nat) returns (fault: bool)
      requires n <= buf.Length
      modifies this, buf
      ensures fault <==> [] in MountPoints(old(buf[..n]))
      ensures !fault ==> fs == old(fs) + Entries(stat, MountPoints(old(buf[..n])))
      ensures fault ==>
                var points := MountPoints(old(buf[..n]));
                fs == old(fs) + Entries(stat, points[..FirstEmpty(points)])
      ensures !fault ==> forall k :: 0 <= k < n ==> buf[k] == Blanked(old(buf[..n]), k)
      ensures buf[n..] == old(buf[n..])
    {
      hide MountPoints, Entries, FieldNo, Blanked, Progress, PartAt, FirstEmpty;
      ghost var s := buf[..n];
      ghost var done: seq<seq<byte>>, part: seq<byte> := [], [];
      var mnt: int, field: nat := -1, 0;
      ProgressStart(s);
      FieldStart(s);
      PartStart(s);
      NoEntries();
      fault := false;
      var i := 0;
      while i < n
        invariant 0 <= i <= n
        invariant forall k :: 0 <= k < i ==> buf[k] == Blanked(s, k)
        invariant forall k :: i <= k < n ==> buf[k] == s[k]
        invariant buf[n..] == old(buf[n..])
        invariant field == FieldNo(s, i)
        invariant field == 4 && mnt >= 0 ==> forall k :: mnt <= k < i ==> buf[k] == s[k]
        invariant PartAt(s, i, field, mnt, part)
        invariant Progress(s, i, done, field, part)
        invariant [] !in done
        invariant fs == old(fs) + Entries(stat, done)
      {
        var b := buf[i];
        FieldStep(s, i);
        ProgressStep(s, i, done, field, part);
        PartStep(s, i, field, mnt, part);
        if IsSeparator(b) {
          field := field + 1;
          if field != 4 {
            buf[i] := NUL;
            if field == 5 {
              if mnt < 0 {
                FirstEmptyIs(done, MountPoints(s));
                fault := true;
                return;
              }
              assert buf[mnt..i] == s[mnt..i];
              TakeField(buf, mnt, i, old(fs), done, part);
              done := done + [part];
            }
          }
          part := [];
        } else if b == NEWLINE {
          field, mnt, part := 0, -1, [];
        } else if field == 4 {
          if mnt < 0 { mnt := i; }
          part := part + [b];
        } else {
          part := [];
        }
        i := i + 1;
      }
      ProgressEnd(s, done, field, part);
    }

    /** A complete fifth field, from `mnt` up to the NUL at `i`. */
    method TakeField(buf: array<byte>, mnt: nat, i: nat, ghost base: seq<MountEntry>,
                     ghost done: seq<seq<byte>>, ghost part: seq<byte>)
      requires mnt <= i < buf.Length && buf[i] == NUL && part == buf[mnt..i] != []
      requires [] !in done && fs == base + Entries(stat, done)
      modifies this
      ensures [] !in done + [part] && fs == base + Entries(stat, done + [part])
    {
      hide Grown, Entries, Keeps, EntryOf;
      ghost var before := fs;
      AddMountEntry(buf, mnt, i - mnt);
      EntryAdded(stat, before, fs, part);
      EntriesGrow(stat, done, part);
      NoneEmpty(done, part);
    }

    lemma EntryAdded(stat: StatVfs, before: seq<MountEntry>, after: seq<MountEntry>, p: seq<byte>)
      requires Grown(stat, before, after, p)
      ensures after == before + if Keeps(stat, p) then [EntryOf(stat, p)] else []
    {
      hide Text, CString;
      if Keeps(stat, p) {
        assert after == after[..|before|] + [after[|before|]];
      } else {
        assert before + [] == before;
      }
    }

    lemma NoneEmpty(done: seq<seq<byte>>, part: seq<byte>)
      requires [] !in done && part != []
      ensures [] !in done + [part]
    {
    }

    lemma NoEntries()
      ensures Entries(stat, []) == []
    {
    }

    /** `fs_init` of a module, given the opened mountinfo file (or not) and its contents: the table is
        filled once, and a call fails exactly when there is nothing to put in it. A module that finds the
        table filled succeeds without being marked ready. */
    method FsInit(ready: bool, isOpen: bool, buf: array<byte>, n: nat) returns (rc: int, ready': bool, fault: bool)
      requires n <= buf.Length
      modifies this, buf
      ensures old(fs) != [] || ready ==> rc == 1 && ready' == ready && !fault && fs == old(fs)
      ensures old(fs) == [] && !ready && !isOpen ==> rc == 0 && !ready' && !fault && fs == []
      ensures old(fs) == [] && !ready && isOpen ==> (fault <==> [] in MountPoints(old(buf[..n])))
      ensures old(fs) == [] && !ready && isOpen && !fault ==>
                && fs == Entries(stat, MountPoints(old(buf[..n])))
                && (rc == 1 <==> Kept(stat, MountPoints(old(buf[..n]))) != [])
                && (rc == 1 <==> exists p :: p in MountPoints(old(buf[..n])) && !(Text("/proc") <= p)
                                   && !(Text("/sys") <= p) && !(Text("/dev") <= p) && stat(CString(p)).0 != 0)
                && (rc == 1 <==> ready') && (rc == 1 || rc == 0)
    {
      hide MountPoints, Keeps, EntryOf;
      if fs != [] || ready {
        return 1, ready, false;
      }
      fault := false;
      if isOpen {
        fault := Index(buf, n);
        if fault { return 0, false, true; }
        assert fs == [] + Entries(stat, MountPoints(old(buf[..n])));
      }
      ghost var points := MountPoints(old(buf[..n]));
      SomeKept(stat, points);
      if fs == [] {
        return 0, false, false;
      }
      return 1, true, false;
    }
  }

  /** The memory of an entry: the name and the terminator `_add_mount_entry` copied along. */
  predicate ValidEntry(e: MountEntry) {
    |e.id| == e.idLen + 1
  }

  predicate HasName(e: MountEntry, name: seq<byte>)
    requires ValidEntry(e)
  {
    e.id[..e.idLen] == name
  }

  /** The index `_fs_select` has to find: the first entry of that name, else 0. */
  ghost predicate Selects(fs: seq<MountEntry>, want: seq<byte>, r: nat)
    requires forall i :: 0 <= i < |fs| ==> ValidEntry(fs[i])
  {
    && r < |fs|
    && (want == [] ==> r == 0)
    && (want != [] ==>
         || (HasName(fs[r], want) && forall i :: 0 <= i < r ==> !HasName(fs[i], want))
         || (r == 0 && forall i :: 0 <= i < |fs| ==> !HasName(fs[i], want)))
  }

  /** `_fs_select`, for a module whose name the argument starts with. */
  method FsSelect(name: seq<byte>, fs: seq<MountEntry>, arg: seq<byte>) returns (r: nat)
    requires fs != [] && forall i :: 0 <= i < |fs| ==> ValidEntry(fs[i])
    requires NUL !in arg && name <= arg && |arg| < U32
    ensures Selects(fs, arg[|name|..], r)
  {
    hide HasName, Selects, NoneBefore, CString, Diffn, Terminated;
    ArgumentRest(name, arg);
    ghost var want := arg[|name|..];
    NoneYet(fs, want);
    var s, l := arg + [NUL], |arg|;
    var off := StrLen(name + [NUL]);
    if off == l {
      return 0;
    }
    var id, idLen := s[off..], l - off;
    assert id == want + [NUL] && idLen == |want|;
    var i := 0;
    while i < |fs|
      invariant i <= |fs| && NoneBefore(fs, want, i)
    {
      SameName(want, fs[i]);
      NoneFurther(fs, want, i);
      if idLen == fs[i].idLen {
        var d := StrDiffn(id, fs[i].id, idLen);
        if d == 0 {
          return i;
        }
      }
      i := i + 1;
    }
    return 0;
  }

  /** None of the first `k` entries has the name. */
  predicate NoneBefore(fs: seq<MountEntry>, want: seq<byte>, k: nat)
    requires forall i :: 0 <= i < |fs| ==> ValidEntry(fs[i])
  {
    k <= |fs| && forall i :: 0 <= i < k ==> !HasName(fs[i], want)
  }

  lemma NoneYet(fs: seq<MountEntry>, want: seq<byte>)
    requires fs != [] && forall i :: 0 <= i < |fs| ==> ValidEntry(fs[i])
    ensures NoneBefore(fs, want, 0)
    ensures want == [] ==> Selects(fs, want, 0)
    ensures NoneBefore(fs, want, |fs|) ==> Selects(fs, want, 0)
  {
  }

  lemma NoneFurther(fs: seq<MountEntry>, want: seq<byte>, i: nat)
    requires i < |fs| && forall i :: 0 <= i < |fs| ==> ValidEntry(fs[i])
    requires NoneBefore(fs, want, i)
    ensures if HasName(fs[i], want) then want != [] ==> Selects(fs, want, i) else NoneBefore(fs, want, i + 1)
  {
  }

  /** The argument's bytes behind the module name, in memory. */
  lemma ArgumentRest(name: seq<byte>, arg: seq<byte>)
    requires NUL !in arg && name <= arg
    ensures Terminated(name + [NUL]) && CString(name + [NUL]) == name
    ensures NUL !in arg[|name|..] && (arg + [NUL])[|name|..] == arg[|name|..] + [NUL]
  {
    assert arg == name + arg[|name|..];
    hide CString, Terminated;
    ArgumentParts(name, arg[|name|..]);
    StringInMemory(name);
  }

  lemma ArgumentParts(name: seq<byte>, rest: seq<byte>)
    ensures NUL !in name + rest ==> NUL !in name && NUL !in rest
    ensures (name + rest + [NUL])[|name|..] == rest + [NUL]
  {
    Absent(name, rest, NUL);
  }

  lemma Absent(a: seq<byte>, b: seq<byte>, c: byte)
    ensures c !in a + b <==> c !in a && c !in b
  {
  }

  /** Comparing lengths, then bytes, decides equality of names: the argument holds no NUL. */
  lemma SameName(want: seq<byte>, e: MountEntry)
    requires ValidEntry(e) && NUL !in want
    ensures HasName(e, want) <==> |want| == e.idLen && Diffn(want + [NUL], e.id, e.idLen) == 0
  {
    var n := e.idLen;
    if |want| == n {
      DiffnOrders(want + [NUL], e.id, n);
      assert (want + [NUL])[..n] == want;
      CStringIs(want, n);
      CStringPrefix(e.id[..n]);
    }
  }

  /** The three parts together, from the filled buffer to the entry an argument selects: that of the mount
      point the rest of the argument names, else that of the first that is not a system mount and has a size. */
  method Lookup(stat: StatVfs, buf: array<byte>, n: nat, name: seq<byte>, arg: seq<byte>)
    returns (rc: int, fault: bool, chosen: MountEntry, ghost at: nat)
    requires n <= buf.Length && NUL !in arg && name <= arg && |arg| < U32
    modifies buf
    ensures fault <==> [] in MountPoints(old(buf[..n]))
    ensures !fault && rc != 1 ==> forall p :: p in MountPoints(old(buf[..n])) ==>
              Text("/proc") <= p || Text("/sys") <= p || Text("/dev") <= p || stat(CString(p)).0 == 0
    ensures !fault && rc == 1 ==>
              && at < |MountPoints(old(buf[..n]))|
              && var p := MountPoints(old(buf[..n]))[at];
              && !(Text("/proc") <= p) && !(Text("/sys") <= p) && !(Text("/dev") <= p) && stat(CString(p)).0 != 0
              && chosen.id == p + [NUL] && chosen.idLen == |p|
              && chosen.total == stat(CString(p)).0 && chosen.free == stat(CString(p)).1
    ensures !fault && rc == 1 ==>
              && at < |MountPoints(old(buf[..n]))|
              && var points, want := MountPoints(old(buf[..n])), arg[|name|..];
              points[at] == want || (
                && (want !in points || want == []
                    || Text("/proc") <= want || Text("/sys") <= want || Text("/dev") <= want
                    || stat(CString(want)).0 == 0)
                && forall k :: 0 <= k < at ==>
                     var q := points[k];
                     Text("/proc") <= q || Text("/sys") <= q || Text("/dev") <= q || stat(CString(q)).0 == 0)
  {
    hide MountPoints, Kept, Keeps;
    ghost var points := MountPoints(buf[..n]);
    var table := new FsTable(stat);
    var ready;
    rc, ready, fault := table.FsInit(false, true, buf, n);
    chosen := MountEntry([], 0, 0, 0);
    at := 0;
    if !fault && rc == 1 {
      var r := FsSelect(name, table.fs, arg);
      at := SelectedPoint(stat, points, arg[|name|..], r);
      chosen := table.fs[r];
    }
    KeepsMeans(stat);
    forall p | p in points && Kept(stat, points) == [] ensures !Keeps(stat, p) {
      KeptIn(stat, points, p);
    }
  }

  lemma SomeKept(stat: StatVfs, points: seq<seq<byte>>)
    ensures Kept(stat, points) != [] <==> exists p :: p in points && !(Text("/proc") <= p)
                                            && !(Text("/sys") <= p) && !(Text("/dev") <= p) && stat(CString(p)).0 != 0
  {
    KeepsMeans(stat);
    hide Keeps, Kept, Text;
    if Kept(stat, points) != [] {
      var at := FirstKept(stat, points);
      assert points[at] in points;
    }
    forall p | p in points && Keeps(stat, p) ensures Kept(stat, points) != [] {
      KeptIn(stat, points, p);
    }
  }

  lemma KeepsMeans(stat: StatVfs)
    ensures forall p :: Keeps(stat, p) <==>
              !(Text("/proc") <= p) && !(Text("/sys") <= p) && !(Text("/dev") <= p) && stat(CString(p)).0 != 0
  {
  }

  /** Which mount point the selected entry was made for. */
  lemma SelectedPoint(stat: StatVfs, points: seq<seq<byte>>, want: seq<byte>, r: nat) returns (at: nat)
    requires Selects(Entries(stat, points), want, r)
    ensures at < |points| && Keeps(stat, points[at]) && Entries(stat, points)[r] == EntryOf(stat, points[at])
    ensures points[at] == want || (
              && (want == [] || want !in points || !Keeps(stat, want))
              && forall k :: 0 <= k < at ==> !Keeps(stat, points[k]))
  {
    var kept, es := Kept(stat, points), Entries(stat, points);
    hide Kept, Entries, Keeps;
    forall i | 0 <= i < |es| ensures HasName(es[i], want) <==> kept[i] == want {
      assert es[i].id[..es[i].idLen] == kept[i];
    }
    KeptIn(stat, points, want);
    if want != [] && want in kept {
      at :| at < |points| && points[at] == want;
    } else {
      at := FirstKept(stat, points);
    }
  }
}
