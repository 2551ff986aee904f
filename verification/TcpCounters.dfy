/** The counter tables of ustat_tcp.c and how the /proc path fills and merges them. */
module TcpCounters {
  import opened Bytes
  import opened ProcTcpSpec
  import opened ProcTcp

  /** Where a table keeps its states and their total. */
  datatype Layout = Layout(first: nat, last: nat, total: nat, slots: nat)

  /** The total has a slot of its own. */
  predicate ValidLayout(y: Layout) {
    y.first <= y.last < y.slots && y.total < y.slots && !(y.first <= y.total <= y.last)
  }

  const LINUX := Layout(1, 11, 0, 12)
  const BSD := Layout(0, 10, 11, 12)

  /** The sum of the entries from `from` up to `to`. */
  function Sum(t: seq<u64>, from: nat, to: nat): nat
    requires from <= to <= |t|
  {
    if from == to then 0 else Sum(t, from, to - 1) + t[to - 1]
  }

  /** Addition of 64-bit words. */
  function Plus(a: u64, b: u64): u64 {
    (a + b) % U64
  }

  /** `from` with the sum of its states added to its total. */
  ghost predicate Totalled(now: seq<u64>, was: seq<u64>, y: Layout) {
    && ValidLayout(y) && |now| == |was| == y.slots
    && (forall i :: 0 <= i < y.slots && i != y.total ==> now[i] == was[i])
    && now[y.total] == (was[y.total] + Sum(was, y.first, y.last + 1)) % U64
  }

  /** `to` with every state and the total of `from` added, and the other slots as they were. */
  ghost predicate Added(now: seq<u64>, was: seq<u64>, from: seq<u64>, y: Layout) {
    && ValidLayout(y) && |now| == |was| == |from| == y.slots
    && forall i :: 0 <= i < y.slots ==>
         now[i] == if y.first <= i <= y.last || i == y.total then Plus(was[i], from[i]) else was[i]
  }

  /** `_sum_counters`. */
  method SumCounters(to: array<u64>, from: array<u64>, y: Layout)
    requires ValidLayout(y) && to != from && to.Length == from.Length == y.slots
    modifies to, from
    ensures Totalled(from[..], old(from[..]), y)
    ensures Added(to[..], old(to[..]), from[..], y)
  {
    hide Sum, Plus;
    ghost var was, before := from[..], to[..];
    var i := y.first;
    SumNext(was, y.first, i);
    while i < y.last + 1
      invariant y.first <= i <= y.last + 1
      invariant forall k :: 0 <= k < y.slots && k != y.total ==> from[k] == was[k]
      invariant from[y.total] == (was[y.total] + Sum(was, y.first, i)) % U64
      invariant forall k :: 0 <= k < y.slots ==>
                  to[k] == if y.first <= k < i then Plus(before[k], was[k]) else before[k]
    {
      WrapSum(was[y.total] + Sum(was, y.first, i), was[i]);
      SumNext(was, y.first, i);
      from[y.total] := Plus(from[y.total], from[i]);
      to[i] := Plus(to[i], from[i]);
      i := i + 1;
    }
    to[y.total] := Plus(to[y.total], from[y.total]);
  }

  lemma SumNext(t: seq<u64>, lo: nat, i: nat)
    requires lo <= i < |t|
    ensures Sum(t, lo, i + 1) == Sum(t, lo, i) + t[i]
    ensures Sum(t, lo, lo) == 0
  {
  }

  lemma WrapSum(a: nat, b: u64)
    ensures Plus(a % U64, b) == (a + b) % U64
  {
    WrapMultiple(a % U64 + b, a / U64);
  }

  /** A table whose total is the sum of its states. */
  ghost predicate Balanced(t: seq<u64>, y: Layout) {
    ValidLayout(y) && |t| == y.slots && t[y.total] == Sum(t, y.first, y.last + 1) % U64
  }

  lemma {:induction false} SumAdds(now: seq<u64>, was: seq<u64>, from: seq<u64>, lo: nat, hi: nat)
    requires lo <= hi <= |now| == |was| == |from|
    requires forall i :: lo <= i < hi ==> now[i] == (was[i] + from[i]) % U64
    ensures Sum(now, lo, hi) % U64 == (Sum(was, lo, hi) + Sum(from, lo, hi)) % U64
  {
    if lo < hi {
      SumAdds(now, was, from, lo, hi - 1);
      WrapBoth(Sum(now, lo, hi - 1), Sum(was, lo, hi - 1) + Sum(from, lo, hi - 1),
               was[hi - 1] as int + from[hi - 1] as int);
    }
  }

  lemma WrapBoth(a: nat, b: nat, c: nat)
    requires a % U64 == b % U64
    ensures (a + c % U64) % U64 == (b + c) % U64
  {
    WrapMultiple(a % U64 + c % U64, a / U64);
    WrapMultiple(a % U64 + c % U64, b / U64 + c / U64);
  }

  lemma {:induction false} SumSame(a: seq<u64>, b: seq<u64>, lo: nat, hi: nat)
    requires lo <= hi <= |a| && hi <= |b|
    requires forall i :: lo <= i < hi ==> a[i] == b[i]
    ensures Sum(a, lo, hi) == Sum(b, lo, hi)
  {
    if lo < hi { SumSame(a, b, lo, hi - 1); }
  }

  /** Conservation: summing a family whose total is still zero into a balanced table leaves both
      balanced, for every layout. In general the family's old total is what the balance is off by. */
  lemma SumsConserved(to': seq<u64>, to: seq<u64>, from': seq<u64>, from: seq<u64>, y: Layout)
    requires Totalled(from', from, y) && Added(to', to, from', y)
    ensures from[y.total] == 0 ==> Balanced(from', y)
    ensures Balanced(to, y) && from[y.total] == 0 ==> Balanced(to', y)
    ensures Balanced(to, y) ==>
      to'[y.total] == (Sum(to', y.first, y.last + 1) + from[y.total]) % U64
  {
    var lo, hi := y.first, y.last + 1;
    SumSame(from', from, lo, hi);
    SumAdds(to', to, from', lo, hi);
    assert to'[y.total] == (to[y.total] + from'[y.total]) % U64;
    hide Sum, Plus, Added;
    if Balanced(to, y) {
      BalanceKept(to[y.total], Sum(to, lo, hi), from[y.total], Sum(from, lo, hi), Sum(to', lo, hi));
    }
  }

  lemma BalanceKept(total: u64, sum: nat, extra: u64, more: nat, sum': nat)
    requires total == sum % U64 && sum' % U64 == (sum + more) % U64
    ensures (total + (extra + more) % U64) % U64 == (sum' + extra) % U64
  {
    WrapBoth(total, sum, extra + more);
    WrapBoth(sum', sum + more, extra);
  }

  /** Both shipped enumerations keep the total apart from the states: it is slot 0 on Linux, slot 11 on the
      BSDs, and the other eleven slots are states. */
  lemma LayoutsValid()
    ensures ValidLayout(LINUX) && LINUX.first == 1 && LINUX.last == 11 && LINUX.total == 0
    ensures ValidLayout(BSD) && BSD.first == 0 && BSD.last == 10 && BSD.total == 11
  {
  }

  /** The table of one family after its file was counted and totalled. */
  ghost predicate FamilyTable(t: seq<u64>, rows: seq<nat>) {
    && |t| == LINUX.slots
    && t[LINUX.total] == |rows| % U64
    && forall v :: LINUX.first <= v <= LINUX.last ==> t[v] == CountOf(rows, v) % U64
  }

  /** The merged table. */
  ghost predicate Merged(t: seq<u64>, a: seq<u64>, b: seq<u64>) {
    |t| == |a| == |b| && forall v :: 0 <= v < |t| ==> t[v] == (a[v] + b[v]) % U64
  }

  lemma {:induction false} SumOfCounts(t: seq<u64>, rows: seq<nat>, lo: nat, hi: nat)
    requires lo <= hi <= |t| && forall v :: lo <= v < hi ==> t[v] == CountOf(rows, v) % U64
    ensures Sum(t, lo, hi) % U64 == CountsBetween(rows, lo, hi) % U64
  {
    if lo < hi {
      SumOfCounts(t, rows, lo, hi - 1);
      WrapBoth(Sum(t, lo, hi - 1), CountsBetween(rows, lo, hi - 1), CountOf(rows, hi - 1));
    }
  }

  /** Totalling a freshly counted table puts the number of rows in its total: rows in state 0, which
      share the total's slot, are already there, and all others are added. */
  lemma FamilyTotalled(now: seq<u64>, was: seq<u64>, zero: seq<u64>, rows: seq<nat>)
    requires Totalled(now, was, LINUX) && Counted(was, zero, rows)
    requires forall i :: 0 <= i < |zero| ==> zero[i] == 0
    requires forall i :: 0 <= i < |rows| ==> rows[i] < LINUX.slots
    ensures FamilyTable(now, rows)
  {
    var all, states := |rows|, CountsBetween(rows, 1, 12);
    SumOfCounts(was, rows, 1, 12);
    CountsAddUp(rows, 12);
    CountsSplit(rows, 0, 1, 12);
    assert CountsBetween(rows, 0, 1) == CountsBetween(rows, 0, 0) + CountOf(rows, 0);
    WrapBoth(Sum(was, 1, 12), states, CountOf(rows, 0));
  }

  /** The rows accepted from a file of one family. */
  function RowsOf(answers: seq<seq<byte>>): Scan {
    SeekToEol(Stream(answers), 3, LINUX.slots)
  }

  lemma {:induction false} CountAtMost(rows: seq<nat>, v: nat)
    ensures CountOf(rows, v) <= |rows|
  {
    if rows != [] { CountAtMost(rows[..|rows| - 1], v); }
  }

  lemma {:induction false} SumOfGrowth(now: seq<u64>, before: seq<u64>, rows: seq<nat>, hi: nat)
    requires hi <= |now| == |before| && forall v :: 0 <= v < |now| ==> now[v] == before[v] + CountOf(rows, v)
    ensures Sum(now, 0, hi) == Sum(before, 0, hi) + CountsBetween(rows, 0, hi)
  {
    if hi > 0 { SumOfGrowth(now, before, rows, hi - 1); }
  }

  /** As long as no slot can wrap, a table grows by exactly the number of accepted rows, and no slot shrinks. */
  lemma TableGrows(now: seq<u64>, before: seq<u64>, rows: seq<nat>)
    requires Counted(now, before, rows) && forall i :: 0 <= i < |rows| ==> rows[i] < |now|
    requires forall v :: 0 <= v < |before| ==> before[v] + |rows| < U64
    ensures Sum(now, 0, |now|) == Sum(before, 0, |now|) + |rows|
    ensures forall v :: 0 <= v < |now| ==> now[v] >= before[v]
  {
    forall v | 0 <= v < |now| ensures now[v] == before[v] + CountOf(rows, v) {
      CountAtMost(rows, v);
    }
    SumOfGrowth(now, before, rows, |now|);
    CountsAddUp(rows, |now|);
  }

  /** From the printed file to the counters: whatever the header and however reads cut the file, slot 0
      is the number of rows before row `k`, the first in a state above 11, and slots 1 to 11 are the
      numbers of those printed with the state 1 to 11. */
  lemma PrintedFamily(t: seq<u64>, answers: seq<seq<byte>>, header: seq<byte>, rows: seq<Row>, k: nat)
    requires Stream(answers) == header + [NEWLINE] + RowsText(rows) && NEWLINE !in header
    requires FirstWithout(rows, 12, k) && forall i :: 0 <= i < |rows| ==> ValidRow(rows[i], 3)
    requires FamilyTable(t, RowsOf(answers).rows)
    ensures |t| == 12 && t[0] == k % U64
    ensures forall v :: 1 <= v <= 11 ==> t[v] == |set i | 0 <= i < k && rows[i].state == v| % U64
  {
    hide SeekToEol, RowsText, ValidRow;
    PrintedScan(header, rows, 3, 12, k);
    assert RowsOf(answers).rows == StatesOf(rows[..k]);
    forall v | 1 <= v <= 11 ensures t[v] == |set i | 0 <= i < k && rows[i].state == v| % U64 {
      CountIsNumber(rows, k, v);
    }
  }

  lemma PrintedOverrun(answers: seq<seq<byte>>, header: seq<byte>, rows: seq<Row>, k: nat)
    requires Stream(answers) == header + [NEWLINE] + RowsText(rows) && NEWLINE !in header
    requires FirstWithout(rows, 12, k) && forall i :: 0 <= i < |rows| ==> ValidRow(rows[i], 3)
    ensures RowsOf(answers).overrun <==> k < |rows| && rows[k].state == 12
  {
    PrintedScan(header, rows, 3, 12, k);
  }

  class TcpTables {
    const tcp: array<u64>
    const tcp4: array<u64>
    const tcp6: array<u64>
    var inited: bool

    constructor ()
      ensures Valid() && !inited && fresh(tcp) && fresh(tcp4) && fresh(tcp6)
    {
      tcp, tcp4, tcp6, inited := new u64[12](_ => 0), new u64[12](_ => 0), new u64[12](_ => 0), false;
    }

    ghost predicate Valid() {
      && tcp.Length == tcp4.Length == tcp6.Length == LINUX.slots
      && tcp != tcp4 && tcp != tcp6 && tcp4 != tcp6
    }

    /** `byte_zero` on a counter table. */
    static method ByteZero(t: array<u64>)
      modifies t
      ensures forall i :: 0 <= i < t.Length ==> t[i] == 0
    {
      var k := 0;
      while k < t.Length
        invariant k <= t.Length && forall i :: 0 <= i < k ==> t[i] == 0
      {
        t[k] := 0;
        k := k + 1;
      }
    }

    /** One family: count its rows into its zeroed table, then add it to the merged table. */
    method CountFamily(file: Descriptor, family: array<u64>) returns (overrun: bool)
      requires Valid() && file.Valid() && family in {tcp4, tcp6}
      requires forall i :: 0 <= i < family.Length ==> family[i] == 0
      modifies file, family, tcp
      ensures file.Valid() && overrun == RowsOf(old(file.answers)).overrun
      ensures !overrun ==> FamilyTable(family[..], RowsOf(old(file.answers)).rows)
      ensures !overrun ==> Merged(tcp[..], old(tcp[..]), family[..])
    {
      hide SeekToEol, Counted, Totalled, FamilyTable;
      ghost var zero := family[..];
      var rc;
      rc, overrun := ProcessProcTcp(file, 3, family, LINUX.slots);
      if !overrun {
        ghost var was := family[..];
        LayoutsValid();
        SumCounters(tcp, family, LINUX);
        AcceptedHaveSlots(old(Stream(file.answers)), 3, LINUX.slots);
        FamilyTotalled(family[..], was, zero, RowsOf(old(file.answers)).rows);
      }
    }

    /** `_init_tcp_stats_via_proc_net_tcp`, given what opening the two files returns: a descriptor
        number and, behind it, the file. The IPv6 file is left out also when it opens as descriptor 0. */
    method InitViaProcNetTcp(fd4: int, file4: Descriptor, fd6: int, file6: Descriptor)
      returns (rc: int, overrun: bool)
      requires Valid() && file4.Valid() && file6.Valid() && file4 != file6
      modifies file4, file6, tcp, tcp4, tcp6
      ensures fd4 < 0 ==> rc == 0 && !overrun && unchanged(tcp) && unchanged(tcp4) && unchanged(tcp6)
      ensures fd4 >= 0 ==> rc == 1
      ensures fd4 >= 0 ==>
                overrun == (RowsOf(old(file4.answers)).overrun || (fd6 > 0 && RowsOf(old(file6.answers)).overrun))
      ensures fd4 >= 0 && !overrun ==>
                && FamilyTable(tcp4[..], RowsOf(old(file4.answers)).rows)
                && FamilyTable(tcp6[..], if fd6 > 0 then RowsOf(old(file6.answers)).rows else [])
                && Merged(tcp[..], tcp4[..], tcp6[..])
    {
      hide RowsOf, FamilyTable;
      overrun := false;
      if fd4 < 0 {
        return 0, false;
      }
      rc := 1;
      ByteZero(tcp);
      ByteZero(tcp4);
      ByteZero(tcp6);
      ghost var zero := tcp[..];
      overrun := CountFamily(file4, tcp4);
      if overrun { return; }
      ghost var merged4 := tcp[..];
      if fd6 > 0 {
        overrun := CountFamily(file6, tcp6);
        if !overrun {
          MergedTwice(tcp[..], merged4, zero, tcp4[..], tcp6[..]);
        }
      } else {
        EmptyFamily(tcp6[..]);
        MergedTwice(tcp[..], merged4, zero, tcp4[..], tcp6[..]);
      }
    }

    /** The same for two printed files, in rows and slots alone. */
    method InitPrinted(file4: Descriptor, file6: Descriptor, fd4: int, fd6: int,
                       ghost header4: seq<byte>, ghost rows4: seq<Row>, ghost k4: nat,
                       ghost header6: seq<byte>, ghost rows6: seq<Row>, ghost k6: nat)
      returns (rc: int, overrun: bool)
      requires Valid() && file4.Valid() && file6.Valid() && file4 != file6 && fd4 >= 0 && fd6 > 0
      requires Stream(file4.answers) == header4 + [NEWLINE] + RowsText(rows4) && NEWLINE !in header4
      requires Stream(file6.answers) == header6 + [NEWLINE] + RowsText(rows6) && NEWLINE !in header6
      requires FirstWithout(rows4, 12, k4) && forall i :: 0 <= i < |rows4| ==> ValidRow(rows4[i], 3)
      requires FirstWithout(rows6, 12, k6) && forall i :: 0 <= i < |rows6| ==> ValidRow(rows6[i], 3)
      modifies file4, file6, tcp, tcp4, tcp6
      ensures rc == 1
      ensures overrun <==> (k4 < |rows4| && rows4[k4].state == 12) || (k6 < |rows6| && rows6[k6].state == 12)
      ensures !overrun ==> tcp4[0] == k4 % U64 && tcp6[0] == k6 % U64 && tcp[0] == (k4 + k6) % U64
      ensures !overrun ==> forall v :: 1 <= v <= 11 ==>
                && tcp4[v] == |set i | 0 <= i < k4 && rows4[i].state == v| % U64
                && tcp6[v] == |set i | 0 <= i < k6 && rows6[i].state == v| % U64
                && tcp[v] == (tcp4[v] + tcp6[v]) % U64
    {
      hide RowsOf, FamilyTable, FirstWithout, RowsText, ValidRow;
      ghost var answers4, answers6 := file4.answers, file6.answers;
      PrintedOverrun(answers4, header4, rows4, k4);
      PrintedOverrun(answers6, header6, rows6, k6);
      rc, overrun := InitViaProcNetTcp(fd4, file4, fd6, file6);
      if !overrun {
        PrintedFamily(tcp4[..], answers4, header4, rows4, k4);
        PrintedFamily(tcp6[..], answers6, header6, rows6, k6);
        WrapBoth(k4 % U64, k4, k6);
      }
    }

    /** `tcp_init`: once the probe has succeeded, later calls touch no table. A successful call marks its
        module ready. */
    method TcpInit(ready: bool, fd4: int, file4: Descriptor, fd6: int, file6: Descriptor)
      returns (rc: int, ready': bool, overrun: bool)
      requires Valid() && file4.Valid() && file6.Valid() && file4 != file6
      modifies this`inited, file4, file6, tcp, tcp4, tcp6
      ensures old(inited) ==>
                rc == 1 && !overrun && inited && unchanged(tcp) && unchanged(tcp4) && unchanged(tcp6)
      ensures !old(inited) ==> rc == (if fd4 >= 0 then 1 else 0)
      ensures ready' == (ready || rc == 1)
      ensures !old(inited) && !overrun ==> (inited <==> fd4 >= 0)
      ensures !old(inited) && fd4 >= 0 && !overrun ==>
                && FamilyTable(tcp4[..], RowsOf(old(file4.answers)).rows)
                && FamilyTable(tcp6[..], if fd6 > 0 then RowsOf(old(file6.answers)).rows else [])
                && Merged(tcp[..], tcp4[..], tcp6[..])
    {
      hide RowsOf, FamilyTable, Merged;
      if inited {
        return 1, true, false;
      }
      rc, overrun := InitViaProcNetTcp(fd4, file4, fd6, file6);
      if rc == 0 { return rc, ready, overrun; }
      inited := true;
      ready' := true;
    }
  }

  lemma EmptyFamily(t: seq<u64>)
    requires |t| == LINUX.slots && forall i :: 0 <= i < |t| ==> t[i] == 0
    ensures FamilyTable(t, [])
  {
  }

  lemma MergedTwice(t: seq<u64>, u: seq<u64>, zero: seq<u64>, a: seq<u64>, b: seq<u64>)
    requires |t| == |b| && Merged(u, zero, a) && forall i :: 0 <= i < |zero| ==> zero[i] == 0
    requires Merged(t, u, b) || (t == u && forall i :: 0 <= i < |b| ==> b[i] == 0)
    ensures Merged(t, a, b)
  {
    forall v | 0 <= v < |t| ensures t[v] == (a[v] + b[v]) % U64 {
      assert u[v] == (zero[v] + a[v]) % U64 == a[v];
    }
  }
}
