/** Counting logged-in users (ustat_user.c): sort the names, then count where neighbours differ. */
module Users {
  import opened Bytes
  import opened Djb

  /** `struct name_t`: a length, and a fixed-size field of which the code fills the first `len` bytes. */
  datatype Record = Record(len: nat, s: seq<byte>)

  /** The name a record was made from. */
  function NameOf(r: Record): seq<byte>
    requires r.len <= |r.s|
  {
    r.s[..r.len]
  }

  /** A record that holds a name; nothing is said about the bytes behind it. */
  predicate Holds(r: Record) {
    r.len <= |r.s| && NUL !in r.s[..r.len]
  }

  /** A record with a NUL behind its name. */
  predicate Terminates(r: Record) {
    Holds(r) && r.len < |r.s| && r.s[r.len] == NUL
  }

  /** What `str_diffn` sees of the whole field: the name and whatever follows, up to a NUL. */
  function Content(r: Record): seq<byte> {
    CString(r.s)
  }

  function Shorter(a: Record, b: Record): nat {
    if a.len < b.len then a.len else b.len
  }

  /** `name_t_cmp`. */
  function NameCmp(a: Record, b: Record): int
    requires a.len <= |a.s| && b.len <= |b.s|
  {
    Diffn(a.s, b.s, Shorter(a, b))
  }

  predicate AllHold(rs: seq<Record>) {
    forall i :: 0 <= i < |rs| ==> Holds(rs[i])
  }

  predicate AllTerminate(rs: seq<Record>) {
    forall i :: 0 <= i < |rs| ==> Terminates(rs[i])
  }

  function Min(a: nat, b: nat): nat {
    if a < b then a else b
  }

  /** The comparison looks at the common length only. */
  lemma CmpIs(a: Record, b: Record)
    requires Holds(a) && Holds(b)
    ensures var x, y := NameOf(a), NameOf(b); var l := Min(|x|, |y|);
      && (NameCmp(a, b) == 0 <==> x[..l] == y[..l])
      && (NameCmp(a, b) < 0 <==> LexLess(x[..l], y[..l]))
      && (NameCmp(a, b) > 0 <==> LexLess(y[..l], x[..l]))
  {
    var l := Shorter(a, b);
    DiffnOrders(a.s, b.s, l);
    assert a.s[..l] == a.s[..a.len][..l] && b.s[..l] == b.s[..b.len][..l];
    CStringIs(a.s[..l], l);
    CStringIs(b.s[..l], l);
    assert a.s[..l][..l] == a.s[..l] && b.s[..l][..l] == b.s[..l];
  }

  /** Zero means one name is a prefix of the other. */
  lemma CmpZero(a: Record, b: Record)
    requires Holds(a) && Holds(b)
    ensures NameCmp(a, b) == 0 <==> NameOf(a) <= NameOf(b) || NameOf(b) <= NameOf(a)
  {
    CmpIs(a, b);
    var x, y := NameOf(a), NameOf(b);
    var l := Min(|x|, |y|);
    assert x[..|x|] == x && y[..|y|] == y;
    assert x <= y <==> |x| <= |y| && x == y[..|x|];
    assert y <= x <==> |y| <= |x| && y == x[..|y|];
  }

  /** No name is a proper prefix of a different one. */
  predicate PrefixFree(rs: seq<Record>)
    requires AllHold(rs)
  {
    forall i, j :: 0 <= i < |rs| && 0 <= j < |rs| && NameOf(rs[i]) <= NameOf(rs[j]) ==> NameOf(rs[i]) == NameOf(rs[j])
  }

  /** The comparison is a consistent order whose zero means the same name. */
  ghost predicate ConsistentOrder(rs: seq<Record>)
    requires AllHold(rs)
  {
    && (forall i, j :: 0 <= i < |rs| && 0 <= j < |rs| ==>
          (NameCmp(rs[i], rs[j]) == 0 <==> NameOf(rs[i]) == NameOf(rs[j])))
    && (forall i, j :: 0 <= i < |rs| && 0 <= j < |rs| ==> (NameCmp(rs[i], rs[j]) < 0 <==> NameCmp(rs[j], rs[i]) > 0))
    && (forall i, j, k | 0 <= i < |rs| && 0 <= j < |rs| && 0 <= k < |rs| ::
          NameCmp(rs[i], rs[j]) <= 0 && NameCmp(rs[j], rs[k]) <= 0 ==> NameCmp(rs[i], rs[k]) <= 0)
  }

  /** On prefix-free names the comparison is the lexicographic order of the names. */
  lemma CmpIsLex(a: Record, b: Record)
    requires Holds(a) && Holds(b)
    requires NameOf(a) <= NameOf(b) || NameOf(b) <= NameOf(a) ==> NameOf(a) == NameOf(b)
    ensures NameCmp(a, b) == 0 <==> NameOf(a) == NameOf(b)
    ensures NameCmp(a, b) < 0 <==> LexLess(NameOf(a), NameOf(b))
    ensures NameCmp(a, b) > 0 <==> LexLess(NameOf(b), NameOf(a))
  {
    CmpIs(a, b);
    CmpZero(a, b);
    LexTruncated(NameOf(a), NameOf(b));
    LexTruncated(NameOf(b), NameOf(a));
  }

  /** Cutting both to the common length keeps the order, unless one is a prefix of the other. */
  lemma LexTruncated(x: seq<byte>, y: seq<byte>)
    ensures var l := Min(|x|, |y|);
      LexLess(x[..l], y[..l]) <==> LexLess(x, y) && !(x <= y)
  {
    var l := Min(|x|, |y|);
    var a, b := x[..l], y[..l];
    if LexLess(a, b) {
      var k: nat :| k <= |a| && k < |b| && a[..k] == b[..k] && (k < |a| ==> a[k] < b[k]);
      assert x[..k] == a[..k] && y[..k] == b[..k];
      assert x[k] != y[k];
    }
    if LexLess(x, y) && !(x <= y) {
      var k: nat :| k <= |x| && k < |y| && x[..k] == y[..k] && (k < |x| ==> x[k] < y[k]);
      assert x[..|x|] == x;
      assert a[..k] == x[..k] && b[..k] == y[..k];
    }
  }

  /** Agreement up to a point is agreement up to an earlier one. */
  lemma ShorterAgreement(a: seq<byte>, b: seq<byte>, i: nat, k: nat)
    requires k <= i <= |a| && i <= |b| && a[..i] == b[..i]
    ensures a[..k] == b[..k] && (k < i ==> a[k] == b[k])
  {
    assert a[..k] == a[..i][..k] && b[..k] == b[..i][..k];
    assert k < i ==> a[k] == a[..i][k] && b[k] == b[..i][k];
  }

  lemma LexTransitive(a: seq<byte>, b: seq<byte>, c: seq<byte>)
    requires LexLess(a, b) && LexLess(b, c)
    ensures LexLess(a, c)
  {
    var i: nat :| i <= |a| && i < |b| && a[..i] == b[..i] && (i < |a| ==> a[i] < b[i]);
    var j: nat :| j <= |b| && j < |c| && b[..j] == c[..j] && (j < |b| ==> b[j] < c[j]);
    var k := Min(i, j);
    ShorterAgreement(a, b, i, k);
    ShorterAgreement(b, c, j, k);
    assert a[..k] == c[..k] && k < |c| && (k < |a| ==> a[k] < c[k]);
  }

  lemma {:induction false} LexTotal(a: seq<byte>, b: seq<byte>)
    ensures a == b || LexLess(a, b) || LexLess(b, a)
    ensures !(LexLess(a, b) && LexLess(b, a)) && !LexLess(a, a)
  {
    if a == [] || b == [] || a[0] != b[0] {
      LexFirst(a, b);
      LexFirst(b, a);
      LexIrreflexive(a);
    } else {
      LexTotal(a[1..], b[1..]);
      assert a == [a[0]] + a[1..] && b == [a[0]] + b[1..];
      LexCons(a[0], a[1..], b[1..]);
      LexCons(a[0], b[1..], a[1..]);
      LexCons(a[0], a[1..], a[1..]);
    }
  }

  lemma LexIrreflexive(a: seq<byte>)
    ensures !LexLess(a, a)
  {
  }

  /** `name_t_cmp` orders the names consistently exactly when no name is a proper prefix of another. */
  lemma ConsistentExactly(rs: seq<Record>)
    requires AllHold(rs)
    ensures ConsistentOrder(rs) <==> PrefixFree(rs)
  {
    if PrefixFree(rs) {
      forall i, j | 0 <= i < |rs| && 0 <= j < |rs|
        ensures NameCmp(rs[i], rs[j]) == 0 <==> NameOf(rs[i]) == NameOf(rs[j])
        ensures NameCmp(rs[i], rs[j]) < 0 <==> NameCmp(rs[j], rs[i]) > 0
      {
        CmpIsLex(rs[i], rs[j]);
        CmpIsLex(rs[j], rs[i]);
      }
      forall i, j, k | 0 <= i < |rs| && 0 <= j < |rs| && 0 <= k < |rs|
          && NameCmp(rs[i], rs[j]) <= 0 && NameCmp(rs[j], rs[k]) <= 0
        ensures NameCmp(rs[i], rs[k]) <= 0
      {
        CmpTransitive(rs[i], rs[j], rs[k]);
      }
    }
    if ConsistentOrder(rs) {
      forall i, j | 0 <= i < |rs| && 0 <= j < |rs| && NameOf(rs[i]) <= NameOf(rs[j])
        ensures NameOf(rs[i]) == NameOf(rs[j])
      {
        CmpZero(rs[i], rs[j]);
      }
    }
  }

  predicate Apart(a: Record, b: Record)
    requires Holds(a) && Holds(b)
  {
    NameOf(a) <= NameOf(b) || NameOf(b) <= NameOf(a) ==> NameOf(a) == NameOf(b)
  }

  lemma CmpTransitive(a: Record, b: Record, c: Record)
    requires Holds(a) && Holds(b) && Holds(c)
    requires Apart(a, b) && Apart(b, c) && Apart(a, c)
    requires NameCmp(a, b) <= 0 && NameCmp(b, c) <= 0
    ensures NameCmp(a, c) <= 0
  {
    CmpIsLex(a, b);
    CmpIsLex(b, c);
    CmpIsLex(a, c);
    if LexLess(NameOf(a), NameOf(b)) && LexLess(NameOf(b), NameOf(c)) {
      LexTransitive(NameOf(a), NameOf(b), NameOf(c));
    }
    LexTotal(NameOf(a), NameOf(c));
  }

  /** What `qsort` leaves: each record not after its successors. */
  predicate Sorted(rs: seq<Record>)
    requires AllHold(rs)
  {
    forall i, j :: 0 <= i < j < |rs| ==> NameCmp(rs[i], rs[j]) <= 0
  }

  /** Whether `str_diffn` over the whole field tells two records apart. */
  predicate Differ(a: Record, b: Record) {
    Readable(a.s, |a.s|) && Readable(b.s, |a.s|) && Diffn(a.s, b.s, |a.s|) != 0
  }

  /** One plus the number of neighbours that differ. */
  function CountRuns(rs: seq<Record>): nat
    requires rs != []
  {
    if |rs| == 1 then 1
    else CountRuns(rs[..|rs| - 1]) + if Differ(rs[|rs| - 2], rs[|rs| - 1]) then 1 else 0
  }

  /** The distinct names. */
  function Names(rs: seq<Record>): set<seq<byte>>
    requires AllHold(rs)
  {
    set i | 0 <= i < |rs| :: NameOf(rs[i])
  }

  /** Comparing whole fields of one size compares their contents. */
  lemma DifferIs(a: Record, b: Record)
    requires |a.s| == |b.s|
    ensures Differ(a, b) <==> Content(a) != Content(b)
  {
    DiffnOrders(a.s, b.s, |a.s|);
    assert a.s[..|a.s|] == a.s && b.s[..|b.s|] == b.s;
  }

  predicate SameWidth(rs: seq<Record>) {
    forall i, j :: 0 <= i < |rs| && 0 <= j < |rs| ==> |rs[i].s| == |rs[j].s|
  }

  /** Records of one name have one content. */
  predicate SameContents(rs: seq<Record>)
    requires AllHold(rs)
  {
    forall i, j :: 0 <= i < |rs| && 0 <= j < |rs| && NameOf(rs[i]) == NameOf(rs[j]) ==> Content(rs[i]) == Content(rs[j])
  }

  /** Records of different names have different contents. */
  predicate NamesTold(rs: seq<Record>)
    requires AllHold(rs)
  {
    forall i, j :: 0 <= i < |rs| && 0 <= j < |rs| && NameOf(rs[i]) != NameOf(rs[j]) ==> Content(rs[i]) != Content(rs[j])
  }

  /** The content starts with the name, so prefix-free names are always told apart. */
  lemma PrefixFreeTold(rs: seq<Record>)
    requires AllHold(rs) && PrefixFree(rs)
    ensures NamesTold(rs)
  {
    forall i, j | 0 <= i < |rs| && 0 <= j < |rs| && Content(rs[i]) == Content(rs[j])
      ensures NameOf(rs[i]) == NameOf(rs[j])
    {
      var x, y, c := NameOf(rs[i]), NameOf(rs[j]), Content(rs[i]);
      PrefixOfCString(x, rs[i].s);
      PrefixOfCString(y, rs[j].s);
      assert x == c[..|x|] && y == c[..|y|];
      assert |x| <= |y| ==> x == y[..|x|];
      assert |y| <= |x| ==> y == x[..|y|];
    }
  }

  /** Terminated records show exactly their names. */
  lemma TerminatedContents(rs: seq<Record>)
    requires AllTerminate(rs)
    ensures AllHold(rs) && SameContents(rs) && NamesTold(rs)
  {
    forall i | 0 <= i < |rs| ensures Content(rs[i]) == NameOf(rs[i]) {
      CStringIs(rs[i].s, rs[i].len);
    }
  }

  lemma NamesOfLonger(rs: seq<Record>)
    requires rs != [] && AllHold(rs)
    ensures AllHold(rs[..|rs| - 1])
    ensures Names(rs) == Names(rs[..|rs| - 1]) + {NameOf(rs[|rs| - 1])}
    ensures |rs| > 1 ==> NameOf(rs[|rs| - 2]) in Names(rs[..|rs| - 1])
  {
    var n := |rs|;
    var init := rs[..n - 1];
    assert forall i :: 0 <= i < n ==> rs[i] == if i < n - 1 then init[i] else rs[n - 1];
    assert n > 1 ==> NameOf(init[n - 2]) == NameOf(rs[n - 2]);
  }

  /** What a list says about any two of its records, it says without its last one. */
  lemma ShorterList(rs: seq<Record>)
    requires rs != [] && AllHold(rs)
    ensures var init := rs[..|rs| - 1];
      && AllHold(init) && (SameWidth(rs) ==> SameWidth(init)) && (PrefixFree(rs) ==> PrefixFree(init))
      && (Sorted(rs) ==> Sorted(init)) && (NamesTold(rs) ==> NamesTold(init))
      && (SameContents(rs) ==> SameContents(init))
  {
    hide NameCmp, NameOf, Holds, Content;
    assert forall i :: 0 <= i < |rs| - 1 ==> rs[..|rs| - 1][i] == rs[i];
  }

  /** One record more: the runs and the names. */
  lemma LastRun(rs: seq<Record>)
    requires |rs| > 1 && AllHold(rs) && SameWidth(rs) && NamesTold(rs)
    ensures AllHold(rs[..|rs| - 1])
    ensures var n := |rs|; var init, p, l := rs[..n - 1], rs[n - 2], rs[n - 1];
      && CountRuns(rs) == CountRuns(init) + (if Content(p) != Content(l) then 1 else 0)
      && |Names(rs)| == |Names(init)| + (if NameOf(l) in Names(init) then 0 else 1)
      && (NameOf(l) !in Names(init) ==> NameOf(p) != NameOf(l))
      && (NameOf(p) != NameOf(l) ==> Content(p) != Content(l))
  {
    NamesOfLonger(rs);
    DifferIs(rs[|rs| - 2], rs[|rs| - 1]);
    hide Names, Differ, Content;
    assert NameOf(rs[|rs| - 1]) in Names(rs[..|rs| - 1]) ==> Names(rs) == Names(rs[..|rs| - 1]);
  }

  lemma OneRun(rs: seq<Record>)
    requires |rs| == 1 && AllHold(rs)
    ensures CountRuns(rs) == |Names(rs)| == 1
  {
    assert Names(rs) == {NameOf(rs[0])};
  }

  /** There are never fewer runs than names. */
  lemma {:induction false} RunsAtLeastNames(rs: seq<Record>)
    requires rs != [] && AllHold(rs) && SameWidth(rs) && NamesTold(rs)
    ensures CountRuns(rs) >= |Names(rs)|
  {
    if |rs| == 1 {
      OneRun(rs);
    } else {
      ShorterList(rs);
      LastRun(rs);
      RunsAtLeastNames(rs[..|rs| - 1]);
    }
  }

  /** Memory as the code finds it: in a sorted arrangement of prefix-free names there is one run for each
      name exactly when records of one name also agree in what follows the name, up to a NUL. */
  lemma {:induction false} RunsExactly(rs: seq<Record>)
    requires rs != [] && AllHold(rs) && SameWidth(rs) && PrefixFree(rs) && Sorted(rs)
    ensures CountRuns(rs) >= |Names(rs)|
    ensures CountRuns(rs) == |Names(rs)| <==> SameContents(rs)
  {
    PrefixFreeTold(rs);
    RunsAtLeastNames(rs);
    if |rs| == 1 {
      OneRun(rs);
    } else {
      ShorterList(rs);
      LastRun(rs);
      NewName(rs);
      RunsAtLeastNames(rs[..|rs| - 1]);
      RunsExactly(rs[..|rs| - 1]);
      LastContent(rs);
    }
  }

  /** One record more: whether names and contents still agree. */
  lemma LastContent(rs: seq<Record>)
    requires |rs| > 1 && AllHold(rs) && AllHold(rs[..|rs| - 1])
    requires NameOf(rs[|rs| - 1]) in Names(rs[..|rs| - 1]) ==> NameOf(rs[|rs| - 2]) == NameOf(rs[|rs| - 1])
    ensures var init, p, l := rs[..|rs| - 1], rs[|rs| - 2], rs[|rs| - 1];
      SameContents(rs) <==> SameContents(init) && (NameOf(p) == NameOf(l) ==> Content(p) == Content(l))
  {
    hide Content;
    var n := |rs|;
    var init, p, l := rs[..n - 1], rs[n - 2], rs[n - 1];
    assert forall i :: 0 <= i < n - 1 ==> init[i] == rs[i];
    if SameContents(init) && (NameOf(p) == NameOf(l) ==> Content(p) == Content(l)) {
      forall i | 0 <= i < n - 1 && NameOf(rs[i]) == NameOf(l) ensures Content(rs[i]) == Content(l) {
        assert NameOf(init[i]) in Names(init);
        assert init[i] == rs[i] && init[n - 2] == p;
      }
    }
  }

  /** Any sorted arrangement of terminated, prefix-free names has as many runs as there are distinct names. */
  lemma RunsAreNames(rs: seq<Record>)
    requires rs != [] && AllTerminate(rs) && SameWidth(rs) && AllHold(rs) && PrefixFree(rs) && Sorted(rs)
    ensures CountRuns(rs) == |Names(rs)|
  {
    TerminatedContents(rs);
    RunsExactly(rs);
  }

  /** A name that differs from its predecessor has not occurred before. */
  lemma NewName(rs: seq<Record>)
    requires |rs| > 1 && AllHold(rs) && PrefixFree(rs) && Sorted(rs)
    requires AllHold(rs[..|rs| - 1])
    ensures NameOf(rs[|rs| - 1]) in Names(rs[..|rs| - 1]) ==> NameOf(rs[|rs| - 2]) == NameOf(rs[|rs| - 1])
  {
    var n := |rs|;
    var init := rs[..n - 1];
    forall i | 0 <= i < n - 1 && NameOf(init[i]) == NameOf(rs[n - 1])
      ensures NameOf(rs[n - 2]) == NameOf(rs[n - 1])
    {
      CmpIsLex(rs[i], rs[n - 2]);
      CmpIsLex(rs[n - 2], rs[n - 1]);
      LexTotal(NameOf(rs[n - 2]), NameOf(rs[n - 1]));
    }
  }

  /** The records of `rs` all come from `pool`. */
  predicate DrawnFrom(rs: seq<Record>, pool: seq<Record>) {
    forall i :: 0 <= i < |rs| ==> rs[i] in pool
  }

  /** Whatever records are drawn from the pool, any number of times, and however they are sorted, the
      count is right. */
  ghost predicate AlwaysCounts(pool: seq<Record>)
    requires AllTerminate(pool)
  {
    forall rs: seq<Record> | rs != [] && DrawnFrom(rs, pool) && AllHold(rs) && Sorted(rs) ::
      CountRuns(rs) == |Names(rs)|
  }

  /** Over all lists drawn from a pool, counting runs counts names exactly when no name in the pool is a
      proper prefix of another: `a`, `ab`, `a` compares as sorted, and has three runs. */
  lemma CountsExactly(pool: seq<Record>)
    requires AllTerminate(pool) && SameWidth(pool) && AllHold(pool)
    ensures AlwaysCounts(pool) <==> PrefixFree(pool)
  {
    if PrefixFree(pool) {
      forall rs: seq<Record> | rs != [] && DrawnFrom(rs, pool) && AllHold(rs) && Sorted(rs)
        ensures CountRuns(rs) == |Names(rs)|
      {
        RunsAreNames(rs);
      }
    }
    if !PrefixFree(pool) {
      var i, j :| 0 <= i < |pool| && 0 <= j < |pool|
                  && NameOf(pool[i]) <= NameOf(pool[j]) && NameOf(pool[i]) != NameOf(pool[j]);
      PrefixMiscounted(pool[i], pool[j]);
      var rs := [pool[i], pool[j], pool[i]];
      assert DrawnFrom(rs, pool);
    }
  }

  lemma PrefixMiscounted(a: Record, b: Record)
    requires Terminates(a) && Terminates(b) && |a.s| == |b.s|
    requires NameOf(a) <= NameOf(b) && NameOf(a) != NameOf(b)
    ensures var rs := [a, b, a]; AllHold(rs) && Sorted(rs) && CountRuns(rs) == 3 && |Names(rs)| == 2
  {
    var rs := [a, b, a];
    CmpZero(a, b);
    CmpZero(b, a);
    CmpZero(a, a);
    DifferIs(a, b);
    DifferIs(b, a);
    CStringIs(a.s, a.len);
    CStringIs(b.s, b.len);
    assert [a, b][..1] == [a] && CountRuns([a, b]) == CountRuns([a]) + 1 == 2;
    assert rs[..2] == [a, b];
    assert Names(rs) == {NameOf(a), NameOf(b)} by {
      assert rs[0] == a && rs[1] == b && rs[2] == a;
    }
    assert {NameOf(a), NameOf(b)} == {NameOf(a)} + {NameOf(b)};
  }

  /** A rearrangement has the same records, at other places. */
  lemma Rearranged(rs: seq<Record>, sorted: seq<Record>)
    requires multiset(rs) == multiset(sorted) && AllHold(rs)
    ensures AllHold(sorted) && Names(sorted) == Names(rs) && |sorted| == |rs|
    ensures SameWidth(rs) <==> SameWidth(sorted)
    ensures PrefixFree(rs) <==> PrefixFree(sorted)
    ensures SameContents(rs) <==> SameContents(sorted)
    ensures NamesTold(rs) <==> NamesTold(sorted)
  {
    Reordered(rs, sorted);
    Reordered(sorted, rs);
    assert |multiset(rs)| == |rs| && |multiset(sorted)| == |sorted|;
    PlacedElsewhere(rs, sorted);
    PlacedElsewhere(sorted, rs);
  }

  lemma PlacedElsewhere(rs: seq<Record>, sorted: seq<Record>)
    requires AllHold(rs) && AllHold(sorted)
    requires forall i :: 0 <= i < |sorted| ==> sorted[i] in rs
    ensures Names(sorted) <= Names(rs)
    ensures SameWidth(rs) ==> SameWidth(sorted)
    ensures PrefixFree(rs) ==> PrefixFree(sorted)
    ensures SameContents(rs) ==> SameContents(sorted)
    ensures NamesTold(rs) ==> NamesTold(sorted)
  {
    hide Content, Holds;
  }

  lemma Reordered(rs: seq<Record>, sorted: seq<Record>)
    requires multiset(rs) == multiset(sorted) && AllHold(rs)
    ensures AllHold(sorted) && forall i :: 0 <= i < |sorted| ==> sorted[i] in rs
  {
    hide Holds;
    forall i | 0 <= i < |sorted| ensures sorted[i] in rs {
      assert sorted[i] in multiset(sorted);
    }
  }

  // ---------- the whole of nusers_init ----------

  /** `sizeof(ut_user)`. */
  const WIDTH := 32

  /** An entry of the user database; `user` is the memory from `ut_user` on, the other fields behind it included. */
  datatype Utmp = Utmp(isUserProcess: bool, user: seq<byte>)

  predicate ValidUtmp(u: Utmp) {
    |u.user| > WIDTH
  }

  predicate ValidDb(db: seq<Utmp>) {
    forall i :: 0 <= i < |db| ==> ValidUtmp(db[i])
  }

  /** The name ends in the field or right behind it, so that its bytes fit into a record. */
  predicate Fits(u: Utmp)
    requires ValidUtmp(u)
  {
    NUL in u.user[..WIDTH + 1]
  }

  /** Some user process has a longer name than a record can hold. */
  predicate Overlong(db: seq<Utmp>)
    requires ValidDb(db)
  {
    exists i :: 0 <= i < |db| && db[i].isUserProcess && !Fits(db[i])
  }

  /** The names of the user processes, in database order. */
  function UserNames(db: seq<Utmp>): seq<seq<byte>> {
    if db == [] then []
    else
      var last := db[|db| - 1];
      UserNames(db[..|db| - 1]) + if last.isUserProcess then [CString(last.user)] else []
  }

  /** What `malloc` left behind: byte `j` of record `i`. */
  type Garbage = (nat, nat) -> byte

  /** The bytes of record `i` behind a name of length `len`. */
  function Behind(i: nat, len: nat, garbage: Garbage): (b: seq<byte>)
    requires len <= WIDTH
    ensures |b| == 32 - len && forall j :: 0 <= j < |b| ==> b[j] == garbage(i, len + j)
  {
    seq(WIDTH - len, j requires 0 <= j => garbage(i, len + j))
  }

  /** Record `i` after the name was copied into it. */
  function Filled(name: seq<byte>, i: nat, garbage: Garbage): Record
    requires |name| <= WIDTH
  {
    Record(|name|, name + Behind(i, |name|, garbage))
  }

  predicate NamesFit(names: seq<seq<byte>>) {
    forall i :: 0 <= i < |names| ==> |names[i]| <= WIDTH && NUL !in names[i]
  }

  function FilledAll(names: seq<seq<byte>>, garbage: Garbage): (rs: seq<Record>)
    requires NamesFit(names)
    ensures |rs| == |names|
  {
    seq(|names|, i requires 0 <= i < |names| => Filled(names[i], i, garbage))
  }

  lemma NameFits(u: Utmp)
    requires ValidUtmp(u) && Fits(u)
    ensures Terminated(u.user) && |CString(u.user)| <= WIDTH && NUL !in CString(u.user) && CString(u.user) <= u.user
  {
    CStringPrefix(u.user);
    hide CString;
    var k :| 0 <= k <= WIDTH && u.user[k] == NUL;
    CStringEnds(u.user, k);
  }

  lemma {:induction false} NamesDoFit(db: seq<Utmp>)
    requires ValidDb(db) && !Overlong(db)
    ensures NamesFit(UserNames(db))
  {
    if db != [] {
      var init := db[..|db| - 1];
      assert forall i :: 0 <= i < |init| ==> init[i] == db[i];
      NamesDoFit(init);
      if db[|db| - 1].isUserProcess { NameFits(db[|db| - 1]); }
    }
  }

  /** Some `qsort`: it permutes. */
  type Arrange = seq<Record> -> seq<Record>

  ghost predicate Permutes(arrange: Arrange) {
    forall rs: seq<Record> :: multiset(arrange(rs)) == multiset(rs)
  }

  /** It sorts these records, as far as their comparison goes. */
  predicate LeavesSorted(arrange: Arrange, rs: seq<Record>) {
    AllHold(arrange(rs)) && Sorted(arrange(rs))
  }

  /** What `nusers_init` counts: a single entry directly, more by the runs of the arranged records. */
  function UserTotal(names: seq<seq<byte>>, garbage: Garbage, arrange: Arrange): nat
    requires |names| > 1 ==> NamesFit(names)
  {
    if |names| <= 1 then |names| else CountRunsOf(arrange(FilledAll(names, garbage)))
  }

  // ---------- the same, entry by entry ----------

  /** How many of the first `i` entries are user processes. */
  function Rank(db: seq<Utmp>, i: nat): nat
    requires i <= |db|
  {
    |set k | 0 <= k < i && db[k].isUserProcess|
  }

  lemma RankStep(db: seq<Utmp>, i: nat)
    requires 0 < i <= |db|
    ensures Rank(db, i) == Rank(db, i - 1) + if db[i - 1].isUserProcess then 1 else 0
  {
    var before := set k | 0 <= k < i - 1 && db[k].isUserProcess;
    assert (set k | 0 <= k < i && db[k].isUserProcess)
        == if db[i - 1].isUserProcess then before + {i - 1} else before;
  }

  /** Every entry of a user process puts its name where its rank says. */
  lemma {:induction false} RankedNames(db: seq<Utmp>, n: nat)
    requires n <= |db|
    ensures |UserNames(db[..n])| == Rank(db, n)
    ensures forall i :: 0 <= i < n && db[i].isUserProcess ==>
              Rank(db, i) < Rank(db, n) && UserNames(db[..n])[Rank(db, i)] == CString(db[i].user)
  {
    hide Rank, CString;
    if n == 0 {
      NoRank(db, n);
    } else {
      RankedNames(db, n - 1);
      RankStep(db, n);
      assert db[..n][..n - 1] == db[..n - 1];
    }
  }

  lemma NoRank(db: seq<Utmp>, i: nat)
    requires i <= |db|
    ensures i == 0 ==> Rank(db, i) == 0
  {
    var before := set k | 0 <= k < i && db[k].isUserProcess;
    if i == 0 { assert before == {}; }
  }

  /** And there are no other names. */
  lemma {:induction false} RankReached(db: seq<Utmp>, n: nat, r: nat) returns (i: nat)
    requires n <= |db| && r < Rank(db, n)
    ensures i < n && db[i].isUserProcess && Rank(db, i) == r
  {
    hide Rank;
    if n == 0 {
      NoRank(db, n);
      assert false;
    } else {
      RankStep(db, n);
      if r < Rank(db, n - 1) { i := RankReached(db, n - 1, r); } else { i := n - 1; }
    }
  }

  /** A name is listed as often as there are user processes whose memory holds it, with a NUL behind it. */
  lemma {:induction false} NamesListed(db: seq<Utmp>, p: seq<byte>)
    requires ValidDb(db) && NUL !in p && |p| <= 32
    ensures multiset(UserNames(db))[p] == |set i | 0 <= i < |db| && db[i].isUserProcess && p + [NUL] <= db[i].user|
  {
    var n := |db|;
    var found := set i | 0 <= i < n && db[i].isUserProcess && p + [NUL] <= db[i].user;
    hide CString, Rank;
    if n == 0 {
      assert found == {};
    } else {
      NamesListed(db[..n - 1], p);
      NameStarts(db[n - 1].user, p);
      OneMoreLogin(db, p);
    }
  }

  lemma OneMoreLogin(db: seq<Utmp>, p: seq<byte>)
    requires db != []
    ensures var init, last := db[..|db| - 1], db[|db| - 1];
      |set i | 0 <= i < |db| && db[i].isUserProcess && p + [NUL] <= db[i].user|
      == |set i | 0 <= i < |init| && init[i].isUserProcess && p + [NUL] <= init[i].user|
         + if last.isUserProcess && p + [NUL] <= last.user then 1 else 0
  {
    var n := |db|;
    var init, last, m := db[..n - 1], db[n - 1], p + [NUL];
    var before := set i | 0 <= i < n - 1 && init[i].isUserProcess && m <= init[i].user;
    assert forall i :: 0 <= i < n - 1 ==> init[i] == db[i];
    assert (set i | 0 <= i < n && db[i].isUserProcess && m <= db[i].user)
        == if last.isUserProcess && m <= last.user then before + {n - 1} else before;
  }

  lemma NameStarts(user: seq<byte>, p: seq<byte>)
    requires |user| > WIDTH && NUL !in p && |p| <= 32
    ensures CString(user) == p <==> p + [NUL] <= user
  {
    CStringPrefix(user);
    if p + [NUL] <= user {
      assert user[..|p|] == (p + [NUL])[..|p|] == p && user[|p|] == (p + [NUL])[|p|];
      CStringIs(user, |p|);
    }
  }

  /** The names of the user processes. */
  function LoginNames(db: seq<Utmp>): set<seq<byte>> {
    set i | 0 <= i < |db| && db[i].isUserProcess :: CString(db[i].user)
  }

  /** No user's name is a proper prefix of another's. */
  predicate LoginsPrefixFree(db: seq<Utmp>) {
    forall i, j | 0 <= i < |db| && 0 <= j < |db| && db[i].isUserProcess && db[j].isUserProcess ::
      CString(db[i].user) <= CString(db[j].user) ==> CString(db[i].user) == CString(db[j].user)
  }

  /** The records of one user, which follow the order of the entries, have the same bytes behind the name,
      up to a NUL. */
  predicate LoginsAgree(db: seq<Utmp>, garbage: Garbage) {
    forall i, j | 0 <= i < |db| && 0 <= j < |db| && db[i].isUserProcess && db[j].isUserProcess ::
      CString(db[i].user) == CString(db[j].user) && |CString(db[i].user)| <= 32 ==>
      CString(Behind(Rank(db, i), |CString(db[i].user)|, garbage))
      == CString(Behind(Rank(db, j), |CString(db[j].user)|, garbage))
  }

  /** It sorts whatever `name_t_cmp` orders consistently. */
  ghost predicate Sorts(arrange: Arrange) {
    forall rs: seq<Record> | AllHold(rs) && PrefixFree(rs) :: LeavesSorted(arrange, rs)
  }

  predicate HasRank(db: seq<Utmp>, i: nat, r: nat) {
    i < |db| && db[i].isUserProcess && Rank(db, i) == r
  }

  ghost predicate Taken(db: seq<Utmp>, r: nat) {
    exists i: nat :: HasRank(db, i, r)
  }

  /** The names are those of the user processes, at their ranks. */
  ghost predicate Ranked(db: seq<Utmp>, names: seq<seq<byte>>) {
    && (forall i :: 0 <= i < |db| && db[i].isUserProcess ==>
         Rank(db, i) < |names| && names[Rank(db, i)] == CString(db[i].user))
    && (forall r: nat :: r < |names| ==> Taken(db, r))
  }

  lemma AreRanked(db: seq<Utmp>)
    ensures |UserNames(db)| == Rank(db, |db|) && Ranked(db, UserNames(db))
  {
    hide Rank, CString, UserNames;
    RankedNames(db, |db|);
    assert db[..|db|] == db;
    forall r: nat | r < |UserNames(db)| ensures Taken(db, r) {
      var i := RankReached(db, |db|, r);
      assert HasRank(db, i, r);
    }
  }

  /** What the names in their order say, the entries say. */
  lemma SameNames(db: seq<Utmp>, names: seq<seq<byte>>)
    requires Ranked(db, names)
    ensures Distinct(names) == LoginNames(db)
    ensures LoginsPrefixFree(db) <==> NamesPrefixFree(names)
  {
    hide Rank, CString;
    forall r | 0 <= r < |names| ensures names[r] in LoginNames(db) {
      assert Taken(db, r);
      var i: nat :| HasRank(db, i, r);
    }
    if LoginsPrefixFree(db) {
      forall r, q | 0 <= r < |names| && 0 <= q < |names| && names[r] <= names[q] ensures names[r] == names[q] {
        assert Taken(db, r);
        var i: nat :| HasRank(db, i, r);
        assert Taken(db, q);
        var j: nat :| HasRank(db, j, q);
        assert CString(db[i].user) <= CString(db[j].user);
      }
    }
  }

  lemma SameAgreement(db: seq<Utmp>, names: seq<seq<byte>>, garbage: Garbage)
    requires Ranked(db, names) && NamesFit(names)
    ensures LoginsAgree(db, garbage) <==> GarbageAgrees(names, garbage)
  {
    hide Rank, CString, Behind;
    if LoginsAgree(db, garbage) {
      forall r, q | 0 <= r < |names| && 0 <= q < |names| && names[r] == names[q]
        ensures CString(Behind(r, |names[r]|, garbage)) == CString(Behind(q, |names[q]|, garbage))
      {
        assert Taken(db, r);
        var i: nat :| HasRank(db, i, r);
        assert Taken(db, q);
        var j: nat :| HasRank(db, j, q);
        assert CString(db[i].user) == CString(db[j].user);
      }
    }
  }

  /** `nusers_init` in terms of the database. */
  lemma LoginsCounted(db: seq<Utmp>, garbage: Garbage, arrange: Arrange)
    requires ValidDb(db) && NamesFit(UserNames(db)) && Permutes(arrange) && Sorts(arrange) && LoginsPrefixFree(db)
    ensures UserTotal(UserNames(db), garbage, arrange) >= |LoginNames(db)|
    ensures UserTotal(UserNames(db), garbage, arrange) == |LoginNames(db)| <==> LoginsAgree(db, garbage)
  {
    hide NameOf, Holds, LoginNames, Distinct, LoginsPrefixFree, NamesPrefixFree, LoginsAgree, GarbageAgrees, Ranked;
    AreRanked(db);
    SameNames(db, UserNames(db));
    SameAgreement(db, UserNames(db), garbage);
    FilledHold(UserNames(db), garbage);
    UsersCounted(UserNames(db), garbage, arrange);
  }

  class UserCount {
    var nusers: int

    constructor ()
      ensures nusers == -1
    {
      nusers := -1;
    }

    /** `nusers_init`: counts once, and not at all when already counted. A name longer than a record holds
        is copied past the end of it (`overrun`); what happens then is not defined. */
    method NusersInit(db: seq<Utmp>, garbage: Garbage, arrange: Arrange) returns (ready: bool, overrun: bool)
      requires ValidDb(db) && Permutes(arrange)
      modifies this
      ensures ready == !overrun
      ensures old(nusers) != -1 ==> ready && nusers == old(nusers)
      ensures old(nusers) == -1 ==> (overrun <==> |UserNames(db)| > 1 && Overlong(db))
      ensures old(nusers) == -1 ==>
                (overrun <==> |set i | 0 <= i < |db| && db[i].isUserProcess| > 1
                              && exists i :: 0 <= i < |db| && db[i].isUserProcess && NUL !in db[i].user[..33])
      ensures overrun ==> nusers == -1
      ensures old(nusers) == -1 && |set i | 0 <= i < |db| && db[i].isUserProcess| <= 1 ==>
                nusers == |set i | 0 <= i < |db| && db[i].isUserProcess|
      ensures !overrun && old(nusers) == -1 && |set i | 0 <= i < |db| && db[i].isUserProcess| > 1 ==>
                Sorts(arrange) && LoginsPrefixFree(db) ==>
                && nusers >= |LoginNames(db)|
                && (nusers == |LoginNames(db)| <==> LoginsAgree(db, garbage))
      ensures !overrun && old(nusers) == -1 ==>
                && (|UserNames(db)| > 1 ==> NamesFit(UserNames(db)))
                && nusers == UserTotal(UserNames(db), garbage, arrange)
    {
      if nusers != -1 {
        return true, false;
      }
      RankedNames(db, |db|);
      hide CString, LoginNames, LoginsPrefixFree, LoginsAgree, Sorts;
      var i, k := 0, 0;
      while k < |db|
        invariant k <= |db| && i == |UserNames(db[..k])|
      {
        assert db[..k + 1][..k] == db[..k];
        if db[k].isUserProcess {
          i := i + 1;
        }
        k := k + 1;
      }
      assert db[..k] == db;
      if i <= 1 {
        nusers := i;
        return true, false;
      }
      var names;
      names, overrun := FillNames(db, i, garbage);
      if overrun {
        return false, true;
      }
      var sorted := arrange(names[..]);
      assert multiset(sorted) == multiset(names[..]);
      PermutedWidths(names[..], sorted);
      forall j | 0 <= j < i { names[j] := sorted[j]; }
      assert names[..] == sorted;
      nusers := CountNames(names);
      if Sorts(arrange) && LoginsPrefixFree(db) { LoginsCounted(db, garbage, arrange); }
      return true, false;
    }

    /** The second pass over the database: fill the records. */
    static method FillNames(db: seq<Utmp>, n: nat, garbage: Garbage) returns (names: array<Record>, overrun: bool)
      requires ValidDb(db) && n == |UserNames(db)|
      ensures overrun <==> Overlong(db)
      ensures fresh(names)
      ensures !overrun ==> NamesFit(UserNames(db)) && names[..] == FilledAll(UserNames(db), garbage)
    {
      hide CString, Terminated, Fits, Behind;
      names := new Record[n](_ => Record(0, []));
      var i, k := 0, 0;
      while k < |db|
        invariant k <= |db| && i == |UserNames(db[..k])| <= n
        invariant UserNames(db[..k]) <= UserNames(db)
        invariant forall j :: 0 <= j < k && db[j].isUserProcess ==> Fits(db[j])
        invariant forall j :: 0 <= j < i ==>
                    |UserNames(db)[j]| <= WIDTH && names[j] == Filled(UserNames(db)[j], j, garbage)
      {
        assert db[..k + 1][..k] == db[..k];
        NamesGrow(db, k + 1);
        if db[k].isUserProcess {
          if !Fits(db[k]) {
            return names, true;
          }
          NameFits(db[k]);
          var len := StrLen(db[k].user);
          var name := db[k].user[..len];
          assert UserNames(db)[i] == name;
          names[i] := Filled(name, i, garbage);
          i := i + 1;
        }
        k := k + 1;
      }
      assert db[..k] == db;
      NamesDoFit(db);
      overrun := false;
    }

    /** The counting loop behind `qsort`. */
    static method CountNames(names: array<Record>) returns (count: nat)
      requires names.Length > 0 && forall i :: 0 <= i < names.Length ==> |names[i].s| == WIDTH
      ensures count == CountRunsOf(names[..])
    {
      count := 1;
      var i := 1;
      while i < names.Length
        invariant 1 <= i <= names.Length && count == CountRunsOf(names[..i])
      {
        assert names[..i + 1][..i] == names[..i];
        var d := StrDiffn(names[i - 1].s, names[i].s, WIDTH);
        if d != 0 {
          count := count + 1;
        }
        i := i + 1;
      }
      assert names[..i] == names[..];
    }
  }

  /** `CountRuns`, and 0 for no records. */
  function CountRunsOf(rs: seq<Record>): nat {
    if rs == [] then 0 else CountRuns(rs)
  }

  lemma {:induction false} NamesGrow(db: seq<Utmp>, k: nat)
    requires k <= |db|
    ensures UserNames(db[..k]) <= UserNames(db)
  {
    if k < |db| {
      NamesGrow(db[..|db| - 1], k);
      assert db[..|db| - 1][..k] == db[..k];
    } else {
      assert db[..k] == db;
    }
  }

  lemma PermutedWidths(rs: seq<Record>, sorted: seq<Record>)
    requires multiset(rs) == multiset(sorted) && forall i :: 0 <= i < |rs| ==> |rs[i].s| == WIDTH
    ensures |sorted| == |rs| && forall i :: 0 <= i < |sorted| ==> |sorted[i].s| == WIDTH
  {
    assert |multiset(rs)| == |rs| && |multiset(sorted)| == |sorted|;
    forall i | 0 <= i < |sorted| ensures |sorted[i].s| == WIDTH {
      assert sorted[i] in multiset(sorted);
    }
  }

  predicate NamesPrefixFree(names: seq<seq<byte>>) {
    forall i, j :: 0 <= i < |names| && 0 <= j < |names| && names[i] <= names[j] ==> names[i] == names[j]
  }

  /** Records of one name have the same bytes behind it, up to a NUL. */
  predicate GarbageAgrees(names: seq<seq<byte>>, garbage: Garbage)
    requires NamesFit(names)
  {
    forall i, j :: 0 <= i < |names| && 0 <= j < |names| && names[i] == names[j] ==>
      CString(Behind(i, |names[i]|, garbage)) == CString(Behind(j, |names[j]|, garbage))
  }

  /** The byte behind each name that leaves room for one is 0. */
  predicate ZeroBehind(names: seq<seq<byte>>, garbage: Garbage) {
    forall i :: 0 <= i < |names| && |names[i]| < WIDTH ==> garbage(i, |names[i]|) == NUL
  }

  function Distinct(names: seq<seq<byte>>): set<seq<byte>> {
    set i | 0 <= i < |names| :: names[i]
  }

  lemma {:induction false} CStringConcat(a: seq<byte>, b: seq<byte>)
    requires NUL !in a
    ensures CString(a + b) == a + CString(b)
  {
    if a == [] {
      assert a + b == b;
    } else {
      assert (a + b)[1..] == a[1..] + b;
      CStringConcat(a[1..], b);
    }
  }

  /** What the records hold. */
  lemma FilledHold(names: seq<seq<byte>>, garbage: Garbage)
    requires NamesFit(names)
    ensures var rs := FilledAll(names, garbage);
      && AllHold(rs) && SameWidth(rs) && Names(rs) == Distinct(names)
      && (forall i :: 0 <= i < |rs| ==> NameOf(rs[i]) == names[i])
      && (PrefixFree(rs) <==> NamesPrefixFree(names))
      && (SameContents(rs) <==> GarbageAgrees(names, garbage))
  {
    var rs := FilledAll(names, garbage);
    forall i | 0 <= i < |rs|
      ensures Holds(rs[i]) && NameOf(rs[i]) == names[i] && |rs[i].s| == WIDTH
      ensures Content(rs[i]) == names[i] + CString(Behind(i, |names[i]|, garbage))
    {
      FilledHolds(names[i], i, garbage);
    }
    hide Content, Behind, CString, Holds, NameOf, FilledAll;
    forall i, j | 0 <= i < |rs| && 0 <= j < |rs| && names[i] == names[j]
      ensures Content(rs[i]) == Content(rs[j]) <==>
              CString(Behind(i, |names[i]|, garbage)) == CString(Behind(j, |names[j]|, garbage))
    {
      SameTails(names[i], CString(Behind(i, |names[i]|, garbage)), CString(Behind(j, |names[j]|, garbage)));
    }
  }

  lemma FilledHolds(name: seq<byte>, i: nat, garbage: Garbage)
    requires |name| <= WIDTH && NUL !in name
    ensures var r := Filled(name, i, garbage);
      && Holds(r) && NameOf(r) == name && |r.s| == WIDTH
      && Content(r) == name + CString(Behind(i, |name|, garbage))
  {
    var r := Filled(name, i, garbage);
    assert r.s[..|name|] == name;
    CStringConcat(name, Behind(i, |name|, garbage));
  }

  lemma SameTails(a: seq<byte>, b: seq<byte>, c: seq<byte>)
    ensures a + b == a + c <==> b == c
  {
    assert (a + b)[|a|..] == b && (a + c)[|a|..] == c;
  }

  /** `nusers_init` on memory as it finds it: for prefix-free names and every `qsort` that sorts by `name_t_cmp`
      it never counts too few, and counts the distinct users exactly when records of one name agree behind it. */
  lemma UsersCounted(names: seq<seq<byte>>, garbage: Garbage, arrange: Arrange)
    requires NamesFit(names) && Permutes(arrange) && NamesPrefixFree(names)
    requires LeavesSorted(arrange, FilledAll(names, garbage))
    ensures UserTotal(names, garbage, arrange) >= |Distinct(names)|
    ensures UserTotal(names, garbage, arrange) == |Distinct(names)| <==> GarbageAgrees(names, garbage)
  {
    if |names| <= 1 {
      FewCounted(names);
    } else {
      hide SameContents, GarbageAgrees, PrefixFree, NamesPrefixFree, NamesTold, SameWidth, Sorted, Names, Distinct;
      hide Holds;
      var rs := FilledAll(names, garbage);
      FilledHold(names, garbage);
      assert multiset(arrange(rs)) == multiset(rs);
      Rearranged(rs, arrange(rs));
      RunsExactly(arrange(rs));
    }
  }

  lemma FewCounted(names: seq<seq<byte>>)
    requires |names| <= 1
    ensures |Distinct(names)| == |names|
  {
    assert Distinct(names) == if names == [] then {} else {names[0]};
  }

  /** Zeroed memory always agrees. */
  lemma ZeroAgrees(names: seq<seq<byte>>, garbage: Garbage)
    requires NamesFit(names) && ZeroBehind(names, garbage)
    ensures GarbageAgrees(names, garbage)
  {
    forall i | 0 <= i < |names| ensures CString(Behind(i, |names[i]|, garbage)) == [] {
    }
  }

  /** Two entries of one user with different bytes right behind the names: too many users are counted. */
  lemma GarbageMiscounts(names: seq<seq<byte>>, garbage: Garbage, arrange: Arrange, i: nat, j: nat)
    requires NamesFit(names) && Permutes(arrange) && NamesPrefixFree(names)
    requires LeavesSorted(arrange, FilledAll(names, garbage))
    requires i < |names| && j < |names| && names[i] == names[j] && |names[i]| < WIDTH
    requires garbage(i, |names[i]|) != garbage(j, |names[j]|)
    ensures UserTotal(names, garbage, arrange) > |Distinct(names)|
  {
    UsersCounted(names, garbage, arrange);
    var a, b := Behind(i, |names[i]|, garbage), Behind(j, |names[j]|, garbage);
    assert a[0] != b[0];
    if a[0] != NUL { assert CString(a)[0] == a[0]; } else { assert CString(a) == []; }
  }

  /** The memory behind the first record differs from that behind the others. */
  function Dirty(i: nat, j: nat): byte {
    if i == 0 then 1 else 2
  }

  /** One user logged in twice, on such memory: more than one user, whatever `qsort` does. */
  lemma GarbageExample(arrange: Arrange)
    requires Permutes(arrange)
    ensures var u := Utmp(true, Text("root") + seq(WIDTH, _ => NUL));
      var names := UserNames([u, u]);
      && NamesFit(names) && |Distinct(names)| == 1 && UserTotal(names, Dirty, arrange) > 1
  {
    var name := Text("root");
    var u := Utmp(true, name + seq(WIDTH, _ => NUL));
    CStringIs(u.user, 4);
    assert u.user[..4] == name;
    assert [u, u][..1] == [u] && [u][..0] == [];
    assert UserNames([u]) == UserNames([]) + [name] == [name];
    assert UserNames([u, u]) == [name, name];
    var names := [name, name];
    assert Distinct(names) == {name} by { assert names[0] == name; }
    OneNameSorted(names, Dirty, arrange);
    GarbageMiscounts(names, Dirty, arrange, 0, 1);
  }

  /** Records of one name are sorted in any order. */
  lemma OneNameSorted(names: seq<seq<byte>>, garbage: Garbage, arrange: Arrange)
    requires NamesFit(names) && Permutes(arrange)
    requires forall i, j :: 0 <= i < |names| && 0 <= j < |names| ==> names[i] == names[j]
    ensures LeavesSorted(arrange, FilledAll(names, garbage))
  {
    var rs := FilledAll(names, garbage);
    FilledHold(names, garbage);
    var sorted := arrange(rs);
    assert multiset(sorted) == multiset(rs);
    Reordered(rs, sorted);
    hide NameCmp;
    forall i, j | 0 <= i < j < |sorted| ensures NameCmp(sorted[i], sorted[j]) <= 0 {
      CmpZero(sorted[i], sorted[j]);
    }
  }
}
