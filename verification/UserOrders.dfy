/** Counting users with names of which some are prefixes of others: one list of records, all the ways to sort it. */
module UserOrders {
  import opened Bytes
  import opened Djb
  import opened Users

  predicate Comparable(x: seq<byte>, y: seq<byte>) {
    x <= y || y <= x
  }

  /** A name that occurs twice, at `i` and `k`, and a different one at `j`, one a prefix of the other. */
  predicate RepeatedAt(names: seq<seq<byte>>, i: nat, j: nat, k: nat) {
    && i < |names| && j < |names| && k < |names| && i != k
    && names[i] == names[k] && names[i] != names[j] && Comparable(names[i], names[j])
  }

  ghost predicate RepeatedPrefix(names: seq<seq<byte>>) {
    exists i: nat, j: nat, k: nat :: RepeatedAt(names, i, j, k)
  }

  function NameList(rs: seq<Record>): (names: seq<seq<byte>>)
    requires AllHold(rs)
    ensures |names| == |rs| && forall i :: 0 <= i < |rs| ==> names[i] == NameOf(rs[i])
  {
    seq(|rs|, i requires 0 <= i < |rs| => NameOf(rs[i]))
  }

  // ---------- without a repetition every order counts right ----------

  /** The comparison sees names only, and what stands between two records of one name is comparable. */
  lemma CmpByName(a: Record, a': Record, b: Record)
    requires Holds(a) && Holds(a') && Holds(b) && NameOf(a) == NameOf(a')
    requires NameCmp(a, b) <= 0 && NameCmp(b, a') <= 0
    ensures Comparable(NameOf(a), NameOf(b))
  {
    var x, y := NameOf(a), NameOf(b);
    var l := Min(|x|, |y|);
    CmpIs(a, b);
    CmpIs(b, a');
    LexTotal(x[..l], y[..l]);
    CmpZero(a, b);
  }

  lemma NamesOfShorter(rs: seq<Record>)
    requires rs != [] && AllHold(rs)
    ensures AllHold(rs[..|rs| - 1])
    ensures RepeatedPrefix(NameList(rs[..|rs| - 1])) ==> RepeatedPrefix(NameList(rs))
  {
    var init := rs[..|rs| - 1];
    if RepeatedPrefix(NameList(init)) {
      var i: nat, j: nat, k: nat :| RepeatedAt(NameList(init), i, j, k);
      assert RepeatedAt(NameList(rs), i, j, k);
    }
  }

  /** In a sorted list without such a repetition, a name that has occurred is the name before. */
  lemma OldName(rs: seq<Record>)
    requires |rs| > 1 && AllHold(rs) && AllHold(rs[..|rs| - 1]) && Sorted(rs) && !RepeatedPrefix(NameList(rs))
    ensures NameOf(rs[|rs| - 1]) in Names(rs[..|rs| - 1]) ==> NameOf(rs[|rs| - 2]) == NameOf(rs[|rs| - 1])
  {
    hide NameCmp, Comparable;
    var n := |rs|;
    var init := rs[..n - 1];
    forall i | 0 <= i < n - 1 && NameOf(init[i]) == NameOf(rs[n - 1])
      ensures NameOf(rs[n - 2]) == NameOf(rs[n - 1])
    {
      if i < n - 2 {
        CmpByName(rs[i], rs[n - 1], rs[n - 2]);
        assert !RepeatedAt(NameList(rs), i, n - 2, n - 1);
      }
    }
  }

  /** Without such a repetition, every sorted arrangement keeps equal names together. */
  lemma {:induction false} TogetherCounts(rs: seq<Record>)
    requires rs != [] && AllHold(rs) && SameWidth(rs) && SameContents(rs) && NamesTold(rs) && Sorted(rs)
    requires !RepeatedPrefix(NameList(rs))
    ensures CountRuns(rs) == |Names(rs)|
  {
    if |rs| == 1 {
      OneRun(rs);
    } else {
      ShorterList(rs);
      NamesOfShorter(rs);
      LastRun(rs);
      TogetherCounts(rs[..|rs| - 1]);
      OldName(rs);
      SameName(rs, |rs| - 2, |rs| - 1);
    }
  }

  lemma SameName(rs: seq<Record>, i: nat, j: nat)
    requires i < |rs| && j < |rs| && AllHold(rs) && SameContents(rs) && NamesTold(rs)
    ensures NameOf(rs[i]) == NameOf(rs[j]) <==> Content(rs[i]) == Content(rs[j])
  {
  }

  // ---------- with one, some order counts wrong ----------

  /** A name that comes back after another one makes a run too many. */
  lemma {:induction false} ReturnMiscounts(rs: seq<Record>, p: nat, q: nat, r: nat)
    requires AllHold(rs) && SameWidth(rs) && NamesTold(rs) && p < q < r < |rs|
    requires NameOf(rs[p]) == NameOf(rs[r]) != NameOf(rs[q])
    ensures CountRuns(rs) > |Names(rs)|
  {
    hide PrefixFree, Sorted, SameContents, SameWidth, NamesTold, Names, Content, CountRuns;
    var n := |rs|;
    var init := rs[..n - 1];
    ShorterList(rs);
    LastRun(rs);
    RunsAtLeastNames(init);
    if r < n - 1 {
      ReturnMiscounts(init, p, q, r);
    } else if NameOf(rs[n - 2]) == NameOf(rs[n - 1]) {
      ReturnMiscounts(init, p, q, n - 2);
    } else {
      NamePresent(init, p);
    }
  }

  lemma NamePresent(rs: seq<Record>, p: nat)
    requires AllHold(rs) && p < |rs|
    ensures NameOf(rs[p]) in Names(rs)
  {
  }

  /** In lexicographic order of the names. */
  predicate LexSorted(rs: seq<Record>)
    requires AllHold(rs)
  {
    forall i, j :: 0 <= i < j < |rs| ==> !LexLess(NameOf(rs[j]), NameOf(rs[i]))
  }

  /** Where the names after `b` start. */
  function SplitAt(rs: seq<Record>, b: seq<byte>): (k: nat)
    requires AllHold(rs)
    ensures k <= |rs| && (forall i :: 0 <= i < k ==> !LexLess(b, NameOf(rs[i])))
    ensures k < |rs| ==> LexLess(b, NameOf(rs[k]))
  {
    if rs == [] || LexLess(b, NameOf(rs[0])) then 0 else 1 + SplitAt(rs[1..], b)
  }

  /** The part behind the split is after `b`. */
  lemma BehindSplit(rs: seq<Record>, b: seq<byte>, i: nat)
    requires AllHold(rs) && LexSorted(rs) && SplitAt(rs, b) <= i < |rs|
    ensures LexLess(b, NameOf(rs[i]))
  {
    hide LexLess;
    var k := SplitAt(rs, b);
    if k < i {
      var x, y := NameOf(rs[k]), NameOf(rs[i]);
      LexTotal(x, y);
      if LexLess(x, y) { LexTransitive(b, x, y); }
    }
  }

  /** Some records, put where the names after `b` start. */
  function PutAt(rs: seq<Record>, b: seq<byte>, mid: seq<Record>): (out: seq<Record>)
    requires AllHold(rs) && AllHold(mid)
    ensures AllHold(out)
  {
    rs[..SplitAt(rs, b)] + mid + rs[SplitAt(rs, b)..]
  }

  lemma PutKeeps(rs: seq<Record>, b: seq<byte>, mid: seq<Record>)
    requires AllHold(rs) && AllHold(mid)
    ensures multiset(PutAt(rs, b, mid)) == multiset(rs) + multiset(mid)
  {
    hide Holds, LexLess;
    var k := SplitAt(rs, b);
    assert rs == rs[..k] + rs[k..];
  }

  /** Any records can be put into lexicographic order. */
  lemma {:induction false} LexArranged(m: multiset<Record>) returns (rs: seq<Record>)
    requires forall r :: r in m ==> Holds(r)
    ensures multiset(rs) == m && AllHold(rs) && LexSorted(rs)
    decreases |m|
  {
    if m == multiset{} {
      rs := [];
    } else {
      var r :| r in m;
      var rest := LexArranged(m - multiset{r});
      rs := PutAt(rest, NameOf(r), [r]);
      PutKeeps(rest, NameOf(r), [r]);
      InsertSorts(r, rest);
    }
  }

  lemma InsertSorts(r: Record, rs: seq<Record>)
    requires Holds(r) && AllHold(rs) && LexSorted(rs)
    ensures LexSorted(PutAt(rs, NameOf(r), [r]))
  {
    hide LexLess;
    var k := SplitAt(rs, NameOf(r));
    forall i | k <= i < |rs| ensures !LexLess(NameOf(rs[i]), NameOf(r)) {
      BehindSplit(rs, NameOf(r), i);
      LexTotal(NameOf(r), NameOf(rs[i]));
    }
  }

  /** Not after, and not after: not after. */
  lemma LexBetween(a: seq<byte>, b: seq<byte>, c: seq<byte>)
    requires !LexLess(b, a) && !LexLess(c, b)
    ensures !LexLess(c, a)
  {
    LexTotal(a, b);
    LexTotal(b, c);
    LexTotal(a, c);
    if LexLess(a, b) && LexLess(b, c) { LexTransitive(a, b, c); }
  }

  /** Lexicographic order is an order the comparison accepts. */
  lemma LexAccepted(a: Record, b: Record)
    requires Holds(a) && Holds(b) && !LexLess(NameOf(b), NameOf(a))
    ensures NameCmp(a, b) <= 0
  {
    CmpIs(a, b);
    LexTruncated(NameOf(b), NameOf(a));
  }

  /** Up to `b`, nothing has to come after a prefix of `b`. */
  lemma AcceptedBefore(z: Record, t: Record, b: seq<byte>)
    requires Holds(z) && Holds(t) && NameOf(t) <= b && !LexLess(b, NameOf(z))
    ensures NameCmp(z, t) <= 0
  {
    CmpIs(z, t);
    LexTruncated(NameOf(t), NameOf(z));
    if LexLess(NameOf(t), NameOf(z)) && !(NameOf(t) <= NameOf(z)) {
      LexBeyond(NameOf(t), b, NameOf(z));
    }
  }

  /** Behind `b`, nothing has to come before a prefix of `b`. */
  lemma AcceptedAfter(z: Record, t: Record, b: seq<byte>)
    requires Holds(z) && Holds(t) && NameOf(t) <= b && LexLess(b, NameOf(z))
    ensures NameCmp(t, z) <= 0
  {
    PrefixNotAfter(NameOf(t), b);
    LexTotal(b, NameOf(z));
    LexBetween(NameOf(t), b, NameOf(z));
    LexAccepted(t, z);
  }

  lemma PrefixNotAfter(a: seq<byte>, b: seq<byte>)
    requires a <= b
    ensures !LexLess(b, a)
  {
    assert forall k: nat :: k < |a| ==> a[k] == b[k];
  }

  /** Beyond a prefix at a difference is beyond everything with that prefix. */
  lemma LexBeyond(a: seq<byte>, b: seq<byte>, z: seq<byte>)
    requires LexLess(a, z) && !(a <= z) && a <= b
    ensures LexLess(b, z)
  {
    var k: nat :| k <= |a| && k < |z| && a[..k] == z[..k] && (k < |a| ==> a[k] < z[k]);
    assert a[..|a|] == a;
    assert b[..k] == a[..k] && b[k] == a[k];
  }

  /** Records of prefixes of `b`, in any order the comparison accepts, fit in front of the names after `b`. */
  lemma PutSorted(rs: seq<Record>, b: seq<byte>, mid: seq<Record>)
    requires AllHold(rs) && LexSorted(rs) && AllHold(mid) && Sorted(mid)
    requires forall i :: 0 <= i < |mid| ==> NameOf(mid[i]) <= b
    ensures Sorted(PutAt(rs, b, mid))
  {
    var k := SplitAt(rs, b);
    hide NameCmp, LexLess, Holds;
    forall i, j | 0 <= i < j < |rs| ensures NameCmp(rs[i], rs[j]) <= 0 {
      LexAccepted(rs[i], rs[j]);
    }
    forall i, j | 0 <= i < k && 0 <= j < |mid| ensures NameCmp(rs[i], mid[j]) <= 0 {
      AcceptedBefore(rs[i], mid[j], b);
    }
    forall i, j | k <= i < |rs| && 0 <= j < |mid| ensures NameCmp(mid[j], rs[i]) <= 0 {
      BehindSplit(rs, b, i);
      AcceptedAfter(rs[i], mid[j], b);
    }
    SortedAround(rs, k, mid);
  }

  lemma SortedAround(rs: seq<Record>, k: nat, mid: seq<Record>)
    requires k <= |rs| && AllHold(rs) && AllHold(mid) && Sorted(rs) && Sorted(mid)
    requires forall i, j :: 0 <= i < k && 0 <= j < |mid| ==> NameCmp(rs[i], mid[j]) <= 0
    requires forall i, j :: k <= i < |rs| && 0 <= j < |mid| ==> NameCmp(mid[j], rs[i]) <= 0
    ensures AllHold(rs[..k] + mid + rs[k..]) && Sorted(rs[..k] + mid + rs[k..])
  {
    hide NameCmp, Holds;
  }

  /** Two places hold two records. */
  lemma TwoPlaces(rs: seq<Record>, i: nat, k: nat)
    requires i < k < |rs|
    ensures multiset{rs[i], rs[k]} <= multiset(rs)
  {
    assert rs == rs[..i] + [rs[i]] + rs[i + 1..k] + [rs[k]] + rs[k + 1..];
  }

  lemma Without(rs: seq<Record>, i: nat)
    requires i < |rs|
    ensures multiset(rs) == multiset(rs[..i] + rs[i + 1..]) + multiset{rs[i]}
  {
    assert rs == rs[..i] + [rs[i]] + rs[i + 1..];
  }

  /** Two records are at two places. */
  lemma PlacesOf(rs: seq<Record>, a: Record, b: Record) returns (i: nat, k: nat)
    requires multiset{a, b} <= multiset(rs)
    ensures i < |rs| && k < |rs| && i != k && rs[i] == a && rs[k] == b
  {
    assert a in multiset(rs);
    i :| i < |rs| && rs[i] == a;
    var rest := rs[..i] + rs[i + 1..];
    Without(rs, i);
    assert b in multiset(rest);
    var n :| 0 <= n < |rest| && rest[n] == b;
    k := if n < i then n else n + 1;
  }

  /** With such a repetition, some sorted arrangement puts one name between two occurrences of the other. */
  lemma BadArrangement(rs: seq<Record>, x: Record, y: Record, x': Record) returns (arr: seq<Record>)
    requires AllHold(rs) && SameWidth(rs) && NamesTold(rs) && multiset([x, y, x']) <= multiset(rs)
    requires Holds(x) && Holds(y) && Holds(x')
    requires NameOf(x) == NameOf(x') != NameOf(y) && Comparable(NameOf(x), NameOf(y))
    ensures multiset(arr) == multiset(rs) && AllHold(arr) && Sorted(arr)
    ensures CountRunsOf(arr) > |Names(arr)|
  {
    hide SameWidth, NamesTold, Sorted, LexSorted, NameCmp, Names, CountRuns;
    AllInHold(rs);
    var others := LexArranged(multiset(rs) - multiset([x, y, x']));
    assert multiset(others) + multiset([x, y, x']) == multiset(rs);
    arr := ThreePut(others, x, y, x');
    Rearranged(rs, arr);
  }

  lemma ThreePut(others: seq<Record>, x: Record, y: Record, x': Record) returns (arr: seq<Record>)
    requires AllHold(others) && LexSorted(others) && Holds(x) && Holds(y) && Holds(x')
    requires NameOf(x) == NameOf(x') != NameOf(y) && Comparable(NameOf(x), NameOf(y))
    ensures multiset(arr) == multiset(others) + multiset([x, y, x']) && AllHold(arr) && Sorted(arr)
    ensures SameWidth(arr) && NamesTold(arr) ==> CountRunsOf(arr) > |Names(arr)|
  {
    hide SameWidth, NamesTold, Sorted, LexSorted, NameCmp, LexLess, Names, Content, CountRuns, PutAt, SplitAt;
    var mid := [x, y, x'];
    var b := ThreeBelow(mid);
    ThreeSorted(x, y, x');
    arr := PutAt(others, b, mid);
    PutSorted(others, b, mid);
    PutKeeps(others, b, mid);
    PutMiscounts(others, b, x, y, x');
  }

  lemma PutMiscounts(rs: seq<Record>, b: seq<byte>, x: Record, y: Record, x': Record)
    requires AllHold(rs) && Holds(x) && Holds(y) && Holds(x') && NameOf(x) == NameOf(x') != NameOf(y)
    ensures var arr := PutAt(rs, b, [x, y, x']);
      SameWidth(arr) && NamesTold(arr) ==> CountRunsOf(arr) > |Names(arr)|
  {
    hide PutAt, SplitAt, LexLess, SameWidth, NamesTold, Names, CountRuns;
    var arr, k := PutAt(rs, b, [x, y, x']), SplitAt(rs, b);
    PutPlaces(rs, b, [x, y, x']);
    ReturnsAt(arr, k, x, y, x');
  }

  lemma ReturnsAt(arr: seq<Record>, k: nat, x: Record, y: Record, x': Record)
    requires AllHold(arr) && k + 3 <= |arr| && arr[k] == x && arr[k + 1] == y && arr[k + 2] == x'
    requires NameOf(x) == NameOf(x') != NameOf(y)
    ensures SameWidth(arr) && NamesTold(arr) ==> CountRunsOf(arr) > |Names(arr)|
  {
    hide SameWidth, NamesTold, Names, CountRuns;
    if SameWidth(arr) && NamesTold(arr) { ReturnMiscounts(arr, k, k + 1, k + 2); }
  }

  lemma PutPlaces(rs: seq<Record>, b: seq<byte>, mid: seq<Record>)
    requires AllHold(rs) && AllHold(mid) && |mid| == 3
    ensures var arr, k := PutAt(rs, b, mid), SplitAt(rs, b);
      k + 3 <= |arr| && arr[k] == mid[0] && arr[k + 1] == mid[1] && arr[k + 2] == mid[2]
  {
    hide Holds, LexLess, NameOf, SplitAt;
    var k := SplitAt(rs, b);
    MidPlaces(rs[..k], mid, rs[k..]);
  }

  lemma MidPlaces(l: seq<Record>, mid: seq<Record>, r: seq<Record>)
    requires |mid| == 3
    ensures var arr := l + mid + r;
      arr[|l|] == mid[0] && arr[|l| + 1] == mid[1] && arr[|l| + 2] == mid[2]
  {
  }

  lemma AllInHold(rs: seq<Record>)
    requires AllHold(rs)
    ensures forall r :: r in multiset(rs) ==> Holds(r)
  {
  }

  lemma ThreeTaken(rs: seq<Record>, i: nat, j: nat, k: nat)
    requires AllHold(rs) && RepeatedAt(NameList(rs), i, j, k)
    ensures multiset([rs[i], rs[j], rs[k]]) <= multiset(rs)
  {
    TwoPlaces(rs, Min(i, k), i + k - Min(i, k));
    ThreeIn(multiset(rs), rs[i], rs[j], rs[k]);
  }

  lemma ThreeIn(m: multiset<Record>, a: Record, b: Record, c: Record)
    requires multiset{a, c} <= m && b in m && b != a && b != c
    ensures multiset([a, b, c]) <= m
  {
    assert multiset([a, b, c]) == multiset{a, c} + multiset{b};
  }

  lemma ThreeBelow(mid: seq<Record>) returns (b: seq<byte>)
    requires |mid| == 3 && AllHold(mid)
    requires NameOf(mid[0]) == NameOf(mid[2]) && Comparable(NameOf(mid[0]), NameOf(mid[1]))
    ensures forall i :: 0 <= i < |mid| ==> NameOf(mid[i]) <= b
  {
    b := if NameOf(mid[0]) <= NameOf(mid[1]) then NameOf(mid[1]) else NameOf(mid[0]);
  }

  lemma ThreeSorted(x: Record, y: Record, x': Record)
    requires Holds(x) && Holds(y) && Holds(x') && NameOf(x) == NameOf(x') && Comparable(NameOf(x), NameOf(y))
    ensures AllHold([x, y, x']) && Sorted([x, y, x'])
  {
    CmpZero(x, y);
    CmpZero(y, x');
    CmpZero(x, x');
    hide NameCmp, Holds;
  }

  // ---------- the exact condition ----------

  /** Every arrangement of the list that the comparison accepts as sorted has one run for each name. */
  ghost predicate EveryOrderCounts(rs: seq<Record>) {
    forall arr: seq<Record> | multiset(arr) == multiset(rs) && AllHold(arr) && Sorted(arr) ::
      CountRunsOf(arr) == |Names(arr)|
  }

  /** For one list of records whose contents tell the names: every sorted arrangement counts right
      exactly when no name that occurs twice is a prefix of a different one in the list, or has one
      in the list as its prefix. */
  lemma OrdersExactly(rs: seq<Record>)
    requires AllHold(rs) && SameWidth(rs) && SameContents(rs) && NamesTold(rs)
    ensures EveryOrderCounts(rs) <==> !RepeatedPrefix(NameList(rs))
  {
    if RepeatedPrefix(NameList(rs)) {
      var i: nat, j: nat, k: nat :| RepeatedAt(NameList(rs), i, j, k);
      ThreeTaken(rs, i, j, k);
      var arr := BadArrangement(rs, rs[i], rs[j], rs[k]);
      assert CountRunsOf(arr) != |Names(arr)|;
    } else {
      forall arr: seq<Record> | multiset(arr) == multiset(rs) && AllHold(arr) && Sorted(arr)
        ensures CountRunsOf(arr) == |Names(arr)|
      {
        GoodArrangement(rs, arr);
      }
    }
  }

  lemma GoodArrangement(rs: seq<Record>, arr: seq<Record>)
    requires AllHold(rs) && SameWidth(rs) && SameContents(rs) && NamesTold(rs) && !RepeatedPrefix(NameList(rs))
    requires multiset(arr) == multiset(rs) && AllHold(arr) && Sorted(arr)
    ensures CountRunsOf(arr) == |Names(arr)|
  {
    Rearranged(rs, arr);
    NotRepeatedElsewhere(rs, arr);
    if arr != [] { TogetherCounts(arr); } else { assert Names(arr) == {}; }
  }

  /** Whether a name occurs twice does not depend on the order. */
  lemma NotRepeatedElsewhere(rs: seq<Record>, arr: seq<Record>)
    requires AllHold(rs) && AllHold(arr) && multiset(rs) == multiset(arr)
    ensures RepeatedPrefix(NameList(arr)) ==> RepeatedPrefix(NameList(rs))
  {
    if RepeatedPrefix(NameList(arr)) {
      var i: nat, j: nat, k: nat :| RepeatedAt(NameList(arr), i, j, k);
      TwoPlaces(arr, Min(i, k), i + k - Min(i, k));
      var i', k' := PlacesOf(rs, arr[i], arr[k]);
      assert arr[j] in multiset(arr) && arr[j] in multiset(rs);
      var j': nat :| j' < |rs| && rs[j'] == arr[j];
      assert RepeatedAt(NameList(rs), i', j', k');
    }
  }

  /** Zeroed memory shows the names and nothing else. */
  lemma ZeroTells(names: seq<seq<byte>>, garbage: Garbage)
    requires NamesFit(names) && ZeroBehind(names, garbage)
    ensures var rs := FilledAll(names, garbage);
      && AllHold(rs) && SameWidth(rs) && SameContents(rs) && NamesTold(rs)
      && NameList(rs) == names && Names(rs) == Distinct(names)
  {
    var rs := FilledAll(names, garbage);
    FilledHold(names, garbage);
    forall i | 0 <= i < |rs| ensures Content(rs[i]) == names[i] {
      FilledHolds(names[i], i, garbage);
      ZeroContent(names[i], i, garbage);
    }
    hide Content;
  }

  lemma ZeroContent(name: seq<byte>, i: nat, garbage: Garbage)
    requires |name| <= WIDTH && (|name| < WIDTH ==> garbage(i, |name|) == NUL)
    ensures CString(Behind(i, |name|, garbage)) == []
  {
  }

  /** What every sorting `qsort` finds, every sorted arrangement has. */
  lemma EveryQsort(names: seq<seq<byte>>, garbage: Garbage)
    requires NamesFit(names) && |names| > 1 && AllHold(FilledAll(names, garbage))
    requires Names(FilledAll(names, garbage)) == Distinct(names)
    ensures EveryOrderCounts(FilledAll(names, garbage)) <==> EveryQsortCounts(names, garbage)
  {
    hide NameOf, Holds, Names, Distinct, SameWidth, PrefixFree, SameContents, NamesTold, Sorted;
    var rs := FilledAll(names, garbage);
    hide FilledAll;
    if EveryOrderCounts(rs) {
      forall arrange: Arrange | Permutes(arrange) && LeavesSorted(arrange, rs)
        ensures UserTotal(names, garbage, arrange) == |Distinct(names)|
      {
        assert multiset(arrange(rs)) == multiset(rs);
        Rearranged(rs, arrange(rs));
      }
    } else {
      var arr: seq<Record> :| multiset(arr) == multiset(rs) && AllHold(arr) && Sorted(arr)
                              && CountRunsOf(arr) != |Names(arr)|;
      Rearranged(rs, arr);
      var arrange := s => if s == rs then arr else s;
      assert Permutes(arrange) && LeavesSorted(arrange, rs);
      assert UserTotal(names, garbage, arrange) != |Distinct(names)|;
    }
  }

  /** Every `qsort` that sorts leads to the number of distinct users. */
  ghost predicate EveryQsortCounts(names: seq<seq<byte>>, garbage: Garbage)
    requires NamesFit(names)
  {
    forall arrange: Arrange | Permutes(arrange) && LeavesSorted(arrange, FilledAll(names, garbage)) ::
      UserTotal(names, garbage, arrange) == |Distinct(names)|
  }

  /** The same for `nusers_init`, on zeroed memory: it counts the distinct users, whatever the sorting `qsort`,
      exactly when no such name occurs twice among the user processes. */
  lemma OrdersOfUsers(names: seq<seq<byte>>, garbage: Garbage)
    requires NamesFit(names) && ZeroBehind(names, garbage)
    ensures EveryQsortCounts(names, garbage) <==> !RepeatedPrefix(names)
  {
    if |names| <= 1 {
      FewCounted(names);
    } else {
      ZeroTells(names, garbage);
      OrdersExactly(FilledAll(names, garbage));
      EveryQsort(names, garbage);
    }
  }
}
