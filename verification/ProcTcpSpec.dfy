/** What counting the rows of /proc/net/tcp means, twice: as the automaton the gotos spell out,
    over an unbuffered stream, and as a division of the stream into lines and fields. */
module ProcTcpSpec {
  import opened Bytes
  import opened ScanHex

  /** The states of the accepted rows, in order, and whether the run ended by counting in a slot
      just behind the table. */
  datatype Scan = Scan(rows: seq<nat>, overrun: bool)

  const HALT := Scan([], false)

  function Prepend(rows: seq<nat>, scan: Scan): (r: Scan)
    ensures rows == [] ==> r == scan
    ensures scan.rows == [] ==> r == Scan(rows, scan.overrun)
  {
    Scan(rows + scan.rows, scan.overrun)
  }

  lemma PrependTwice(a: seq<nat>, b: seq<nat>, scan: Scan)
    ensures Prepend(a, Prepend(b, scan)) == Prepend(a + b, scan)
  {
    assert a + (b + scan.rows) == a + b + scan.rows;
  }

  // ---------- the automaton, one function per label ----------

  /** `seek_to_eol`, with `s` still to be read. */
  function SeekToEol(s: seq<byte>, n: int, slots: nat): Scan
    decreases |s|, 3
  {
    if s == [] then HALT
    else if s[0] == NEWLINE then SkipLeadingWs(s[1..], n, slots)
    else SeekToEol(s[1..], n, slots)
  }

  /** `skip_leading_ws`. */
  function SkipLeadingWs(s: seq<byte>, n: int, slots: nat): Scan
    decreases |s|, 2
  {
    if s == [] then HALT
    else if IsSpace(s[0]) then SkipLeadingWs(s[1..], n, slots)
    else SkipNFields(s[1..], n, slots, 0, s[0])
  }

  /** `skip_n_fields`, after `field` field starts, with the byte `prev` read last. */
  function SkipNFields(s: seq<byte>, n: int, slots: nat, field: nat, prev: byte): Scan
    decreases |s|, 1
  {
    if field < n then
      if s == [] then HALT
      else SkipNFields(s[1..], n, slots, if IsSpace(prev) && !IsSpace(s[0]) then field + 1 else field, s[0])
    else if field != n || s == [] then HALT
    else Tally(prev, s[0], s[1..], n, slots)
  }

  /** The state in the two bytes `a`, `b`: count it and go on, or stop. */
  function Tally(a: byte, b: byte, s: seq<byte>, n: int, slots: nat): Scan
    decreases |s| + 1, 0
  {
    if !IsHex(a) || !IsHex(b) || PairValue([a, b]) > slots then HALT
    else if PairValue([a, b]) == slots then Scan([], true)
    else Prepend([PairValue([a, b])], SeekToEol(s, n, slots))
  }

  /** The number written by two hex digits. */
  function PairValue(pair: seq<byte>): nat
    requires |pair| == 2 && IsHex(pair[0]) && IsHex(pair[1])
  {
    HexDigit(pair[0]) * 16 + HexDigit(pair[1])
  }

  // ---------- lines and fields ----------

  /** The length of the longest prefix of spaces (`space`) or of non-spaces. */
  function Run(s: seq<byte>, space: bool): (k: nat)
    ensures k <= |s|
  {
    if s == [] || IsSpace(s[0]) != space then 0 else 1 + Run(s[1..], space)
  }

  /** `s` without its leading spaces; a newline is a space like any other. */
  function Trim(s: seq<byte>): (t: seq<byte>)
    ensures |t| <= |s|
  {
    s[Run(s, true)..]
  }

  /** `s` from its next field on. */
  function DropField(s: seq<byte>): (t: seq<byte>)
    ensures |t| <= |s|
  {
    Trim(s[Run(s, false)..])
  }

  function DropFields(s: seq<byte>, n: nat): (t: seq<byte>)
    ensures |t| <= |s|
  {
    if n == 0 then s else DropFields(DropField(s), n - 1)
  }

  /** The position of the first newline, or the length. */
  function LineEnd(s: seq<byte>): (e: nat)
    ensures e <= |s| && NEWLINE !in s[..e] && (e < |s| ==> s[e] == NEWLINE)
  {
    if s == [] || s[0] == NEWLINE then 0 else
      assert s[..LineEnd(s[1..]) + 1] == [s[0]] + s[1..][..LineEnd(s[1..])];
      1 + LineEnd(s[1..])
  }

  /** The text of every row's state: after each line end, the first two bytes of field number `n`. */
  function StateTexts(s: seq<byte>, n: nat): seq<seq<byte>>
    decreases |s|
  {
    var e := LineEnd(s);
    if e == |s| then []
    else
      var t := DropFields(Trim(s[e + 1..]), n);
      if |t| < 2 then [] else [t[..2]] + StateTexts(t[2..], n)
  }

  /** Whether a row's state has a slot in the table. */
  predicate HasSlot(pair: seq<byte>, slots: nat) {
    |pair| == 2 && IsHex(pair[0]) && IsHex(pair[1]) && PairValue(pair) < slots
  }

  /** How many rows come before the first one without a slot. */
  function GoodRows(texts: seq<seq<byte>>, slots: nat): (k: nat)
    ensures k <= |texts| && (forall i :: 0 <= i < k ==> HasSlot(texts[i], slots))
    ensures k < |texts| ==> !HasSlot(texts[k], slots)
  {
    if texts == [] || !HasSlot(texts[0], slots) then 0 else 1 + GoodRows(texts[1..], slots)
  }

  /** The scan read off the state texts. */
  ghost predicate ScanOf(scan: Scan, texts: seq<seq<byte>>, slots: nat) {
    var k := GoodRows(texts, slots);
    && |scan.rows| == k
    && (forall i :: 0 <= i < k ==> scan.rows[i] == PairValue(texts[i]))
    && (scan.overrun <==> k < |texts| && |texts[k]| == 2 && IsHex(texts[k][0]) && IsHex(texts[k][1])
                          && PairValue(texts[k]) == slots)
  }

  /** The automaton counts exactly the rows before the first one that is truncated, is not
      hexadecimal, or is out of range. */
  lemma {:induction false} AutomatonReadsRows(s: seq<byte>, n: nat, slots: nat)
    ensures ScanOf(SeekToEol(s, n, slots), StateTexts(s, n), slots)
    decreases |s|
  {
    hide Run, DropFields, Trim, DropField;
    SeekIsLineEnd(s, n, slots);
    var e := LineEnd(s);
    if e < |s| {
      var u := Trim(s[e + 1..]);
      SkipIsTrim(s[e + 1..], n, slots);
      if u != [] {
        FieldsAreDropped(u, n, slots);
        var t := DropFields(u, n);
        if |t| >= 2 {
          AutomatonReadsRows(t[2..], n, slots);
          TallyReads(t, n, slots);
        }
      } else {
        NothingToDrop(n);
      }
    }
  }

  /** A negative field number accepts nothing. */
  lemma {:induction false} NegativeField(s: seq<byte>, n: int, slots: nat)
    requires n < 0
    ensures SeekToEol(s, n, slots) == SkipLeadingWs(s, n, slots) == HALT
  {
    if s != [] { NegativeField(s[1..], n, slots); }
  }

  lemma TallyReads(t: seq<byte>, n: nat, slots: nat)
    requires |t| >= 2
    requires ScanOf(SeekToEol(t[2..], n, slots), StateTexts(t[2..], n), slots)
    ensures ScanOf(Tally(t[0], t[1], t[2..], n, slots), [t[..2]] + StateTexts(t[2..], n), slots)
  {
    hide SeekToEol, StateTexts;
    var rest := StateTexts(t[2..], n);
    var texts := [t[..2]] + rest;
    assert t[..2] == [t[0], t[1]];
    assert texts[1..] == rest;
    assert GoodRows(texts, slots) == if HasSlot(t[..2], slots) then 1 + GoodRows(rest, slots) else 0;
  }

  lemma {:induction false} SeekIsLineEnd(s: seq<byte>, n: nat, slots: nat)
    ensures var e := LineEnd(s);
      SeekToEol(s, n, slots) == if e == |s| then HALT else SkipLeadingWs(s[e + 1..], n, slots)
  {
    if s != [] && s[0] != NEWLINE {
      SeekIsLineEnd(s[1..], n, slots);
      assert LineEnd(s) < |s| ==> s[1..][LineEnd(s)..] == s[LineEnd(s) + 1..];
    }
  }

  lemma {:induction false} SkipIsTrim(s: seq<byte>, n: nat, slots: nat)
    ensures var u := Trim(s);
      (u == [] || !IsSpace(u[0])) &&
      SkipLeadingWs(s, n, slots) == if u == [] then HALT else SkipNFields(u[1..], n, slots, 0, u[0])
  {
    if s != [] && IsSpace(s[0]) {
      SkipIsTrim(s[1..], n, slots);
      assert s[1..][Run(s[1..], true)..] == s[Run(s, true)..];
    }
  }

  lemma {:induction false} NothingToDrop(n: nat)
    ensures DropFields([], n) == []
  {
    if n > 0 { NothingToDrop(n - 1); }
  }

  /** Skipping fields byte by byte, from a non-space, is dropping them one by one. */
  lemma {:induction false} FieldsAreDropped(u: seq<byte>, n: nat, slots: nat, field: nat := 0)
    requires u != [] && !IsSpace(u[0]) && field <= n
    ensures var t := DropFields(u, n - field);
      SkipNFields(u[1..], n, slots, field, u[0]) == if |t| < 2 then HALT else Tally(t[0], t[1], t[2..], n, slots)
    decreases n - field
  {
    if field < n {
      var v := DropField(u);
      NextField(u, n, slots, field);
      if v == [] {
        NothingToDrop(n - field - 1);
      } else {
        FieldsAreDropped(v, n, slots, field + 1);
      }
    }
  }

  /** From inside a field to the first byte of the next one. */
  lemma {:induction false} NextField(u: seq<byte>, n: nat, slots: nat, field: nat)
    requires u != [] && !IsSpace(u[0]) && field < n
    ensures var v := DropField(u);
      (v == [] || !IsSpace(v[0])) &&
      SkipNFields(u[1..], n, slots, field, u[0])
      == if v == [] then HALT else SkipNFields(v[1..], n, slots, field + 1, v[0])
    decreases |u|
  {
    if |u| > 1 {
      assert u[1..][Run(u[1..], false)..] == u[Run(u, false)..];
      if IsSpace(u[1]) {
        NextStart(u[1..], n, slots, field);
      } else {
        NextField(u[1..], n, slots, field);
      }
    }
  }

  /** From inside the spaces behind a field to the first byte of the next one. */
  lemma {:induction false} NextStart(u: seq<byte>, n: nat, slots: nat, field: nat)
    requires u != [] && IsSpace(u[0]) && field < n
    ensures var v := Trim(u);
      (v == [] || !IsSpace(v[0])) &&
      SkipNFields(u[1..], n, slots, field, u[0])
      == if v == [] then HALT else SkipNFields(v[1..], n, slots, field + 1, v[0])
    decreases |u|
  {
    assert u[1..][Run(u[1..], true)..] == u[Run(u, true)..];
    if |u| > 1 && IsSpace(u[1]) {
      NextStart(u[1..], n, slots, field);
    }
  }

  // ---------- printing and counting ----------

  /** A row as some program may print it: spaces, fields with the spaces behind them, the state as two
      hex digits in either case, and anything up to the end of the line. */
  datatype Row = Row(lead: seq<byte>, fields: seq<(seq<byte>, seq<byte>)>,
                     state: byte, upper: (bool, bool), rest: seq<byte>)

  predicate AllSpace(s: seq<byte>, space: bool) {
    forall i :: 0 <= i < |s| ==> IsSpace(s[i]) == space
  }

  predicate ValidRow(r: Row, n: nat) {
    && AllSpace(r.lead, true) && |r.fields| == n
    && (forall i :: 0 <= i < n ==>
         && r.fields[i].0 != [] && AllSpace(r.fields[i].0, false)
         && r.fields[i].1 != [] && AllSpace(r.fields[i].1, true))
    && NEWLINE !in r.rest
  }

  /** The state, as printed. */
  function StateText(r: Row): (t: seq<byte>)
    ensures |t| == 2
  {
    [HexChar(r.state / 16, r.upper.0), HexChar(r.state % 16, r.upper.1)]
  }

  /** Reading undoes printing. */
  lemma StateReads(r: Row)
    ensures var t := StateText(r); IsHex(t[0]) && IsHex(t[1]) && PairValue(t) == r.state
  {
    hide HexChar, HexDigit;
    HexDigitReads(r.state / 16, r.upper.0);
    HexDigitReads(r.state % 16, r.upper.1);
  }

  function FieldsText(fields: seq<(seq<byte>, seq<byte>)>): seq<byte> {
    if fields == [] then [] else fields[0].0 + fields[0].1 + FieldsText(fields[1..])
  }

  function RowText(r: Row): seq<byte> {
    r.lead + FieldsText(r.fields) + StateText(r) + r.rest + [NEWLINE]
  }

  function RowsText(rows: seq<Row>): seq<byte> {
    if rows == [] then [] else RowText(rows[0]) + RowsText(rows[1..])
  }

  function States(rows: seq<Row>): (texts: seq<seq<byte>>)
    ensures |texts| == |rows|
  {
    seq(|rows|, i requires 0 <= i < |rows| => StateText(rows[i]))
  }

  lemma {:induction false} RunIs(s: seq<byte>, space: bool, k: nat)
    requires k <= |s| && AllSpace(s[..k], space) && (k < |s| ==> IsSpace(s[k]) != space)
    ensures Run(s, space) == k
  {
    if k > 0 {
      assert s[0] == s[..k][0];
      assert s[1..][..k - 1] == s[..k][1..];
      RunIs(s[1..], space, k - 1);
    }
  }

  lemma {:induction false} LineEndIs(s: seq<byte>, e: nat)
    requires e < |s| && NEWLINE !in s[..e] && s[e] == NEWLINE
    ensures LineEnd(s) == e
  {
    if e > 0 {
      assert s[0] == s[..e][0];
      assert s[1..][..e - 1] == s[..e][1..];
      LineEndIs(s[1..], e - 1);
    }
  }

  lemma TrimIs(lead: seq<byte>, t: seq<byte>)
    requires AllSpace(lead, true) && t != [] && !IsSpace(t[0])
    ensures Trim(lead + t) == t
  {
    assert (lead + t)[..|lead|] == lead;
    RunIs(lead + t, true, |lead|);
  }

  lemma DropWord(word: seq<byte>, gap: seq<byte>, rest: seq<byte>)
    requires AllSpace(word, false) && gap != [] && AllSpace(gap, true) && rest != [] && !IsSpace(rest[0])
    ensures DropField(word + gap + rest) == rest
  {
    var s := word + (gap + rest);
    assert word + gap + rest == s;
    assert s[..|word|] == word && s[|word|..] == gap + rest;
    assert s[|word|] == gap[0];
    RunIs(s, false, |word|);
    TrimIs(gap, rest);
  }

  lemma {:induction false} FieldsDrop(r: Row, fields: seq<(seq<byte>, seq<byte>)>, n: nat, t: seq<byte>)
    requires ValidRow(r, n) && t != [] && !IsSpace(t[0])
    requires |fields| <= n && fields == r.fields[n - |fields|..]
    ensures DropFields(FieldsText(fields) + t, |fields|) == t
    ensures !IsSpace((FieldsText(fields) + t)[0])
  {
    hide DropField;
    if fields == [] {
      assert FieldsText(fields) + t == t;
    } else {
      var k := n - |fields|;
      assert fields[0] == r.fields[k] && fields[1..] == r.fields[k + 1..];
      var word, gap, rest := fields[0].0, fields[0].1, FieldsText(fields[1..]) + t;
      FieldsDrop(r, fields[1..], n, t);
      assert FieldsText(fields) + t == word + gap + rest;
      DropWord(word, gap, rest);
      assert (word + gap + rest)[0] == word[0];
    }
  }

  /** From a line end to the state of the next row. */
  lemma NextState(header: seq<byte>, u: seq<byte>, t: seq<byte>, n: nat)
    requires NEWLINE !in header && DropFields(Trim(u), n) == t && |t| >= 2
    ensures StateTexts(header + [NEWLINE] + u, n) == [t[..2]] + StateTexts(t[2..], n)
  {
    var s := header + [NEWLINE] + u;
    assert s[..|header|] == header && s[|header| + 1..] == u;
    LineEndIs(s, |header|);
  }

  /** What the pieces of a row add up to. */
  lemma RowPieces(r: Row, more: seq<byte>)
    ensures RowText(r) + more == r.lead + (FieldsText(r.fields) + (StateText(r) + (r.rest + [NEWLINE] + more)))
  {
    hide FieldsText, StateText;
    var tail := r.rest + [NEWLINE] + more;
    var t := StateText(r) + tail;
    assert RowText(r) + more == r.lead + FieldsText(r.fields) + StateText(r) + tail;
    assert r.lead + FieldsText(r.fields) + StateText(r) + tail == r.lead + (FieldsText(r.fields) + t);
  }

  /** From a line end over one printed row. */
  lemma OverRow(header: seq<byte>, r: Row, more: seq<byte>, n: nat)
    requires NEWLINE !in header && ValidRow(r, n)
    ensures StateTexts(header + [NEWLINE] + (RowText(r) + more), n)
         == [StateText(r)] + StateTexts(r.rest + [NEWLINE] + more, n)
  {
    hide StateTexts, DropFields, Trim, FieldsText, RowText, StateText;
    var fields, tail := FieldsText(r.fields), r.rest + [NEWLINE] + more;
    var t := StateText(r) + tail;
    assert t[0] == StateText(r)[0] && t[..2] == StateText(r) && t[2..] == tail;
    StateReads(r);
    FieldsDrop(r, r.fields, n, t);
    TrimIs(r.lead, fields + t);
    RowPieces(r, more);
    NextState(header, RowText(r) + more, t, n);
  }

  lemma AfterHeader(header: seq<byte>, n: nat)
    requires NEWLINE !in header
    ensures StateTexts(header + [NEWLINE], n) == []
  {
    var s := header + [NEWLINE];
    assert s[..|header|] == header && s[|header| + 1..] == [];
    LineEndIs(s, |header|);
    assert Trim([]) == [];
    NothingToDrop(n);
  }

  /** Scanning printed rows finds exactly their states. */
  lemma {:induction false} PrintedStates(header: seq<byte>, rows: seq<Row>, n: nat)
    requires NEWLINE !in header && forall i :: 0 <= i < |rows| ==> ValidRow(rows[i], n)
    ensures StateTexts(header + [NEWLINE] + RowsText(rows), n) == States(rows)
    decreases |rows|
  {
    hide StateTexts, RowText;
    if rows == [] {
      assert header + [NEWLINE] + [] == header + [NEWLINE];
      AfterHeader(header, n);
    } else {
      OverRow(header, rows[0], RowsText(rows[1..]), n);
      PrintedStates(rows[0].rest, rows[1..], n);
      assert States(rows) == [StateText(rows[0])] + States(rows[1..]);
    }
  }

  /** How often `v` occurs. */
  function CountOf(rows: seq<nat>, v: nat): nat {
    if rows == [] then 0 else CountOf(rows[..|rows| - 1], v) + if rows[|rows| - 1] == v then 1 else 0
  }

  /** The table `now` is the table `before` with every row counted in its slot, in 64-bit words. */
  ghost predicate Counted(now: seq<u64>, before: seq<u64>, rows: seq<nat>) {
    |now| == |before| && forall v :: 0 <= v < |now| ==> now[v] == (before[v] + CountOf(rows, v)) % U64
  }

  lemma CountRow(now: seq<u64>, before: seq<u64>, rows: seq<nat>, v: nat)
    requires Counted(now, before, rows) && v < |now|
    ensures Counted(now[v := (now[v] + 1) % U64], before, rows + [v])
  {
    assert (rows + [v])[..|rows|] == rows;
    forall w | 0 <= w < |now|
      ensures now[v := (now[v] + 1) % U64][w] == (before[w] + CountOf(rows + [v], w)) % U64
    {
      WrapSuccessor(before[w] + CountOf(rows, w));
    }
  }

  lemma WrapSuccessor(n: nat)
    ensures (n % U64 + 1) % U64 == (n + 1) % U64
  {
    WrapMultiple(n % U64 + 1, n / U64);
  }

  /** Counting is by multiset: the order of the rows does not matter. */
  lemma {:induction false} CountIsMultiplicity(rows: seq<nat>, v: nat)
    ensures CountOf(rows, v) == multiset(rows)[v]
  {
    if rows != [] {
      CountIsMultiplicity(rows[..|rows| - 1], v);
      assert rows == rows[..|rows| - 1] + [rows[|rows| - 1]];
    }
  }

  /** The sum of the counts of the slots from `from` up to `to`. */
  function CountsBetween(rows: seq<nat>, from: nat, to: nat): nat
    requires from <= to
  {
    if from == to then 0 else CountsBetween(rows, from, to - 1) + CountOf(rows, to - 1)
  }

  lemma {:induction false} CountsAddRow(rows: seq<nat>, from: nat, to: nat)
    requires from <= to && rows != []
    ensures var last := rows[|rows| - 1];
      CountsBetween(rows, from, to) == CountsBetween(rows[..|rows| - 1], from, to) + if from <= last < to then 1 else 0
  {
    if from < to { CountsAddRow(rows, from, to - 1); }
  }

  /** Every row is counted once: the counts of all slots add up to the number of rows. */
  lemma {:induction false} CountsAddUp(rows: seq<nat>, slots: nat)
    requires forall i :: 0 <= i < |rows| ==> rows[i] < slots
    ensures CountsBetween(rows, 0, slots) == |rows|
  {
    if rows == [] {
      NoRowsNoCounts(0, slots);
    } else {
      CountsAddUp(rows[..|rows| - 1], slots);
      CountsAddRow(rows, 0, slots);
    }
  }

  lemma {:induction false} NoRowsNoCounts(from: nat, to: nat)
    requires from <= to
    ensures CountsBetween([], from, to) == 0
  {
    if from < to { NoRowsNoCounts(from, to - 1); }
  }

  lemma {:induction false} CountsSplit(rows: seq<nat>, from: nat, mid: nat, to: nat)
    requires from <= mid <= to
    ensures CountsBetween(rows, from, to) == CountsBetween(rows, from, mid) + CountsBetween(rows, mid, to)
  {
    if mid < to { CountsSplit(rows, from, mid, to - 1); }
  }

  /** Only states with a slot are ever accepted. */
  lemma AcceptedHaveSlots(s: seq<byte>, n: nat, slots: nat)
    ensures var rows := SeekToEol(s, n, slots).rows; forall i :: 0 <= i < |rows| ==> rows[i] < slots
  {
    AutomatonReadsRows(s, n, slots);
  }

  /** The states of printed rows, in order. */
  function StatesOf(rows: seq<Row>): (states: seq<nat>)
    ensures |states| == |rows|
  {
    seq(|rows|, i requires 0 <= i < |rows| => rows[i].state)
  }

  /** Counting is the number of rows that were printed with this number. */
  lemma {:induction false} CountIsNumber(rows: seq<Row>, k: nat, v: nat)
    requires k <= |rows|
    ensures CountOf(StatesOf(rows[..k]), v) == |set i | 0 <= i < k && rows[i].state == v|
  {
    var found := set i | 0 <= i < k && rows[i].state == v;
    if k == 0 {
      assert found == {};
    } else {
      CountIsNumber(rows, k - 1, v);
      assert StatesOf(rows[..k])[..k - 1] == StatesOf(rows[..k - 1]);
      OneMoreRow(rows, k, v);
    }
  }

  lemma OneMoreRow(rows: seq<Row>, k: nat, v: nat)
    requires 0 < k <= |rows|
    ensures |set i | 0 <= i < k && rows[i].state == v|
         == |set i | 0 <= i < k - 1 && rows[i].state == v| + if rows[k - 1].state == v then 1 else 0
  {
    var before := set i | 0 <= i < k - 1 && rows[i].state == v;
    assert (set i | 0 <= i < k && rows[i].state == v) == if rows[k - 1].state == v then before + {k - 1} else before;
  }

  /** The first `k` rows have a slot, and row `k`, if there is one, has not. */
  predicate FirstWithout(rows: seq<Row>, slots: nat, k: nat) {
    && k <= |rows| && (forall i :: 0 <= i < k ==> rows[i].state < slots)
    && (k < |rows| ==> rows[k].state >= slots)
  }

  /** Of any printed rows, exactly those before the first without a slot are accepted, with the numbers that
      were printed; the run ends in the table unless that row's state is the number of slots. */
  lemma PrintedScan(header: seq<byte>, rows: seq<Row>, n: nat, slots: nat, k: nat)
    requires NEWLINE !in header && FirstWithout(rows, slots, k)
    requires forall i :: 0 <= i < |rows| ==> ValidRow(rows[i], n)
    ensures SeekToEol(header + [NEWLINE] + RowsText(rows), n, slots)
         == Scan(StatesOf(rows[..k]), k < |rows| && rows[k].state == slots)
  {
    hide SeekToEol, StateTexts, RowsText, GoodRows, PairValue, StateText, ValidRow;
    PrintedStates(header, rows, n);
    AutomatonReadsRows(header + [NEWLINE] + RowsText(rows), n, slots);
    forall i | 0 <= i < |rows|
      ensures HasSlot(States(rows)[i], slots) <==> rows[i].state < slots
      ensures IsHex(States(rows)[i][0]) && IsHex(States(rows)[i][1]) && PairValue(States(rows)[i]) == rows[i].state
    {
      StateReads(rows[i]);
    }
    assert GoodRows(States(rows), slots) == k;
    assert SeekToEol(header + [NEWLINE] + RowsText(rows), n, slots).rows == StatesOf(rows[..k]);
  }

  /** Parsing undoes printing: of printed rows whose states all have a slot, every one is accepted,
      with its own state, and the run ends inside the table. */
  lemma ParserUndoesPrinter(header: seq<byte>, rows: seq<Row>, n: nat, slots: nat)
    requires NEWLINE !in header
    requires forall i :: 0 <= i < |rows| ==> ValidRow(rows[i], n) && rows[i].state < slots
    ensures SeekToEol(header + [NEWLINE] + RowsText(rows), n, slots) == Scan(StatesOf(rows), false)
  {
    hide SeekToEol, RowsText, ValidRow;
    PrintedScan(header, rows, n, slots, |rows|);
    assert rows[..|rows|] == rows;
  }

  function FirstOut(rows: seq<Row>, slots: nat): (k: nat)
    ensures FirstWithout(rows, slots, k)
  {
    if rows == [] || rows[0].state >= slots then 0 else 1 + FirstOut(rows[1..], slots)
  }

  /** The bound test admits one state too many. Among printed rows, the run leaves the table exactly
      when a row in the state just behind the last slot comes before any row with a larger state. */
  lemma OverrunExactly(header: seq<byte>, rows: seq<Row>, n: nat, slots: nat)
    requires NEWLINE !in header && forall i :: 0 <= i < |rows| ==> ValidRow(rows[i], n)
    ensures SeekToEol(header + [NEWLINE] + RowsText(rows), n, slots).overrun
      <==> exists k :: 0 <= k < |rows| && rows[k].state == slots && forall i :: 0 <= i < k ==> rows[i].state < slots
  {
    hide SeekToEol, RowsText, ValidRow;
    var k := FirstOut(rows, slots);
    PrintedScan(header, rows, n, slots, k);
    if j :| 0 <= j < |rows| && rows[j].state == slots && forall i :: 0 <= i < j ==> rows[i].state < slots {
      assert k == j;
    }
  }

  /** Three fields of one zero each, and a state. */
  function ExampleRow(state: byte): Row {
    var zero: (seq<byte>, seq<byte>) := ([48], [SPACE]);
    Row([SPACE], [zero, zero, zero], state, (true, true), [])
  }

  lemma ExampleIsValid(state: byte)
    ensures ValidRow(ExampleRow(state), 3)
  {
  }

  /** A row in state 0C leaves the table of twelve slots. */
  lemma OverrunExample()
    ensures StateText(ExampleRow(12)) == Text("0C")
    ensures SeekToEol(Text("  sl") + [NEWLINE] + RowsText([ExampleRow(12)]), 3, 12).overrun
  {
    assert StateText(ExampleRow(12)) == Text("0C") by { HexCharIs(0, true); HexCharIs(12, true); }
    hide SeekToEol, RowsText;
    var rows := [ExampleRow(12)];
    ExampleIsValid(12);
    OverrunExactly(Text("  sl"), rows, 3, 12);
    assert rows[0].state == 12;
  }
}
