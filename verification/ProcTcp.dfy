/** The buffered reader and the goto machine of ustat_tcp_linux.c. */
module ProcTcp {
  import opened Bytes
  import opened ScanHex
  import opened ProcTcpSpec

  const BUFFER_SIZE := 16 * 1024

  /** An open file, as the answers the kernel will give to successive reads. */
  class Descriptor {
    var answers: seq<seq<byte>>  // what each read delivers
    const last: int              // what read returns from then on: 0 at the end of the file, negative on error

    constructor (answers: seq<seq<byte>>, last: int)
      requires ValidAnswers(answers) && last <= 0
      ensures Valid() && this.answers == answers && this.last == last
    {
      this.answers := answers;
      this.last := last;
    }

    /** Each read delivers at least one byte and at most a full buffer. */
    static predicate ValidAnswers(answers: seq<seq<byte>>) {
      forall i :: 0 <= i < |answers| ==> 1 <= |answers[i]| <= BUFFER_SIZE
    }

    ghost predicate Valid()
      reads this
    {
      ValidAnswers(answers) && last <= 0
    }

    /** `read(fd, buf, sizeof(buf))`. */
    method Read(buf: array<byte>) returns (n: int)
      requires Valid() && buf.Length == BUFFER_SIZE
      modifies this, buf
      ensures Valid()
      ensures old(answers) == [] ==> n == last && answers == []
      ensures old(answers) != [] ==>
                n == |old(answers)[0]| && buf[..n] == old(answers)[0] && answers == old(answers)[1..]
    {
      if answers == [] {
        return last;
      }
      var chunk := answers[0];
      forall i | 0 <= i < |chunk| { buf[i] := chunk[i]; }
      n := |chunk|;
      assert buf[..n] == chunk;
      answers := answers[1..];
    }
  }

  /** All bytes the answers deliver, however they are cut. */
  function Stream(answers: seq<seq<byte>>): seq<byte> {
    if answers == [] then [] else answers[0] + Stream(answers[1..])
  }

  /** `struct buffered_byte_reader`. */
  class BufferedByteReader {
    var prev: byte
    var cur: byte
    var field: nat
    var pos: nat
    var end: int
    var consumed: u64
    var err: int
    const buf: array<byte>

    constructor ()
      ensures Valid() && fresh(buf) && pos == 0 && end == 0 && err == 0 && consumed == 0
    {
      prev, cur, field, pos, end, consumed, err := 0, 0, 0, 0, 0, 0, 0;
      buf := new byte[BUFFER_SIZE];
    }

    ghost predicate Valid()
      reads this
    {
      buf.Length == BUFFER_SIZE && end <= BUFFER_SIZE && (pos < end || end <= 0)
    }

    /** The bytes still to be delivered: the rest of the buffer, then the rest of the file. */
    ghost function Unread(fd: Descriptor): seq<byte>
      requires Valid()
      reads this, buf, fd
    {
      (if pos < end then buf[pos + 1..end] else []) + Stream(fd.answers)
    }

    /** `_read_byte`: the next byte of the stream, in `cur`, whatever the chunks. */
    method ReadByte(fd: Descriptor) returns (ok: bool)
      requires Valid() && fd.Valid()
      modifies this, buf, fd
      ensures Valid() && fd.Valid() && prev == old(prev) && field == old(field)
      ensures ok ==> old(Unread(fd)) == [cur] + Unread(fd)
      ensures ok ==> consumed == (old(consumed) + 1) % U64 && err == old(err)
      ensures !ok ==> old(Unread(fd)) == Unread(fd) == []
      ensures !ok ==> consumed == old(consumed) && err == fd.last
    {
      hide Stream;
      FillWhenNeeded(fd);
      ok := end > 0;
      if ok {
        consumed := (consumed + 1) % U64;
        cur := buf[pos];
        assert buf[pos..end] == [cur] + buf[pos + 1..end];
      } else {
        err := end;
      }
    }

    /** The first half of `_read_byte`: step to the next position, and refill the buffer when it is used up. */
    method FillWhenNeeded(fd: Descriptor)
      requires Valid() && fd.Valid()
      modifies this`end, this`pos, buf, fd
      ensures Valid() && fd.Valid()
      ensures end > 0 ==> old(Unread(fd)) == buf[pos..end] + Stream(fd.answers)
      ensures end <= 0 ==> old(Unread(fd)) == Stream(fd.answers) == [] && end == fd.last && pos == 0
    {
      pos := pos + 1;
      if pos >= end {
        end := fd.Read(buf);
        pos := 0;
        assert end > 0 ==> buf[0..end] == buf[..end];
      }
    }

    /** Label `seek_to_eol`. The test of `err` inside the loop never fires: `err` is set only
        together with a failing read, which already ends the loop. */
    method SeekEol(fd: Descriptor, ghost n: int, ghost slots: nat) returns (ok: bool)
      requires Valid() && fd.Valid()
      modifies this, buf, fd
      ensures Valid() && fd.Valid()
      ensures old(SeekToEol(Unread(fd), n, slots)) == if ok then SkipLeadingWs(Unread(fd), n, slots) else HALT
      ensures |Unread(fd)| <= old(|Unread(fd)|) && (ok ==> |Unread(fd)| < old(|Unread(fd)|))
    {
      ok := ReadByte(fd);
      while ok && cur != NEWLINE
        invariant Valid() && fd.Valid()
        invariant |Unread(fd)| <= old(|Unread(fd)|) && (ok ==> |Unread(fd)| < old(|Unread(fd)|))
        invariant old(SeekToEol(Unread(fd), n, slots))
               == if !ok then HALT
                  else if cur == NEWLINE then SkipLeadingWs(Unread(fd), n, slots)
                  else SeekToEol(Unread(fd), n, slots)
        decreases |Unread(fd)|, ok
      {
        ok := ReadByte(fd);
      }
    }

    /** Label `skip_leading_ws`. */
    method SkipWs(fd: Descriptor, ghost n: int, ghost slots: nat) returns (ok: bool)
      requires Valid() && fd.Valid()
      modifies this, buf, fd
      ensures Valid() && fd.Valid()
      ensures old(SkipLeadingWs(Unread(fd), n, slots)) == if ok then SkipNFields(Unread(fd), n, slots, 0, cur) else HALT
      ensures |Unread(fd)| <= old(|Unread(fd)|)
    {
      ok := ReadByte(fd);
      while ok && IsSpace(cur)
        invariant Valid() && fd.Valid()
        invariant |Unread(fd)| <= old(|Unread(fd)|)
        invariant old(SkipLeadingWs(Unread(fd), n, slots))
               == if !ok then HALT
                  else if IsSpace(cur) then SkipLeadingWs(Unread(fd), n, slots)
                  else SkipNFields(Unread(fd), n, slots, 0, cur)
        decreases |Unread(fd)|, ok
      {
        ok := ReadByte(fd);
      }
    }

    /** Label `skip_n_fields`, with the byte just read in `cur`. */
    method SkipFields(fd: Descriptor, stateField: int, ghost slots: nat)
      requires Valid() && fd.Valid()
      modifies this, buf, fd
      ensures Valid() && fd.Valid()
      ensures old(SkipNFields(Unread(fd), stateField, slots, 0, cur))
           == SkipNFields(Unread(fd), stateField, slots, field, prev)
      ensures |Unread(fd)| <= old(|Unread(fd)|)
      ensures field >= stateField || Unread(fd) == []
    {
      hide Tally;
      field := 0;
      prev := cur;
      var ok := true;
      while field < stateField && ok
        invariant Valid() && fd.Valid()
        invariant |Unread(fd)| <= old(|Unread(fd)|)
        invariant !ok ==> Unread(fd) == []
        invariant old(SkipNFields(Unread(fd), stateField, slots, 0, cur))
               == SkipNFields(Unread(fd), stateField, slots, field, prev)
        decreases |Unread(fd)|, ok
      {
        ok := ReadByte(fd);
        if ok {
          if IsSpace(prev) && !IsSpace(cur) {
            field := field + 1;
          }
          prev := cur;
        }
      }
    }

    /** One round through the labels: the state of the next row, or -1 for `goto end`. */
    method NextState(fd: Descriptor, stateField: int, lstore: nat) returns (val: int)
      requires Valid() && fd.Valid()
      modifies this, buf, fd
      ensures Valid() && fd.Valid() && -1 <= val <= lstore
      ensures val >= 0 ==> |Unread(fd)| < old(|Unread(fd)|)
      ensures old(SeekToEol(Unread(fd), stateField, lstore))
           == if val < 0 then HALT
              else if val == lstore then Scan([], true)
              else Prepend([val], SeekToEol(Unread(fd), stateField, lstore))
    {
      hide SeekToEol, SkipLeadingWs;
      var ok := SeekEol(fd, stateField, lstore);
      if !ok { return -1; }
      ok := SkipWs(fd, stateField, lstore);
      if !ok { return -1; }
      SkipFields(fd, stateField, lstore);
      if field != stateField { return -1; }
      ok := ReadByte(fd);
      if !ok { return -1; }
      // `prev` and `cur` lie next to each other
      var digits, n := ScanHex.ScanHex([prev, cur], 2, 0);
      if digits != 2 { return -1; }
      PairIs([prev, cur]);
      val := if n > lstore then -1 else n;
    }
  }

  /** `_process_proc_tcp`. `overrun` reports that the run counted in the slot behind the table,
      from where on C promises nothing. */
  method ProcessProcTcp(fd: Descriptor, stateField: int, store: array<u64>, lstore: nat)
    returns (rc: int, overrun: bool)
    requires fd.Valid() && lstore == store.Length
    modifies fd, store
    ensures fd.Valid()
    ensures var scan := SeekToEol(old(Stream(fd.answers)), stateField, lstore);
      && overrun == scan.overrun
      && rc == (if scan.rows == [] && !scan.overrun then 0 else 1)
      && Counted(store[..], old(store[..]), scan.rows)
  {
    hide SeekToEol, Counted;
    var r := new BufferedByteReader();
    rc, overrun := 0, false;
    ghost var total := SeekToEol(Stream(fd.answers), stateField, lstore);
    ghost var done: seq<nat> := [];
    NothingCounted(store[..]);
    assert r.Unread(fd) == Stream(fd.answers);
    while true
      invariant r.Valid() && fd.Valid() && fresh(r) && fresh(r.buf)
      invariant total == Prepend(done, SeekToEol(r.Unread(fd), stateField, lstore))
      invariant rc == if done == [] then 0 else 1
      invariant Counted(store[..], old(store[..]), done)
      decreases |r.Unread(fd)|
    {
      var val := r.NextState(fd, stateField, lstore);
      if val < 0 { break; }
      rc := 1;
      if val == lstore {
        overrun := true;
        break;
      }
      PrependTwice(done, [val], SeekToEol(r.Unread(fd), stateField, lstore));
      CountRow(store[..], old(store[..]), done, val);
      store[val] := (store[val] + 1) % U64;
      done := done + [val];
    }
  }

  /** The whole way of a printed file, for any prior store: each slot grows by the rows printed with its
      number before row `k`, the first without a slot; the return code says whether a row was counted. */
  method ProcessPrinted(fd: Descriptor, stateField: nat, store: array<u64>, lstore: nat,
                        ghost header: seq<byte>, ghost rows: seq<Row>, ghost k: nat)
    returns (rc: int, overrun: bool)
    requires fd.Valid() && lstore == store.Length
    requires Stream(fd.answers) == header + [NEWLINE] + RowsText(rows) && NEWLINE !in header
    requires FirstWithout(rows, lstore, k) && forall i :: 0 <= i < |rows| ==> ValidRow(rows[i], stateField)
    modifies fd, store
    ensures overrun == (k < |rows| && rows[k].state == lstore)
    ensures rc == (if k == 0 && !overrun then 0 else 1)
    ensures forall v :: 0 <= v < store.Length ==>
              store[v] == (old(store[v]) + |set i | 0 <= i < k && rows[i].state == v|) % U64
  {
    hide SeekToEol, RowsText, ValidRow;
    PrintedScan(header, rows, stateField, lstore, k);
    rc, overrun := ProcessProcTcp(fd, stateField, store, lstore);
    forall v | 0 <= v < store.Length
      ensures store[v] == (old(store[v]) + |set i | 0 <= i < k && rows[i].state == v|) % U64
    {
      CountIsNumber(rows, k, v);
      assert store[..][v] == store[v] && old(store[..])[v] == old(store[v]);
    }
  }

  lemma NothingCounted(now: seq<u64>)
    ensures Counted(now, now, [])
  {
  }

  lemma PairIs(pair: seq<byte>)
    requires |pair| == 2 && AllHex(pair[..2])
    ensures IsHex(pair[0]) && IsHex(pair[1]) && Extend(0, pair[..2]) % U64 == PairValue(pair)
  {
    assert pair[..2] == pair && pair[..2][..1] == [pair[0]] && [pair[0]][..0] == [];
    assert IsHex(pair[..2][0]) && IsHex(pair[..2][1]);
    assert Extend(0, [pair[0]]) == HexDigit(pair[0]);
  }
}
