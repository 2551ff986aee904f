/** /proc/self/mountinfo as text: lines, single-separator fields, mount points (section 3.5 of
    Documentation/filesystems/proc.txt of the Linux kernel). */
module MountSpec {
  import opened Bytes

  predicate IsSeparator(b: byte) {
    b == SPACE || b == TAB
  }

  /** `s` divided at every byte `cut` accepts; the parts may be empty. */
  function Split(s: seq<byte>, cut: byte -> bool): (parts: seq<seq<byte>>)
    ensures parts != []
  {
    if s == [] then [[]]
    else
      var rest := Split(s[1..], cut);
      if cut(s[0]) then [[]] + rest else [[s[0]] + rest[0]] + rest[1..]
  }

  function Lines(s: seq<byte>): (lines: seq<seq<byte>>)
    ensures lines != []
  {
    Split(s, (b: byte) => b == NEWLINE)
  }

  function Fields(line: seq<byte>): (fields: seq<seq<byte>>)
    ensures fields != []
  {
    Split(line, (b: byte) => IsSeparator(b))
  }

  /** The mount point of a line: its fifth field, if at least five separators make it complete. */
  function PointOf(line: seq<byte>): seq<seq<byte>> {
    var fields := Fields(line);
    if |fields| > 5 then [fields[4]] else []
  }

  function PointsOf(lines: seq<seq<byte>>): seq<seq<byte>> {
    if lines == [] then [] else PointOf(lines[0]) + PointsOf(lines[1..])
  }

  /** All mount points of a file, in order. */
  function MountPoints(s: seq<byte>): seq<seq<byte>> {
    PointsOf(Lines(s))
  }

  /** What `Split` means: joining the parts gives the text back, and no part contains a cut. */
  function Join(parts: seq<seq<byte>>, cuts: seq<byte>): seq<byte>
    requires |parts| == |cuts| + 1
  {
    if cuts == [] then parts[0] else parts[0] + [cuts[0]] + Join(parts[1..], cuts[1..])
  }

  function CutsOf(s: seq<byte>, cut: byte -> bool): seq<byte> {
    if s == [] then [] else (if cut(s[0]) then [s[0]] else []) + CutsOf(s[1..], cut)
  }

  lemma {:induction false} SplitJoins(s: seq<byte>, cut: byte -> bool)
    ensures |Split(s, cut)| == |CutsOf(s, cut)| + 1
    ensures Join(Split(s, cut), CutsOf(s, cut)) == s
    ensures forall i, j :: 0 <= i < |Split(s, cut)| && 0 <= j < |Split(s, cut)[i]| ==> !cut(Split(s, cut)[i][j])
  {
    if s != [] {
      SplitJoins(s[1..], cut);
      var rest, cuts := Split(s[1..], cut), CutsOf(s[1..], cut);
      assert s == [s[0]] + s[1..];
      if cut(s[0]) {
        assert Split(s, cut)[1..] == rest && CutsOf(s, cut)[1..] == cuts;
        assert [] + [s[0]] == [s[0]];
      } else {
        assert Split(s, cut)[1..] == rest[1..] && CutsOf(s, cut) == cuts;
        JoinCons(s[0], rest, cuts);
      }
    }
  }

  lemma JoinCons(x: byte, parts: seq<seq<byte>>, cuts: seq<byte>)
    requires |parts| == |cuts| + 1
    ensures Join([[x] + parts[0]] + parts[1..], cuts) == [x] + Join(parts, cuts)
  {
    var longer := [[x] + parts[0]] + parts[1..];
    assert longer[1..] == parts[1..];
    if cuts != [] {
      assert [x] + parts[0] + [cuts[0]] + Join(parts[1..], cuts[1..])
          == [x] + (parts[0] + [cuts[0]] + Join(parts[1..], cuts[1..]));
    }
  }

  /** A part up to its cut is split off. */
  lemma {:induction false} SplitFirst(part: seq<byte>, c: byte, rest: seq<byte>, cut: byte -> bool)
    requires cut(c) && forall i :: 0 <= i < |part| ==> !cut(part[i])
    ensures Split(part + [c] + rest, cut) == [part] + Split(rest, cut)
  {
    var s := part + [c] + rest;
    if part == [] {
      assert s[1..] == rest;
    } else {
      assert s[1..] == part[1..] + [c] + rest && s[0] == part[0];
      SplitFirst(part[1..], c, rest, cut);
      assert [part[0]] + part[1..] == part;
      assert ([part[1..]] + Split(rest, cut))[1..] == Split(rest, cut);
    }
  }

  lemma {:induction false} SplitNone(part: seq<byte>, cut: byte -> bool)
    requires forall i :: 0 <= i < |part| ==> !cut(part[i])
    ensures Split(part, cut) == [part]
  {
    if part != [] {
      SplitNone(part[1..], cut);
      assert [part[0]] + part[1..] == part;
    }
  }

  /** Splitting undoes joining, when the cuts are cuts and the parts contain none. */
  lemma {:induction false} SplitUndoesJoin(parts: seq<seq<byte>>, cuts: seq<byte>, cut: byte -> bool)
    requires |parts| == |cuts| + 1 && forall i :: 0 <= i < |cuts| ==> cut(cuts[i])
    requires forall i, j :: 0 <= i < |parts| && 0 <= j < |parts[i]| ==> !cut(parts[i][j])
    ensures Split(Join(parts, cuts), cut) == parts
  {
    if cuts == [] {
      SplitNone(parts[0], cut);
      assert parts == [parts[0]];
    } else {
      SplitUndoesJoin(parts[1..], cuts[1..], cut);
      SplitFirst(parts[0], cuts[0], Join(parts[1..], cuts[1..]), cut);
    }
  }

  /** A line of mountinfo: its fields, and the space or tab behind each but the last. */
  datatype MountLine = MountLine(fields: seq<seq<byte>>, gaps: seq<byte>)

  predicate ValidLine(line: MountLine) {
    && |line.fields| == |line.gaps| + 1
    && (forall i :: 0 <= i < |line.gaps| ==> line.gaps[i] in Text(" \t"))
    && (forall i, j :: 0 <= i < |line.fields| && 0 <= j < |line.fields[i]| ==> line.fields[i][j] !in Text(" \t\n"))
  }

  function LineText(line: MountLine): seq<byte>
    requires ValidLine(line)
  {
    Join(line.fields, line.gaps)
  }

  /** The text of a file of such lines. */
  function FileText(lines: seq<MountLine>): seq<byte>
    requires forall i :: 0 <= i < |lines| ==> ValidLine(lines[i])
  {
    if lines == [] then [] else LineText(lines[0]) + Text("\n") + FileText(lines[1..])
  }

  lemma LiteralCuts()
    ensures forall b: byte :: b in Text(" \t") <==> IsSeparator(b)
    ensures forall b: byte :: b in Text(" \t\n") <==> IsSeparator(b) || b == NEWLINE
    ensures Text("\n") == [NEWLINE]
  {
    assert Text(" \t") == [32, 9] && Text(" \t\n") == [32, 9, 10];
  }

  /** No newline in what is joined, none in the text. */
  lemma {:induction false} JoinWithout(parts: seq<seq<byte>>, cuts: seq<byte>, c: byte)
    requires |parts| == |cuts| + 1 && c !in cuts
    requires forall i, j :: 0 <= i < |parts| && 0 <= j < |parts[i]| ==> parts[i][j] != c
    ensures c !in Join(parts, cuts)
  {
    if cuts != [] { JoinWithout(parts[1..], cuts[1..], c); }
  }

  lemma LineReads(line: MountLine)
    requires ValidLine(line)
    ensures Fields(LineText(line)) == line.fields && NEWLINE !in LineText(line)
  {
    LiteralCuts();
    SplitUndoesJoin(line.fields, line.gaps, (b: byte) => IsSeparator(b));
    JoinWithout(line.fields, line.gaps, NEWLINE);
  }

  /** Of a printed file, the mount points are the fifth fields of the lines that have more than five. */
  lemma {:induction false} PrintedPoints(lines: seq<MountLine>)
    requires forall i :: 0 <= i < |lines| ==> ValidLine(lines[i])
    ensures MountPoints(FileText(lines)) == FifthFields(lines)
  {
    if lines == [] {
      assert Fields([]) == [[]];
      assert Lines([]) == [[]];
      assert PointsOf([[]]) == PointOf([]) + PointsOf([]);
    } else {
      PrintedPoints(lines[1..]);
      var text, rest := LineText(lines[0]), FileText(lines[1..]);
      LineReads(lines[0]);
      LiteralCuts();
      SplitFirst(text, NEWLINE, rest, (b: byte) => b == NEWLINE);
      assert Lines(FileText(lines)) == [text] + Lines(rest);
      assert PointsOf([text] + Lines(rest)) == PointOf(text) + PointsOf(Lines(rest)) by {
        assert ([text] + Lines(rest))[1..] == Lines(rest);
      }
    }
  }

  function FifthFields(lines: seq<MountLine>): seq<seq<byte>> {
    if lines == [] then []
    else (if |lines[0].fields| > 5 then [lines[0].fields[4]] else []) + FifthFields(lines[1..])
  }

  // ---------- the same, byte by byte ----------

  /** The mount points still to come, at field number `field` with the bytes `part` of the
      fifth field already seen. */
  function Upcoming(field: nat, part: seq<byte>, s: seq<byte>): seq<seq<byte>>
    decreases |s|
  {
    if s == [] then []
    else if s[0] == NEWLINE then Upcoming(0, [], s[1..])
    else if IsSeparator(s[0]) then (if field == 4 then [part] else []) + Upcoming(field + 1, [], s[1..])
    else Upcoming(field, if field == 4 then part + [s[0]] else [], s[1..])
  }

  /** What the rest of the current line contributes. */
  function FromLine(field: nat, part: seq<byte>, line: seq<byte>): seq<seq<byte>> {
    var fields := Fields(line);
    if field > 4 || |fields| <= 5 - field then []
    else [(if field == 4 then part else []) + fields[4 - field]]
  }

  /** Byte by byte is line by line. */
  lemma {:induction false} UpcomingIs(field: nat, part: seq<byte>, s: seq<byte>)
    ensures Upcoming(field, part, s) == FromLine(field, part, Lines(s)[0]) + PointsOf(Lines(s)[1..])
    decreases |s|
  {
    var lines := Lines(s);
    if s == [] {
      assert Fields([]) == [[]];
      assert lines[1..] == [];
    } else {
      var rest := Lines(s[1..]);
      if s[0] == NEWLINE {
        UpcomingIs(0, [], s[1..]);
        WholeLine(rest);
        assert lines[0] == [] && Fields([]) == [[]] && lines[1..] == rest;
      } else {
        var line := [s[0]] + rest[0];
        assert lines[0] == line && lines[1..] == rest[1..] && line[1..] == rest[0];
        var fields := Fields(rest[0]);
        if IsSeparator(s[0]) {
          UpcomingIs(field + 1, [], s[1..]);
          assert Fields(line) == [[]] + fields;
          LineSeparator(field, part, s[0], rest[0]);
          assert (if field == 4 then [part] else []) + (FromLine(field + 1, [], rest[0]) + PointsOf(rest[1..]))
              == (if field == 4 then [part] else []) + FromLine(field + 1, [], rest[0]) + PointsOf(rest[1..]);
        } else {
          UpcomingIs(field, if field == 4 then part + [s[0]] else [], s[1..]);
          LineByte(field, part, s[0], rest[0]);
        }
      }
    }
  }

  lemma WholeLine(lines: seq<seq<byte>>)
    requires lines != []
    ensures FromLine(0, [], lines[0]) + PointsOf(lines[1..]) == PointsOf(lines)
  {
    var fields := Fields(lines[0]);
    if |fields| > 5 { assert [] + fields[4] == fields[4]; }
  }

  lemma LineSeparator(field: nat, part: seq<byte>, b: byte, line: seq<byte>)
    requires IsSeparator(b)
    ensures FromLine(field, part, [b] + line) == (if field == 4 then [part] else []) + FromLine(field + 1, [], line)
  {
    assert ([b] + line)[1..] == line;
    assert Fields([b] + line) == [[]] + Fields(line);
    assert part + [] == part;
  }

  lemma LineByte(field: nat, part: seq<byte>, b: byte, line: seq<byte>)
    requires !IsSeparator(b)
    ensures FromLine(field, part, [b] + line)
         == FromLine(field, if field == 4 then part + [b] else [], line)
  {
    assert ([b] + line)[1..] == line;
    var fields := Fields(line);
    assert Fields([b] + line) == [[b] + fields[0]] + fields[1..];
    assert field == 4 ==> part + ([b] + fields[0]) == part + [b] + fields[0];
  }

  lemma UpcomingFromStart(s: seq<byte>)
    ensures Upcoming(0, [], s) == MountPoints(s)
  {
    UpcomingIs(0, [], s);
    WholeLine(Lines(s));
  }

  /** A field of one byte before the fifth. */
  lemma ShortField(field: nat, s: seq<byte>, at: nat)
    requires field < 4 && at + 2 <= |s| && !IsSeparator(s[at]) && s[at] != NEWLINE && s[at + 1] == SPACE
    ensures Upcoming(field, [], s[at..]) == Upcoming(field + 1, [], s[at + 2..])
  {
    assert s[at..][1..] == s[at + 1..] && s[at + 1..][1..] == s[at + 2..];
    assert Upcoming(field, [], s[at..]) == Upcoming(field, [], s[at + 1..]);
  }

  /** A line with two spaces in front of its last field: the fifth field is empty. */
  lemma EmptyPointExample()
    ensures MountPoints(Text("a b c d  f")) == [[]]
  {
    var s := Text("a b c d  f");
    UpcomingFromStart(s);
    hide Upcoming, MountPoints, Text;
    assert s[0..] == s;
    ShortField(0, s, 0);
    ShortField(1, s, 2);
    ShortField(2, s, 4);
    ShortField(3, s, 6);
    EmptyField();
    assert s[8..] == [SPACE, 102];
  }

  lemma EmptyField()
    ensures Upcoming(4, [], [SPACE, 102]) == [[]]
  {
    assert Upcoming(5, [], [102]) == [];
  }
}
