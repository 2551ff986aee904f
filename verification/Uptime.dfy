/** `uptime_print_human`: seconds as days, hours, minutes and seconds, and how to read them back. */
module Uptime {
  import opened Bytes
  import opened Decimal
  import opened Streams
  import opened Human

  type i64 = n: int | -0x8000_0000_0000_0000 <= n < 0x8000_0000_0000_0000

  const DAY: byte := 100
  const HOUR: byte := 104
  const MINUTE: byte := 109
  const SECOND: byte := 115

  /** A printed component: a number and the letter of its unit. */
  datatype Part = Part(n: nat, unit: byte)

  /** The seconds a unit letter stands for. */
  function UnitSeconds(unit: byte): nat {
    if unit == 'd' as int then 86400
    else if unit == 'h' as int then 3600
    else if unit == 'm' as int then 60
    else if unit == 's' as int then 1
    else 0
  }

  function Render(parts: seq<Part>): seq<byte> {
    if parts == [] then [] else Digits(parts[0].n) + [parts[0].unit] + Render(parts[1..])
  }

  /** The time the components add up to. */
  function Seconds(parts: seq<Part>): nat {
    if parts == [] then 0 else parts[0].n * UnitSeconds(parts[0].unit) + Seconds(parts[1..])
  }

  /** Reads number-unit pairs back from the left; text that is no number without superfluous zeros and a
      unit becomes a component of no unit. */
  function Decode(text: seq<byte>): seq<Part>
    decreases |text|
  {
    if text == [] then []
    else
      var k := DigitRun(text);
      if k == |text| || !Canonical(text[..k]) then [Part(0, 0)]
      else [Part(Value(text[..k]), text[k])] + Decode(text[k + 1..])
  }

  /** The `uint64_t` an `int64_t` argument becomes. */
  function ToWord(n: i64): (w: u64)
    ensures n >= 0 ==> w == n
  {
    n % U64
  }

  /** The components so far, and the seconds they leave. */
  datatype Rest = Rest(parts: seq<Part>, ut: i64)

  /** One unit: printed only when it is reached. */
  function Stage(r: Rest, size: i64, unit: byte): Rest
    requires size > 0
  {
    if r.ut >= size then Rest(r.parts + [Part(r.ut / size, unit)], r.ut % size) else r
  }

  function Stages(ut: i64): Rest {
    Stage(Stage(Stage(Rest([], ut), 86400, DAY), 3600, HOUR), 60, MINUTE)
  }

  /** The components printed: a larger unit only when it is reached, seconds always. */
  function Parts(ut: i64): seq<Part> {
    Stages(ut).parts + [Part(ToWord(Stages(ut).ut), SECOND)]
  }

  /** A component, written behind those already there. */
  method WritePart(fd: Output, n: i64, unit: byte, ghost base: seq<byte>, ghost done: seq<Part>)
    returns (ghost done': seq<Part>)
    requires fd.text == base + Render(done)
    modifies fd
    ensures done' == done + [Part(ToWord(n), unit)] && fd.text == base + Render(done')
  {
    WriteUint64(fd, ToWord(n));
    fd.Write([unit]);
    done' := done + [Part(ToWord(n), unit)];
    RenderLast(done, Part(ToWord(n), unit));
  }

  /** What is appended reads back as the uptime: `d`, `h`, `m` and `s` stand for 86400, 3600, 60 and 1 seconds. */
  method UptimePrintHuman(fd: Output, uptime: i64)
    modifies fd
    ensures old(fd.text) <= fd.text
    ensures var parts := Decode(fd.text[|old(fd.text)|..]);
      Seconds(parts) == ToWord(uptime) && (uptime >= 0 ==> Normal(parts))
    ensures uptime < 0 ==> fd.text == old(fd.text) + Digits(uptime + 0x1_0000_0000_0000_0000) + Text("s")
    ensures fd.text == old(fd.text) + Render(Parts(uptime))
  {
    UptimeDecodes(uptime);
    if uptime >= 0 { PartsNormal(uptime); } else { NegativeUptime(uptime); }
    hide Decode, Seconds, Normal;
    ghost var base, r := fd.text, Rest([], uptime);
    assert fd.text == base + Render(r.parts);
    hide Render;
    var ut := uptime;
    if ut >= 86400 {
      ghost var done := WritePart(fd, ut / 86400, DAY, base, r.parts);
      ut := ut % 86400;
    }
    r := Stage(r, 86400, DAY);
    assert r.ut == ut && fd.text == base + Render(r.parts);
    if ut >= 3600 {
      ghost var done := WritePart(fd, ut / 3600, HOUR, base, r.parts);
      ut := ut % 3600;
    }
    r := Stage(r, 3600, HOUR);
    assert r.ut == ut && fd.text == base + Render(r.parts);
    if ut >= 60 {
      ghost var done := WritePart(fd, ut / 60, MINUTE, base, r.parts);
      ut := ut % 60;
    }
    r := Stage(r, 60, MINUTE);
    assert r == Stages(uptime);
    ghost var done := WritePart(fd, ut, SECOND, base, r.parts);
  }

  lemma Regroup(a: seq<byte>, b: seq<byte>, c: seq<byte>, d: seq<byte>)
    ensures a + (b + c + d) == a + b + c + d
  {
  }

  lemma NegativeUptime(ut: i64)
    requires ut < 0
    ensures Render(Parts(ut)) == Digits(ut + 0x1_0000_0000_0000_0000) + Text("s")
  {
    hide Digits;
    assert Stages(ut) == Rest([], ut);
    assert Parts(ut) == [Part(ToWord(ut), SECOND)] && Parts(ut)[1..] == [];
    assert Text("s") == [SECOND];
  }

  lemma {:induction false} RenderLast(parts: seq<Part>, last: Part)
    ensures Render(parts + [last]) == Render(parts) + Digits(last.n) + [last.unit]
  {
    hide Digits;
    if parts == [] {
      assert Render([last][1..]) == [];
      assert parts + [last] == [last];
    } else {
      RenderLast(parts[1..], last);
      assert (parts + [last])[1..] == parts[1..] + [last];
      Regroup(Digits(parts[0].n) + [parts[0].unit], Render(parts[1..]), Digits(last.n), [last.unit]);
    }
  }

  /** Units from the largest down, each component below the next larger unit, no zero component
      except the seconds. */
  predicate Normal(parts: seq<Part>) {
    && parts != [] && parts[|parts| - 1].unit == 's' as int
    && (forall i :: 0 <= i < |parts| - 1 ==> parts[i].n > 0)
    && (forall i, j :: 0 <= i < j < |parts| ==> UnitSeconds(parts[i].unit) > UnitSeconds(parts[j].unit))
    && (forall i :: 0 <= i < |parts| ==> Bounded(parts[i]))
  }

  /** A component below the next larger unit. */
  predicate Bounded(p: Part) {
    match UnitSeconds(p.unit)
    case 3600 => p.n < 24
    case 60 => p.n < 60
    case 1 => p.n < 60
    case _ => true
  }

  /** No stage loses time. */
  lemma StageKeeps(r: Rest, size: i64, unit: byte)
    requires size > 0 && UnitSeconds(unit) == size
    ensures Seconds(Stage(r, size, unit).parts) + Stage(r, size, unit).ut == Seconds(r.parts) + r.ut
    ensures r.ut < 0 ==> Stage(r, size, unit) == r
    ensures r.ut >= 0 ==> 0 <= Stage(r, size, unit).ut < size
  {
    if r.ut >= size {
      SecondsLast(r.parts, Part(r.ut / size, unit));
    }
  }

  lemma {:induction false} SecondsLast(parts: seq<Part>, last: Part)
    ensures Seconds(parts + [last]) == Seconds(parts) + last.n * UnitSeconds(last.unit)
  {
    if parts == [] {
      assert Seconds([last][1..]) == 0;
    } else {
      SecondsLast(parts[1..], last);
      assert (parts + [last])[1..] == parts[1..] + [last];
    }
  }

  /** The printed components add up to the uptime; a negative uptime appears as its 64-bit word, in seconds. */
  lemma PartsAddUp(ut: i64)
    ensures Seconds(Parts(ut)) == ToWord(ut)
  {
    var r0 := Rest([], ut);
    var r1 := Stage(r0, 86400, DAY);
    var r2 := Stage(r1, 3600, HOUR);
    var r3 := Stage(r2, 60, MINUTE);
    StageKeeps(r0, 86400, DAY);
    StageKeeps(r1, 3600, HOUR);
    StageKeeps(r2, 60, MINUTE);
    hide Stage, Seconds, UnitSeconds;
    OneSecond();
    SecondsLast(r3.parts, Part(ToWord(r3.ut), SECOND));
  }

  lemma OneSecond()
    ensures Seconds([]) == 0 && forall n: nat :: Part(n, SECOND).n * UnitSeconds(Part(n, SECOND).unit) == n
  {
  }

  /** Normal so far: all units at least `size`, and less than `size` left. */
  predicate NormalTo(r: Rest, size: i64) {
    && 0 <= r.ut < size
    && (forall i :: 0 <= i < |r.parts| ==> r.parts[i].n > 0 && UnitSeconds(r.parts[i].unit) >= size)
    && (forall i, j :: 0 <= i < j < |r.parts| ==> UnitSeconds(r.parts[i].unit) > UnitSeconds(r.parts[j].unit))
    && (forall i :: 0 <= i < |r.parts| ==> Bounded(r.parts[i]))
  }

  lemma StageNormal(r: Rest, bigger: i64, size: i64, unit: byte)
    requires NormalTo(r, bigger) && 0 < size < bigger && UnitSeconds(unit) == size
    requires r.ut >= size ==> r.ut / size > 0 && Bounded(Part(r.ut / size, unit))
    ensures NormalTo(Stage(r, size, unit), size)
  {
    hide UnitSeconds, Bounded;
  }

  /** The printed components are in normal form. */
  lemma PartsNormal(ut: i64)
    requires ut >= 0
    ensures Normal(Parts(ut))
  {
    hide Normal, NormalTo;
    var r1 := Stage(Rest([], ut), 86400, DAY);
    var r2 := Stage(r1, 3600, HOUR);
    var r3 := Stage(r2, 60, MINUTE);
    NormalStart(ut);
    StageNormal(r1, 86400, 3600, HOUR);
    StageNormal(r2, 3600, 60, MINUTE);
    NormalEnd(r3);
    assert Parts(ut) == r3.parts + [Part(r3.ut, SECOND)];
  }

  lemma NormalStart(ut: i64)
    requires ut >= 0
    ensures NormalTo(Stage(Rest([], ut), 86400, DAY), 86400)
  {
  }

  lemma NormalEnd(r: Rest)
    requires NormalTo(r, 60)
    ensures Normal(r.parts + [Part(r.ut, SECOND)])
  {
  }

  /** Reading back undoes rendering, for any components whose units are not digits. */
  lemma {:induction false} DecodeRender(parts: seq<Part>)
    requires forall i :: 0 <= i < |parts| ==> !IsDigit(parts[i].unit)
    ensures Decode(Render(parts)) == parts
  {
    if parts != [] {
      var ds, rest := Digits(parts[0].n), Render(parts[1..]);
      var text := ds + [parts[0].unit] + rest;
      assert text[..|ds|] == ds && text[|ds|] == parts[0].unit && text[|ds| + 1..] == rest;
      DigitRunIs(text, |ds|);
      DigitsDenote(parts[0].n);
      DecodeRender(parts[1..]);
    }
  }

  /** The printed text determines the uptime: decoding gives it back, so no two uptimes look alike. */
  lemma UptimeDecodes(ut: i64)
    ensures Decode(Render(Parts(ut))) == Parts(ut)
    ensures Seconds(Decode(Render(Parts(ut)))) == ToWord(ut)
  {
    DecodeRender(Parts(ut));
    PartsAddUp(ut);
  }

  lemma UptimesDistinct(a: i64, b: i64)
    requires Render(Parts(a)) == Render(Parts(b))
    ensures a == b
  {
    hide Render, Parts, Decode, Seconds;
    UptimeDecodes(a);
    UptimeDecodes(b);
  }
}
