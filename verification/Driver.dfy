/** `main`: resolve and initialise every argument's module, then print them all. */
module Driver {
  import opened Bytes
  import opened Djb
  import opened Dispatch

  /** What a run does, in order. A probe is a look at the system; the modules of one kind share it. */
  datatype Event =
    | Probed(what: Init)
    | Initialized(m: nat)
    | Failed(m: nat)
    | Printed(arg: nat, m: nat)

  datatype Outcome = Usage | Exit(code: nat)

  /** How often the probe of one kind has been made. */
  function Probes(trace: seq<Event>, what: Init): nat {
    if trace == [] then 0
    else Probes(trace[..|trace| - 1], what) + if trace[|trace| - 1] == Probed(what) then 1 else 0
  }

  lemma ProbeEvent(trace: seq<Event>, kind: Init)
    ensures forall what :: Probes(trace + [Probed(kind)], what) == Probes(trace, what) + if what == kind then 1 else 0
  {
    assert (trace + [Probed(kind)])[..|trace|] == trace;
  }

  lemma OtherEvent(trace: seq<Event>, e: Event)
    requires !e.Probed?
    ensures forall what :: Probes(trace + [e], what) == Probes(trace, what)
  {
    assert (trace + [e])[..|trace|] == trace;
  }

  /** The probes that a static keeps from being repeated. */
  predicate Once(what: Init) {
    what == Tcp || what == Filesystems || what == Users
  }

  ghost predicate ProbedAtMostOnce(trace: seq<Event>) {
    forall what :: Once(what) ==> Probes(trace, what) <= 1
  }

  /** Every memory probe but the last found nothing. */
  ghost predicate MemoryUntilFound(trace: seq<Event>, memWorks: nat -> bool) {
    forall k: nat :: k + 1 < Probes(trace, Memory) ==> !memWorks(k)
  }

  /** What every initialised module reports has been read from the system. */
  predicate Backed(table: seq<Module>, trace: seq<Event>) {
    forall j: nat :: j < |table| && Initialized(j) in trace && table[j].init != None ==> Probed(table[j].init) in trace
  }

  predicate NothingPrinted(trace: seq<Event>) {
    forall i :: 0 <= i < |trace| ==> !trace[i].Printed?
  }

  /** `now` has looks at what `before` has, and at `what`. */
  ghost predicate AlsoRead(now: seq<Event>, before: seq<Event>, what: Init) {
    forall w :: w != None ==> (Probed(w) in now <==> Probed(w) in before || w == what)
  }

  lemma NothingRead(trace: seq<Event>)
    ensures AlsoRead(trace, trace, None)
  {
  }

  /** The ways in which a successful init leaves the trace. */
  lemma ReadBefore(trace: seq<Event>, what: Init, j: nat)
    ensures what == None || Probed(what) in trace ==> AlsoRead(trace + [] + [Initialized(j)], trace, what)
    ensures AlsoRead(trace + [Probed(what)] + [Initialized(j)], trace, what)
  {
  }

  lemma NotPrinted(trace: seq<Event>, e: Event)
    requires NothingPrinted(trace) && !e.Printed?
    ensures NothingPrinted(trace + [e])
  {
  }

  lemma FailedEvent(trace: seq<Event>, j: nat, memWorks: nat -> bool)
    requires NothingPrinted(trace) && ProbedAtMostOnce(trace) && MemoryUntilFound(trace, memWorks)
    ensures var after := trace + [Failed(j)];
      NothingPrinted(after) && ProbedAtMostOnce(after) && MemoryUntilFound(after, memWorks)
  {
    OtherEvent(trace, Failed(j));
  }

  /** The print events of a surviving run, one per argument, in order. */
  ghost predicate PrintsAll(prints: seq<Event>, table: seq<Module>, args: seq<seq<byte>>) {
    && |prints| == |args|
    && forall i :: 0 <= i < |prints| ==> prints[i].Printed? && prints[i].arg == i && Picks(table, args[i], prints[i].m)
  }

  /** Whether some argument needs a module of this kind. */
  ghost predicate Needs(table: seq<Module>, args: seq<seq<byte>>, what: Init) {
    exists i, j: nat :: 0 <= i < |args| && Picks(table, args[i], j) && j < |table| && table[j].init == what
  }

  lemma BackedByProbe(table: seq<Module>, trace: seq<Event>, j: nat)
    requires j < |table| && Backed(table, trace)
    requires table[j].init == None || Probed(table[j].init) in trace
    ensures Backed(table, trace + [Initialized(j)])
  {
  }

  predicate ValidArgs(args: seq<seq<byte>>) {
    forall i :: 0 <= i < |args| ==> NUL !in args[i]
  }

  class Ustat {
    const table: seq<Module>
    var ready: seq<bool>       // the `ready` field of each module
    var tcpInited: bool        // the static of `tcp_init`
    var fsLoaded: bool         // whether `_fs` is set
    var memKnown: bool         // whether both memory totals are positive
    var usersCounted: bool     // whether `nusers` is not -1
    var trace: seq<Event>

    // what the system answers when it is probed
    const tcpWorks: bool
    const fsWorks: bool
    const memWorks: nat -> bool    // for each of the memory probes, whether it finds both totals

    constructor (table: seq<Module>, tcpWorks: bool, fsWorks: bool, memWorks: nat -> bool)
      requires ValidTable(table)
      ensures Valid() && Fresh() && this.table == table
      ensures this.tcpWorks == tcpWorks && this.fsWorks == fsWorks && this.memWorks == memWorks
    {
      this.table, this.tcpWorks, this.fsWorks, this.memWorks := table, tcpWorks, fsWorks, memWorks;
      ready := seq(|table|, _ => false);
      tcpInited, fsLoaded, memKnown, usersCounted, trace := false, false, false, false, [];
    }

    /** The state of a process before `main`. */
    ghost predicate Fresh()
      reads this
    {
      && !tcpInited && !fsLoaded && !memKnown && !usersCounted && trace == []
      && forall j :: 0 <= j < |ready| ==> !ready[j]
    }

    /** Whether the static that makes a probe unrepeatable is set. */
    ghost predicate Settled(what: Init)
      reads this
    {
      (what == Tcp && tcpInited) || (what == Filesystems && fsLoaded) || (what == Users && usersCounted)
    }

    /** Whether an init function of this kind finds its data already there. */
    ghost predicate Known(what: Init)
      reads this
    {
      Settled(what) || (what == Memory && memKnown)
    }

    /** Kept by every step of the first phase. */
    ghost predicate Valid()
      reads this
    {
      && ValidTable(table) && |ready| == |table|
      && NothingPrinted(trace) && Backed(table, trace)
      && (forall j: nat :: j < |ready| && ready[j] ==> Initialized(j) in trace)
      && (forall j: nat :: j < |ready| && ready[j] && Once(table[j].init) ==> Settled(table[j].init))
      && (forall what :: Once(what) ==> Probes(trace, what) == if Settled(what) then 1 else 0)
      && (forall what :: Settled(what) ==> Probed(what) in trace)
      && (memKnown ==> Probed(Memory) in trace)
      && (forall k: nat :: k + (if memKnown then 1 else 0) < Probes(trace, Memory) ==> !memWorks(k))
      && (tcpInited ==> tcpWorks) && (fsLoaded ==> fsWorks)
    }

    /** A successful return of module `j`'s init function, with or without `m->ready = 1`. */
    method Succeed(j: nat, mark: bool)
      requires Valid() && j < |table|
      requires table[j].init == None || Probed(table[j].init) in trace
      requires Once(table[j].init) ==> Settled(table[j].init)
      modifies this`ready, this`trace
      ensures Valid() && trace == old(trace) + [Initialized(j)]
      ensures ready == if mark then old(ready)[j := true] else old(ready)
    {
      hide Probes, Backed, NothingPrinted;
      OtherEvent(trace, Initialized(j));
      NotPrinted(trace, Initialized(j));
      BackedByProbe(table, trace, j);
      trace := trace + [Initialized(j)];
      if mark {
        ready := ready[j := true];
      }
    }

    /** A look at the memory totals, which a later module repeats unless both were found. */
    method MemoryProbe(works: bool)
      requires Valid() && !memKnown && works == memWorks(Probes(trace, Memory))
      modifies this`trace, this`memKnown
      ensures Valid() && trace == old(trace) + [Probed(Memory)] && memKnown == works
    {
      hide Probes;
      ProbeEvent(trace, Memory);
      trace := trace + [Probed(Memory)];
      memKnown := works;
    }

    /** A look at the system that may be repeated. */
    method Probe(what: Init)
      requires Valid() && !Once(what) && what != Memory
      modifies this`trace
      ensures Valid() && trace == old(trace) + [Probed(what)]
    {
      hide Probes;
      ProbeEvent(trace, what);
      trace := trace + [Probed(what)];
    }

    /** A look at the system, and the static that remembers its success. */
    method SharedProbe(what: Init) returns (ok: bool)
      requires Valid() && Once(what) && !Settled(what)
      modifies this`tcpInited, this`fsLoaded, this`usersCounted, this`trace
      ensures trace == old(trace) + [Probed(what)] && NothingPrinted(trace) && ProbedAtMostOnce(trace)
      ensures MemoryUntilFound(trace, memWorks)
      ensures ok == ((what == Tcp ==> tcpWorks) && (what == Filesystems ==> fsWorks))
      ensures ok ==> Valid() && tcpInited == (old(tcpInited) || what == Tcp)
                     && fsLoaded == (old(fsLoaded) || what == Filesystems)
                     && usersCounted == (old(usersCounted) || what == Users)
      ensures !ok ==> tcpInited == old(tcpInited) && fsLoaded == old(fsLoaded) && usersCounted == old(usersCounted)
    {
      hide Probes;
      ProbeEvent(trace, what);
      trace := trace + [Probed(what)];
      if what == Tcp {
        ok := tcpWorks;
        tcpInited := ok;
      } else if what == Filesystems {
        ok := fsWorks;
        fsLoaded := ok;
      } else {
        ok := true;
        usersCounted := true;
      }
    }

    /** `modules[j].init(...)` of a module that is not ready. */
    method InitModule(j: nat) returns (rc: int)
      requires Valid() && j < |table| && !ready[j]
      modifies this`ready, this`tcpInited, this`fsLoaded, this`memKnown, this`usersCounted, this`trace
      ensures rc == 0 <==> (table[j].init == Tcp && !tcpWorks) || (table[j].init == Filesystems && !fsWorks)
      ensures rc == 0 ==> trace == old(trace) + [Probed(table[j].init)] && ready == old(ready)
      ensures rc == 0 ==> NothingPrinted(trace) && ProbedAtMostOnce(trace) && MemoryUntilFound(trace, memWorks)
      ensures rc != 0 ==> Valid()
      ensures rc != 0 ==>
                trace == old(trace)
                         + (if table[j].init == None || old(Known(table[j].init)) then [] else [Probed(table[j].init)])
                         + [Initialized(j)]
      ensures rc != 0 ==> AlsoRead(trace, old(trace), table[j].init)
      ensures rc != 0 ==>
                ready == if old(Known(table[j].init)) && (table[j].init == Memory || table[j].init == Filesystems)
                         then old(ready) else old(ready)[j := true]
      ensures tcpInited == (old(tcpInited) || (table[j].init == Tcp && tcpWorks))
      ensures fsLoaded == (old(fsLoaded) || (table[j].init == Filesystems && fsWorks))
      ensures usersCounted == (old(usersCounted) || table[j].init == Users)
      ensures memKnown == (old(memKnown) || (table[j].init == Memory && memWorks(old(Probes(trace, Memory)))))
    {
      hide Probes, NothingPrinted, Backed, AlsoRead;
      ReadBefore(trace, table[j].init, j);
      var mark := true;
      match table[j].init {
        case None =>
        case Load | Uptime | Battery =>
          Probe(table[j].init);
        case Users =>
          if !usersCounted { var _ := SharedProbe(Users); }
        case Memory =>
          // known totals: success without marking the module ready
          if memKnown {
            mark := false;
          } else {
            var works := memWorks(Probes(trace, Memory));
            MemoryProbe(works);
          }
        case Filesystems =>
          // a filled table: success without marking the module ready
          if fsLoaded {
            mark := false;
          } else {
            var ok := SharedProbe(Filesystems);
            if !ok { return 0; }
          }
        case Tcp =>
          if !tcpInited {
            var ok := SharedProbe(Tcp);
            if !ok { return 0; }
          }
      }
      Succeed(j, mark);
      return 1;
    }

    lemma ReadyIsBacked(j: nat)
      requires Valid() && j < |ready| && ready[j]
      ensures AlsoRead(trace, trace, table[j].init)
    {
    }

    /** The first loop of `main` for one argument: find its module, and initialise it if it is not ready. */
    method Prepare(arg: seq<byte>) returns (j: nat, ok: bool)
      requires Valid() && NUL !in arg
      modifies this`ready, this`tcpInited, this`fsLoaded, this`memKnown, this`usersCounted, this`trace
      ensures old(trace) <= trace && j < |table| && Picks(table, arg, j)
      ensures ok ==> Valid() && (j == 0 || Initialized(j) in trace)
      ensures ok ==> tcpInited == (old(tcpInited) || table[j].init == Tcp)
      ensures ok ==> fsLoaded == (old(fsLoaded) || table[j].init == Filesystems)
      ensures ok ==> AlsoRead(trace, old(trace), table[j].init)
      ensures !ok ==> trace != [] && trace[|trace| - 1] == Failed(j)
      ensures !ok ==> NothingPrinted(trace) && ProbedAtMostOnce(trace) && MemoryUntilFound(trace, memWorks)
      ensures ok <==> (table[j].init == Tcp ==> tcpWorks) && (table[j].init == Filesystems ==> fsWorks)
    {
      hide Probes, NothingPrinted, ProbedAtMostOnce, MemoryUntilFound, Backed, AlsoRead;
      NothingRead(trace);
      ok := true;
      j := 1;
      while j < |table|
        invariant 1 <= j <= |table| || (j == 1 && |table| == 1)
        invariant unchanged(this) && forall k :: 1 <= k < j ==> !Matches(table, k, arg)
      {
        StringInMemory(arg);
        StringInMemory(table[j].name);
        var start := StrStart(arg + [NUL], table[j].name + [NUL]);
        if start {
          if ready[j] {
            ReadyIsBacked(j);
          } else {
            var rc := InitModule(j);
            ok := rc != 0;
            if !ok {
              FailedEvent(trace, j, memWorks);
              trace := trace + [Failed(j)];
            }
          }
          return;
        }
        j := j + 1;
      }
      j := j % |table|;
    }

    /** `main`. The trace of a surviving run ends in one print event per argument. */
    method Run(args: seq<seq<byte>>) returns (outcome: Outcome)
      requires Valid() && Fresh() && ValidArgs(args)
      modifies this
      ensures outcome == Usage <==> |args| == 1 && Text("-h") <= args[0]
      ensures outcome == Usage ==> trace == []
      ensures outcome != Usage ==>
                outcome == if (Needs(table, args, Tcp) && !tcpWorks) || (Needs(table, args, Filesystems) && !fsWorks)
                           then Exit(1) else Exit(0)
      ensures outcome == Exit(1) ==> NothingPrinted(trace) && trace != [] && trace[|trace| - 1].Failed?
      ensures outcome == Exit(0) ==>
                && |trace| >= |args|
                && var setup, prints := trace[..|trace| - |args|], trace[|trace| - |args|..];
                && NothingPrinted(setup) && PrintsAll(prints, table, args)
                && Backed(table, setup)
                && forall i :: 0 <= i < |prints| ==> prints[i].m == 0 || Initialized(prints[i].m) in setup
      ensures ProbedAtMostOnce(trace) && MemoryUntilFound(trace, memWorks)
      ensures outcome == Exit(0) ==>
                forall what :: what != None ==> (Probed(what) in trace <==> Needs(table, args, what))
      ensures outcome == Exit(0) ==> (Probes(trace, Tcp) == 1 <==> Needs(table, args, Tcp))
                                     && (Probes(trace, Filesystems) == 1 <==> Needs(table, args, Filesystems))
    {
      hide Probes, Backed, NothingPrinted, Wants, Needs;
      NothingWanted(table, trace);
      if |args| == 1 {
        HelpTest(args[0]);
        StringInMemory(args[0]);
        var d := StrDiffn(args[0] + [NUL], Text("-h") + [NUL], 2);
        if d == 0 {
          FreshProbes();
          return Usage;
        }
      }
      var m: seq<nat> := [];
      var i := 0;
      while i < |args|
        invariant Valid() && i == |m| <= |args|
        invariant forall k :: 0 <= k < i ==> m[k] < |table| && Picks(table, args[k], m[k])
        invariant forall k :: 0 <= k < i ==> m[k] == 0 || Initialized(m[k]) in trace
        invariant tcpInited == Wants(table, m, Tcp) && fsLoaded == Wants(table, m, Filesystems)
        invariant ReadFor(trace, table, m)
      {
        ghost var before := trace;
        var j, ok := Prepare(args[i]);
        if !ok {
          NeedsOf(table, args, i, j);
          return Exit(1);
        }
        WantsMore(table, m, j);
        ReadMore(trace, before, table, m, j);
        m := m + [j];
        i := i + 1;
      }
      WantsIsNeeds(table, args, m);
      PrintPhase(args, m);
      return Exit(0);
    }

    /** `main` with the modules that are shipped, in terms of its arguments: which of them make it look at
        what, when it gives up, and which module prints each. */
    method RunShipped(args: seq<seq<byte>>) returns (outcome: Outcome)
      requires Valid() && Fresh() && ValidArgs(args) && table == ShippedTable()
      modifies this
      ensures outcome == Usage <==> |args| == 1 && Text("-h") <= args[0]
      ensures outcome == Usage || outcome == Exit(0) || outcome == Exit(1)
      ensures outcome == Exit(1) <==>
                && outcome != Usage
                && ((!tcpWorks && SomeStarts(args, "tcp"))
                    || (!fsWorks && (SomeStarts(args, "fst") || SomeStarts(args, "fsr")
                                     || SomeStarts(args, "fsf") || SomeStarts(args, "fsu"))))
      ensures outcome == Usage ==> trace == []
      ensures outcome == Exit(1) ==> forall e :: e in trace ==> !e.Printed?
      ensures outcome == Exit(0) ==>
                && (Probed(Tcp) in trace <==> SomeStarts(args, "tcp"))
                && (Probed(Filesystems) in trace <==> SomeStarts(args, "fst") || SomeStarts(args, "fsr")
                                                      || SomeStarts(args, "fsf") || SomeStarts(args, "fsu"))
                && (Probed(Memory) in trace <==> SomeStarts(args, "mem"))
                && (Probed(Load) in trace <==> SomeStarts(args, "load"))
                && (Probed(Uptime) in trace <==> SomeStarts(args, "ut"))
                && (Probed(Users) in trace <==> SomeStarts(args, "nusers"))
                && (Probed(Battery) in trace <==> SomeStarts(args, "bat%") || SomeStarts(args, "bat+"))
      ensures multiset(trace)[Probed(Tcp)] <= 1 && multiset(trace)[Probed(Filesystems)] <= 1
              && multiset(trace)[Probed(Users)] <= 1
      ensures outcome == Exit(0) ==> |trace| >= |args|
      ensures outcome == Exit(0) ==> forall e :: e in trace[..|trace| - |args|] ==> !e.Printed?
      ensures outcome == Exit(0) ==> forall i :: 0 <= i < |args| ==>
                && trace[|trace| - |args|..][i].Printed?
                && trace[|trace| - |args|..][i].arg == i
                && PrintsFor(trace[..|trace| - |args|], args[i], trace[|trace| - |args|..][i].m)
    {
      hide Probes, Backed, ShippedTable, Needs, SomeStarts, PrintsFor, PrintsAll, Text;
      outcome := Run(args);
      NeedsSpelled(args);
      ProbesAre(trace, Tcp);
      ProbesAre(trace, Filesystems);
      ProbesAre(trace, Users);
      if outcome == Exit(0) {
        PrintsSpelled(trace[..|trace| - |args|], trace[|trace| - |args|..], args);
      }
    }

    /** The second loop of `main`. */
    method PrintPhase(args: seq<seq<byte>>, m: seq<nat>)
      requires |m| == |args|
      modifies this`trace
      ensures |trace| == old(|trace|) + |args| && trace[..old(|trace|)] == old(trace)
      ensures forall k :: 0 <= k < |args| ==> trace[old(|trace|)..][k] == Printed(k, m[k])
      ensures forall what :: Probes(trace, what) == Probes(old(trace), what)
      ensures forall what :: Probed(what) in trace <==> Probed(what) in old(trace)
    {
      hide Probes;
      var i := 0;
      while i < |args|
        invariant i <= |args| && |trace| == old(|trace|) + i && trace[..old(|trace|)] == old(trace)
        invariant forall k :: 0 <= k < i ==> trace[old(|trace|)..][k] == Printed(k, m[k])
        invariant forall what :: Probes(trace, what) == Probes(old(trace), what)
        invariant forall what :: Probed(what) in trace <==> Probed(what) in old(trace)
      {
        OtherEvent(trace, Printed(i, m[i]));
        trace := trace + [Printed(i, m[i])];
        i := i + 1;
      }
    }

    lemma FreshProbes()
      requires Fresh()
      ensures ProbedAtMostOnce(trace) && MemoryUntilFound(trace, memWorks)
    {
    }
  }

  /** Some argument starts with `p`. */
  predicate SomeStarts(args: seq<seq<byte>>, p: string) {
    exists i :: 0 <= i < |args| && Text(p) <= args[i]
  }

  /** Module `m` is the pass-through module, and no name of another is a prefix of the argument; or its name is the
      longest prefix of the argument among the names, and it was initialised after its data was read. */
  ghost predicate PrintsFor(setup: seq<Event>, arg: seq<byte>, m: nat) {
    if m == 0 then forall k :: 1 <= k < 49 ==> !(Text(ShippedName(k)) <= arg)
    else
      && m < 49 && Text(ShippedName(m)) <= arg
      && (forall k :: 1 <= k < 49 && k != m && Text(ShippedName(k)) <= arg ==> |ShippedName(k)| < |ShippedName(m)|)
      && Initialized(m) in setup && (ShippedInit(m) == None || Probed(ShippedInit(m)) in setup)
  }

  lemma PrintsPicked(setup: seq<Event>, arg: seq<byte>, m: nat)
    requires Picks(ShippedTable(), arg, m) && Backed(ShippedTable(), setup)
    requires m == 0 || Initialized(m) in setup
    ensures PrintsFor(setup, arg, m)
  {
    var table := ShippedTable();
    hide ShippedTable, ShippedName, ShippedInit;
    ShippedTableIsClean();
    if m != 0 {
      assert LongestMatch(table, arg, m);
      forall k: nat | 1 <= k < 49 && k != m && Text(ShippedName(k)) <= arg
        ensures |ShippedName(k)| < |ShippedName(m)|
      {
        assert Matches(table, k, arg);
      }
    } else {
      forall k: nat | 1 <= k < 49 ensures !(Text(ShippedName(k)) <= arg) {
        assert !Matches(table, k, arg);
      }
    }
  }

  lemma PrintsSpelled(setup: seq<Event>, prints: seq<Event>, args: seq<seq<byte>>)
    requires PrintsAll(prints, ShippedTable(), args) && Backed(ShippedTable(), setup)
    requires forall i :: 0 <= i < |prints| && prints[i].Printed? ==>
               prints[i].m == 0 || Initialized(prints[i].m) in setup
    ensures |prints| == |args| && forall i :: 0 <= i < |args| ==>
              prints[i].Printed? && prints[i].arg == i && PrintsFor(setup, args[i], prints[i].m)
  {
    hide Backed, ShippedTable, PrintsFor;
    forall i | 0 <= i < |args| ensures PrintsFor(setup, args[i], prints[i].m) {
      PrintsPicked(setup, args[i], prints[i].m);
    }
  }

  /** What the arguments have to start with, for the shipped table to need something. */
  lemma NeedsSpelled(args: seq<seq<byte>>)
    ensures Needs(ShippedTable(), args, Tcp) <==> SomeStarts(args, "tcp")
    ensures Needs(ShippedTable(), args, Filesystems) <==>
              SomeStarts(args, "fst") || SomeStarts(args, "fsr") || SomeStarts(args, "fsf") || SomeStarts(args, "fsu")
    ensures Needs(ShippedTable(), args, Memory) <==> SomeStarts(args, "mem")
    ensures Needs(ShippedTable(), args, Load) <==> SomeStarts(args, "load")
    ensures Needs(ShippedTable(), args, Uptime) <==> SomeStarts(args, "ut")
    ensures Needs(ShippedTable(), args, Users) <==> SomeStarts(args, "nusers")
    ensures Needs(ShippedTable(), args, Battery) <==> SomeStarts(args, "bat%") || SomeStarts(args, "bat+")
  {
    hide Needs, ShippedTable, Text;
    AskedIsNeeded(args);
  }

  lemma {:induction false} ProbesAre(trace: seq<Event>, what: Init)
    ensures Probes(trace, what) == multiset(trace)[Probed(what)]
  {
    if trace != [] {
      ProbesAre(trace[..|trace| - 1], what);
      assert trace == trace[..|trace| - 1] + [trace[|trace| - 1]];
    }
  }

  /** The shipped table needs what the arguments ask for. */
  lemma AskedIsNeeded(args: seq<seq<byte>>)
    ensures forall what :: what != None ==>
              (Needs(ShippedTable(), args, what) <==> exists i :: 0 <= i < |args| && AsksFor(args[i], what))
  {
    var table := ShippedTable();
    hide ShippedTable, AsksFor;
    forall what | what != None
      ensures Needs(table, args, what) <==> exists i :: 0 <= i < |args| && AsksFor(args[i], what)
    {
      if Needs(table, args, what) {
        var i, j: nat :| 0 <= i < |args| && Picks(table, args[i], j) && j < |table| && table[j].init == what;
        PickedReads(args[i], j, what);
      }
      if i :| 0 <= i < |args| && AsksFor(args[i], what) {
        var j := PickedSome(args[i]);
        PickedReads(args[i], j, what);
      }
    }
  }

  /** Every argument picks a module. */
  lemma PickedSome(arg: seq<byte>) returns (j: nat)
    ensures Picks(ShippedTable(), arg, j)
  {
    var table := ShippedTable();
    if k: nat :| Matches(table, k, arg) {
      j := FirstMatch(table, arg, k);
    } else {
      j := 0;
    }
  }

  /** `-h` is recognised by its first two bytes. */
  lemma HelpTest(arg: seq<byte>)
    requires NUL !in arg
    ensures Readable(arg + [NUL], 2) && Readable(Text("-h") + [NUL], 2)
    ensures Diffn(arg + [NUL], Text("-h") + [NUL], 2) == 0 <==> Text("-h") <= arg
  {
    var h := Text("-h");
    var s, t := arg + [NUL], h + [NUL];
    StringInMemory(h);
    StringInMemory(arg);
    DiffnOrders(s, t, 2);
    assert t[..2] == h;
    CStringIs(h, 2);
    if |arg| >= 2 {
      assert s[..2] == arg[..2];
      CStringIs(arg[..2], 2);
    } else if |arg| == 1 {
      assert s[..2] == s;
    }
  }

  /** Whether one of the modules picked so far is of this kind. */
  ghost predicate Wants(table: seq<Module>, m: seq<nat>, what: Init) {
    exists k :: 0 <= k < |m| && m[k] < |table| && table[m[k]].init == what
  }

  /** Looked at is exactly what the modules picked so far need. */
  ghost predicate ReadFor(trace: seq<Event>, table: seq<Module>, m: seq<nat>) {
    forall what :: what != None ==> (Probed(what) in trace <==> Wants(table, m, what))
  }

  lemma NeedsOf(table: seq<Module>, args: seq<seq<byte>>, i: nat, j: nat)
    requires i < |args| && j < |table| && Picks(table, args[i], j)
    ensures Needs(table, args, table[j].init)
  {
  }

  lemma NothingWanted(table: seq<Module>, trace: seq<Event>)
    ensures trace == [] ==> ReadFor(trace, table, [])
    ensures forall what :: !Wants(table, [], what)
  {
  }

  lemma ReadMore(now: seq<Event>, before: seq<Event>, table: seq<Module>, m: seq<nat>, j: nat)
    requires j < |table| && ReadFor(before, table, m) && AlsoRead(now, before, table[j].init)
    ensures ReadFor(now, table, m + [j])
  {
    hide Wants;
    WantsMore(table, m, j);
  }

  lemma WantsMore(table: seq<Module>, m: seq<nat>, j: nat)
    requires j < |table|
    ensures forall what :: Wants(table, m + [j], what) <==> Wants(table, m, what) || table[j].init == what
  {
    forall what ensures Wants(table, m + [j], what) <==> Wants(table, m, what) || table[j].init == what {
      assert (m + [j])[|m|] == j;
      if Wants(table, m, what) {
        var k :| 0 <= k < |m| && m[k] < |table| && table[m[k]].init == what;
        assert (m + [j])[k] == m[k];
      }
    }
  }

  lemma WantsIsNeeds(table: seq<Module>, args: seq<seq<byte>>, m: seq<nat>)
    requires |m| == |args| && forall k :: 0 <= k < |m| ==> m[k] < |table| && Picks(table, args[k], m[k])
    ensures forall what :: Wants(table, m, what) <==> Needs(table, args, what)
  {
    forall what ensures Wants(table, m, what) <==> Needs(table, args, what) {
      if Needs(table, args, what) {
        var i, j: nat :| 0 <= i < |args| && Picks(table, args[i], j) && j < |table| && table[j].init == what;
        PicksIsUnique(table, args[i], j, m[i]);
      }
    }
  }
}
