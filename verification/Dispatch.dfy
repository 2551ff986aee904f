/** The module table of ustat.c and how an argument picks its module. */
module Dispatch {
  import opened Bytes

  /** What a module's init function does. */
  datatype Init = None | Load | Uptime | Users | Battery | Memory | Filesystems | Tcp

  datatype Module = Module(name: seq<byte>, init: Init)

  /** A table as the driver needs it: C strings, with the pass-through module first. */
  predicate ValidTable(table: seq<Module>) {
    && table != [] && table[0].init == None
    && forall j :: 0 <= j < |table| ==> NUL !in table[j].name
  }

  predicate Matches(table: seq<Module>, j: nat, arg: seq<byte>) {
    1 <= j < |table| && table[j].name <= arg
  }

  /** The module of an argument: the first match from entry 1 on, or the pass-through module. */
  ghost predicate Picks(table: seq<Module>, arg: seq<byte>, j: nat) {
    if Matches(table, j, arg) then forall k :: 1 <= k < j ==> !Matches(table, k, arg)
    else j == 0 && forall k :: 1 <= k < |table| ==> !Matches(table, k, arg)
  }

  /** A module whose name is the longest match, and the only one of that length. */
  ghost predicate LongestMatch(table: seq<Module>, arg: seq<byte>, j: nat) {
    && Matches(table, j, arg)
    && forall k: nat :: Matches(table, k, arg) && k != j ==> |table[k].name| < |table[j].name|
  }

  /** No entry hides a later one. */
  predicate NothingHidden(table: seq<Module>) {
    forall i, j :: 1 <= i < j < |table| ==> !(table[i].name <= table[j].name)
  }

  lemma PicksIsUnique(table: seq<Module>, arg: seq<byte>, i: nat, j: nat)
    requires Picks(table, arg, i) && Picks(table, arg, j)
    ensures i == j
  {
    assert 1 <= i < j ==> !Matches(table, i, arg);
    assert 1 <= j < i ==> !Matches(table, j, arg);
  }

  /** The first match is the unique longest match for every argument exactly when no name in the
      table is a prefix of a later one. */
  lemma FirstIsLongest(table: seq<Module>)
    ensures NothingHidden(table)
       <==> forall arg: seq<byte>, j: nat :: Picks(table, arg, j) && j != 0 ==> LongestMatch(table, arg, j)
  {
    if NothingHidden(table) {
      forall arg: seq<byte>, j: nat | Picks(table, arg, j) && j != 0 ensures LongestMatch(table, arg, j) {
        forall k: nat | Matches(table, k, arg) && k != j ensures |table[k].name| < |table[j].name| {
          assert k > j && !(table[j].name <= table[k].name);
          PrefixesCompare(table[j].name, table[k].name, arg);
        }
      }
    } else {
      var i: nat, j: nat :| 1 <= i < j < |table| && table[i].name <= table[j].name;
      var arg := table[j].name;
      assert Matches(table, i, arg) && Matches(table, j, arg);
      var f := FirstMatch(table, arg, i);
      assert f != j;
      assert |table[f].name| <= |arg|;
      assert !LongestMatch(table, arg, f);
    }
  }

  lemma PrefixesCompare(p: seq<byte>, q: seq<byte>, arg: seq<byte>)
    requires p <= arg && q <= arg
    ensures if |p| <= |q| then p <= q else q <= p
  {
    if |p| <= |q| { assert p == arg[..|p|] == q[..|p|]; } else { assert q == arg[..|q|] == p[..|q|]; }
  }

  lemma FirstMatch(table: seq<Module>, arg: seq<byte>, bound: nat) returns (f: nat)
    requires Matches(table, bound, arg)
    ensures 1 <= f <= bound && Picks(table, arg, f)
  {
    f := 1;
    while !Matches(table, f, arg)
      invariant 1 <= f <= bound && forall k :: 1 <= k < f ==> !Matches(table, k, arg)
      decreases bound - f
    {
      f := f + 1;
    }
  }

  // ---------- the shipped table ----------

  const NMODULES := 49
  const SLASH: byte := 47

  function ShippedName(j: nat): string {
    match j
    case 0 => "" case 1 => "%" case 2 => "nl"
    case 3 => "load" case 4 => "ut+h" case 5 => "ut"
    case 6 => "date" case 7 => "uid" case 8 => "user" case 9 => "nusers"
    case 10 => "nproc" case 11 => "ncpus"
    case 12 => "bat%" case 13 => "bat+h" case 14 => "bat+"
    case 15 => "memfh" case 16 => "memf" case 17 => "memr" case 18 => "memh" case 19 => "mem"
    case 20 => "fsth" case 21 => "fst" case 22 => "fsr" case 23 => "fsfh" case 24 => "fsf"
    case 25 => "fsuh" case 26 => "fsu"
    case 27 => "tcp6.e" case 28 => "tcp6.l" case 29 => "tcp6.c" case 30 => "tcp6"
    case 31 => "tcp4.e" case 32 => "tcp4.l" case 33 => "tcp4.c" case 34 => "tcp4"
    case 35 => "tcpdump"
    case 36 => "tcp.e" case 37 => "tcp.l" case 38 => "tcp.c" case 39 => "tcp"
    case 40 => "coff" case 41 => "8#" case 42 => "8*" case 43 => "B#" case 44 => "B*"
    case 45 => "256#" case 46 => "256*" case 47 => "rgb#" case 48 => "rgb*"
    case _ => ""
  }

  function ShippedInit(j: nat): Init {
    if j == 3 then Load
    else if 4 <= j <= 5 then Uptime
    else if j == 9 then Users
    else if 12 <= j <= 14 then Battery
    else if 15 <= j <= 19 then Memory
    else if 20 <= j <= 26 then Filesystems
    else if 27 <= j <= 39 then Tcp
    else None
  }

  function ShippedTable(): (table: seq<Module>)
    ensures |table| == NMODULES
    ensures forall j :: 0 <= j < NMODULES ==> table[j] == Module(Text(ShippedName(j)), ShippedInit(j))
  {
    seq(NMODULES, j requires 0 <= j => Module(Text(ShippedName(j)), ShippedInit(j)))
  }

  /** Position `k` tells that `p` is no prefix of `s`. */
  predicate ApartAt(p: string, s: string, k: nat) {
    k < |p| && (k >= |s| || p[k] != s[k])
  }

  predicate Apart(p: string, s: string) {
    ApartAt(p, s, 0) || ApartAt(p, s, 1) || ApartAt(p, s, 2) || ApartAt(p, s, 3) || ApartAt(p, s, 4) || ApartAt(p, s, 5)
  }

  lemma ShippedNamesApart()
    ensures forall i, j :: 1 <= i < 15 && i < j < NMODULES ==> Apart(ShippedName(i), ShippedName(j))
  {
  }

  lemma ShippedNamesApartFurther()
    ensures forall i, j :: 15 <= i < j < NMODULES ==> Apart(ShippedName(i), ShippedName(j))
  {
  }

  /** A character that is ASCII, not NUL and no slash. */
  predicate AsciiAt(s: string, k: nat) {
    k < |s| ==> 0 < s[k] as int < 128 && s[k] != '/'
  }

  predicate Ascii(s: string) {
    |s| <= 7 && AsciiAt(s, 0) && AsciiAt(s, 1) && AsciiAt(s, 2) && AsciiAt(s, 3)
    && AsciiAt(s, 4) && AsciiAt(s, 5) && AsciiAt(s, 6)
  }

  lemma ShippedNamesAscii(j: nat)
    ensures Ascii(ShippedName(j))
  {
    if j < 25 { FirstNamesAscii(j); } else { LastNamesAscii(j); }
  }

  lemma FirstNamesAscii(j: nat)
    requires j < 25
    ensures Ascii(ShippedName(j))
  {
  }

  lemma LastNamesAscii(j: nat)
    requires j >= 25
    ensures Ascii(ShippedName(j))
  {
  }

  lemma TextIsCString(s: string)
    requires Ascii(s)
    ensures NUL !in Text(s)
  {
    forall k | 0 <= k < |s| ensures Text(s)[k] != NUL {
      assert AsciiAt(s, k);
    }
  }

  lemma TextHasNoSlash(s: string)
    requires Ascii(s)
    ensures SLASH !in Text(s)
  {
    forall k | 0 <= k < |s| ensures Text(s)[k] != SLASH {
      assert AsciiAt(s, k);
    }
  }

  lemma TextApart(p: string, s: string, k: nat)
    requires AsciiAt(p, k) && AsciiAt(s, k) && ApartAt(p, s, k)
    ensures !(Text(p) <= Text(s))
  {
    if k < |s| {
      assert Text(p)[k] == p[k] as int && Text(s)[k] == s[k] as int;
    }
  }

  lemma TextsApart(p: string, s: string)
    requires Ascii(p) && Ascii(s) && Apart(p, s)
    ensures !(Text(p) <= Text(s))
  {
    hide ApartAt, AsciiAt;
    if ApartAt(p, s, 0) { TextApart(p, s, 0); }
    else if ApartAt(p, s, 1) { TextApart(p, s, 1); }
    else if ApartAt(p, s, 2) { TextApart(p, s, 2); }
    else if ApartAt(p, s, 3) { TextApart(p, s, 3); }
    else if ApartAt(p, s, 4) { TextApart(p, s, 4); }
    else { TextApart(p, s, 5); }
  }

  /** The shipped table hides nothing, so every argument gets the module with the longest matching name. */
  lemma ShippedTableIsClean()
    ensures ValidTable(ShippedTable()) && NothingHidden(ShippedTable())
    ensures forall arg: seq<byte>, j: nat ::
              Picks(ShippedTable(), arg, j) && j != 0 ==> LongestMatch(ShippedTable(), arg, j)
  {
    var table := ShippedTable();
    hide ShippedName, ShippedInit, ShippedTable;
    forall j | 0 <= j < NMODULES ensures NUL !in table[j].name {
      ShippedNamesAscii(j);
      TextIsCString(ShippedName(j));
    }
    ShippedNamesApart();
    ShippedNamesApartFurther();
    forall i, j | 1 <= i < j < NMODULES ensures !(table[i].name <= table[j].name) {
      ShippedNamesAscii(i);
      ShippedNamesAscii(j);
      TextsApart(ShippedName(i), ShippedName(j));
    }
    assert table[0].init == None by { FirstIsPassThrough(); }
    FirstIsLongest(table);
  }

  /** A module's name, alone or followed by an absolute path, always picks that module. */
  lemma NameAndPath(j: nat, path: seq<byte>)
    requires 1 <= j < NMODULES && (path == [] || path[0] == SLASH)
    ensures Picks(ShippedTable(), Text(ShippedName(j)) + path, j)
  {
    var table := ShippedTable();
    var name := table[j].name;
    hide ShippedName, ShippedInit, ShippedTable;
    ShippedTableIsClean();
    forall k | 1 <= k < j && Matches(table, k, name + path) ensures false {
      var other := table[k].name;
      ShippedNamesAscii(k);
      TextHasNoSlash(ShippedName(k));
      PrefixesCompare(other, name, name + path);
      if |other| > |name| { SlashReached(other, name, path); }
    }
  }

  lemma SlashReached(other: seq<byte>, name: seq<byte>, path: seq<byte>)
    requires other <= name + path && |other| > |name| && path != [] && path[0] == SLASH
    ensures SLASH in other
  {
    assert other[|name|] == (name + path)[|name|] == SLASH;
  }

  lemma FirstIsPassThrough()
    ensures ShippedTable()[0] == Module([], None)
  {
  }

  // ---------- which arguments need what ----------

  /** Whether an argument asks for something that has to be read from the system first. */
  predicate AsksFor(arg: seq<byte>, what: Init) {
    match what
    case Tcp => Text("tcp") <= arg
    case Filesystems => Text("fst") <= arg || Text("fsr") <= arg || Text("fsf") <= arg || Text("fsu") <= arg
    case Memory => Text("mem") <= arg
    case Load => Text("load") <= arg
    case Uptime => Text("ut") <= arg
    case Users => Text("nusers") <= arg
    case Battery => Text("bat%") <= arg || Text("bat+") <= arg
    case None => false
  }

  /** The same for a name. */
  predicate NameAsks(s: string, what: Init) {
    match what
    case Tcp => "tcp" <= s
    case Filesystems => "fst" <= s || "fsr" <= s || "fsf" <= s || "fsu" <= s
    case Memory => "mem" <= s
    case Load => "load" <= s
    case Uptime => "ut" <= s
    case Users => "nusers" <= s
    case Battery => "bat%" <= s || "bat+" <= s
    case None => true
  }

  lemma NamesAsk(j: nat)
    requires 1 <= j < NMODULES
    ensures NameAsks(ShippedName(j), ShippedInit(j))
  {
  }

  lemma TextPrefix(p: string, s: string, arg: seq<byte>)
    requires p <= s && Text(s) <= arg
    ensures Text(p) <= arg
  {
    assert forall i :: 0 <= i < |p| ==> p[i] == s[i];
    assert forall i :: 0 <= i < |s| ==> Text(s)[i] == arg[i];
  }

  lemma NameThenArgument(s: string, arg: seq<byte>, what: Init)
    requires Text(s) <= arg && NameAsks(s, what) && what != None
    ensures AsksFor(arg, what)
  {
    hide Text;
    match what {
      case Tcp => TextPrefix("tcp", s, arg);
      case Filesystems =>
        if "fst" <= s { TextPrefix("fst", s, arg); }
        if "fsr" <= s { TextPrefix("fsr", s, arg); }
        if "fsf" <= s { TextPrefix("fsf", s, arg); }
        if "fsu" <= s { TextPrefix("fsu", s, arg); }
      case Memory => TextPrefix("mem", s, arg);
      case Load => TextPrefix("load", s, arg);
      case Uptime => TextPrefix("ut", s, arg);
      case Users => TextPrefix("nusers", s, arg);
      case Battery =>
        if "bat%" <= s { TextPrefix("bat%", s, arg); }
        if "bat+" <= s { TextPrefix("bat+", s, arg); }
    }
  }

  /** The first two letters of a name or an argument already tell its init function. */
  function ByLetters(c: int, d: int): Init {
    if c == 't' as int then Tcp
    else if c == 'f' as int then Filesystems
    else if c == 'm' as int then Memory
    else if c == 'l' as int then Load
    else if c == 'b' as int then Battery
    else if c == 'u' as int && d == 't' as int then Uptime
    else if c == 'n' as int && d == 'u' as int then Users
    else None
  }

  lemma NameByLetters(j: nat)
    requires 1 <= j < NMODULES
    ensures var s := ShippedName(j);
      (s == "%" && ShippedInit(j) == None)
      || (|s| > 1 && ShippedInit(j) == ByLetters(s[0] as int, s[1] as int) && s[0] as int < 128 && s[1] as int < 128)
  {
  }

  lemma LettersOf(s: string, arg: seq<byte>)
    requires Text(s) <= arg && forall i :: 0 <= i < |s| ==> s[i] as int < 256
    ensures |s| > 0 ==> arg != [] && arg[0] == s[0] as int
    ensures |s| > 1 ==> |arg| > 1 && arg[1] == s[1] as int
  {
  }

  function FirstLetters(arg: seq<byte>): Init {
    ByLetters(if |arg| > 0 then arg[0] else 0, if |arg| > 1 then arg[1] else 0)
  }

  lemma AskedByLetters(arg: seq<byte>, what: Init)
    requires AsksFor(arg, what)
    ensures FirstLetters(arg) == what
  {
    hide Text;
    match what {
      case Tcp => LettersOf("tcp", arg);
      case Filesystems =>
        if Text("fst") <= arg { LettersOf("fst", arg); }
        if Text("fsr") <= arg { LettersOf("fsr", arg); }
        if Text("fsf") <= arg { LettersOf("fsf", arg); }
        if Text("fsu") <= arg { LettersOf("fsu", arg); }
      case Memory => LettersOf("mem", arg);
      case Load => LettersOf("load", arg);
      case Uptime => LettersOf("ut", arg);
      case Users => LettersOf("nusers", arg);
      case Battery =>
        if Text("bat%") <= arg { LettersOf("bat%", arg); }
        if Text("bat+") <= arg { LettersOf("bat+", arg); }
    }
  }

  /** A name that is a prefix of an argument asks for what the argument asks for. */
  lemma MatchByLetters(j: nat, arg: seq<byte>)
    requires 1 <= j < NMODULES && Text(ShippedName(j)) <= arg
    ensures FirstLetters(arg) == ShippedInit(j)
  {
    hide ShippedName, ShippedInit, Text;
    NameByLetters(j);
    ShippedNamesAscii(j);
    AsciiFits(ShippedName(j));
    LettersOf(ShippedName(j), arg);
  }

  lemma AsciiFits(s: string)
    requires Ascii(s)
    ensures forall i :: 0 <= i < |s| ==> s[i] as int < 256
  {
    forall i | 0 <= i < |s| ensures s[i] as int < 256 {
      assert AsciiAt(s, i);
    }
  }

  lemma NameMatches(k: nat, arg: seq<byte>)
    requires 1 <= k < NMODULES && Text(ShippedName(k)) <= arg
    ensures exists k: nat :: Matches(ShippedTable(), k, arg)
  {
    assert Matches(ShippedTable(), k, arg);
  }

  /** What an argument asks for, some name in the table provides. */
  lemma SomethingMatches(arg: seq<byte>, what: Init)
    requires AsksFor(arg, what)
    ensures exists k: nat :: Matches(ShippedTable(), k, arg)
  {
    hide ShippedTable, Text, ShippedInit;
    match what {
      case Tcp => NameMatches(39, arg);
      case Filesystems =>
        NameMatches(if Text("fst") <= arg then 21 else if Text("fsr") <= arg then 22
                    else if Text("fsf") <= arg then 24 else 26, arg);
      case Memory => NameMatches(19, arg);
      case Load => NameMatches(3, arg);
      case Uptime => NameMatches(5, arg);
      case Users => NameMatches(9, arg);
      case Battery => NameMatches(if Text("bat%") <= arg then 12 else 14, arg);
    }
  }

  /** The module that the shipped table picks for an argument reads from the system what the argument asks for,
      and nothing when it asks for nothing. */
  lemma PickedReads(arg: seq<byte>, j: nat, what: Init)
    requires Picks(ShippedTable(), arg, j) && what != None
    ensures j < NMODULES && (ShippedTable()[j].init == what <==> AsksFor(arg, what))
  {
    var table := ShippedTable();
    hide ShippedTable, ShippedName, ShippedInit, AsksFor, NameAsks, FirstLetters;
    FirstIsPassThrough();
    if AsksFor(arg, what) {
      SomethingMatches(arg, what);
      assert j != 0;
      MatchByLetters(j, arg);
      AskedByLetters(arg, what);
    }
    if table[j].init == what {
      NamesAsk(j);
      NameThenArgument(ShippedName(j), arg, what);
    }
  }
}
