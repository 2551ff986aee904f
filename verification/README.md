# ustat, modelled and proved

ustat prints small pieces of system status. Most of its modules are thin calls into
the operating system; what is left scans, indexes, sorts, counts, scales and formats.
This project models that part in Dafny and proves what it computes.

| file | contents |
|---|---|
| Bytes.dfy, Djb.dfy | bytes, machine words, NUL-terminated memory; the four-fold unrolled string routines |
| Decimal.dfy, ScanHex.dfy | decimal and hexadecimal text |
| Streams.dfy | the two ends of a file descriptor |
| WriteDouble.dfy, ReadDouble.dfy, Human.dfy, Uptime.dfy | fixed-point output, its reader, scaled output, uptime text |
| ProcTcpSpec.dfy, ProcTcp.dfy, TcpCounters.dfy | /proc/net/tcp: lines and fields, the buffered automaton, the counter tables |
| MountSpec.dfy, MountFs.dfy | mountinfo: lines and fields, the one-pass index, selection by name |
| Users.dfy, UserOrders.dfy | counting distinct user names by sorting; the same for names that are prefixes of others |
| Dispatch.dfy, Driver.dfy | the module table, first-match dispatch, the two phases of `main` |

`dafny verify dfyconfig.toml` checks the whole project.

## How the C is represented

- A byte is a number below 256, `char` is signed (`Bytes.AsChar`), and words wrap at
  2^64 or 2^32 where the code lets them. A pointer into memory is the sequence of
  bytes from there on; a buffer the code writes is an array.
- Gotos become loops, one method per label; the unrolled loops keep their four copies.
- The system is a parameter. A file is the list of answers its reads will give, so a
  statement for every list is a statement for every way the kernel cuts the file.
  `statvfs` is a function from paths to sizes. The user database is a sequence, `qsort`
  is any function that permutes, and the contents of fresh memory are an arbitrary
  function. Whether the tcp and filesystem probes work is a pair of booleans, because
  neither is repeated after a success nor survived after a failure; memory probes are
  repeated, and each has its own answer.
- `double` is `real`.
- Undefined behaviour in reach of ordinary input is not excluded by a precondition. The
  method reports it in a result (`overrun`, `fault`, `offTable`, `Stuck`), and a lemma
  says for exactly which inputs it happens.

## Where the code and its intent part ways

- The range test of the counter lets a state equal to the number of slots through
  (ustat_tcp_linux.c:109). Among printed rows the run leaves the table exactly when a
  row in state 12 comes before any row with a larger state.
- The tcp6 file is skipped when it opens as descriptor 0 (ustat_tcp_linux.c:149).
- `write_double` does not carry: 1.999 is printed as 1.00. The output is within half a
  unit exactly when rounding the fraction stays below 1. 2999 therefore becomes 2.00k.
- The comment above `read_double_from_fd` lists `[-]dec` without a fraction, but the code
  returns without storing a value unless a dot follows, or a byte that is negative as a
  char. On input that ends inside a number it does not return at all. With 64 or more
  digits behind the dot it divides by zero.
- `write_uint64_human` writes the terminating NUL as a suffix from 2 * 10^15 on, and reads
  behind the table from 2 * 10^18 on.
- Two separators in a row where a mount point should be make the index pass a null pointer.
- `name_t_cmp` looks at the common length only. It is a consistent order exactly when no name
  is a proper prefix of another. With such a prefix the count can still be right: on zeroed
  memory, every sorted arrangement is counted right exactly when neither of two different
  names, one a prefix of the other, occurs twice.
- The records are not zeroed behind the names, and whole fields are compared. For prefix-free
  names the count is never too small, and it is right exactly when records of one name have
  the same bytes behind it, up to a NUL. Zeroed memory, or one login a user, is enough.
- A name longer than the field, which takes one without a NUL and a non-empty field behind
  it, is copied past the end of its record.
- `fs_init` and `mem_init` succeed without marking a second module ready; it is initialised
  again for each of its arguments, without a second probe of the filesystems.

## Model

| member | source | states |
|---|---|---|
| Bytes.CharacterClasses | ustat_tcp_linux.c:65-94 | the digits are `0123456789`, the spaces are space, tab, newline, vertical tab, form feed and carriage return |
| Djb.StrLen | djb/str_len.c:3-14 | the position of the first NUL, as a 32-bit number |
| Djb.StrStart | djb/str_start.c:3-13 | true exactly when the second string is a prefix of the first |
| Djb.StrDiffn | djb/str_diffn.c:3-15 | the unrolled loop computes the first difference within `len`, or 0 at a common NUL |
| Djb.DiffnOrders | djb/str_diffn.c:3-15 | that difference is 0, negative or positive exactly as the windows up to `len` or the first NUL are equal, lexicographically smaller or larger on unsigned bytes |
| Djb.ByteCopy | djb/byte_copy.c:3-11 | exactly the first n bytes are copied, the rest of the target keeps its contents |
| Decimal.FmtUlong | djb/fmt_ulong.c:3-13 | with and without a buffer the same length; exactly buf[0..len) becomes the canonical digits |
| Decimal.FmtUint64 | ustat_helper/fmt_uint64.c:4-23 | the same length and the same bytes as `fmt_ulong`, from its own length loop; the backward fill is the one of `fmt_ulong` |
| Decimal.DigitsDenote | djb/fmt_ulong.c:6-10 | the digits denote the number and have no superfluous leading zero |
| Decimal.DigitsSpelled | djb/fmt_ulong.c:6-10 | the ten digits are `0123456789`, and a digit behind a number makes it ten times as large plus the digit |
| Decimal.CanonicalUnique | djb/fmt_ulong.c:6-10 | no other text without leading zeros denotes the number |
| Decimal.WordDigits | ustat_helper/write_double.c:11-17 | every 64-bit number fits the 20-byte buffer |
| Decimal.ScanUlong | djb/scan_ulong.c:3-14 | the length of the leading digit run, and its number modulo 2^64 |
| Decimal.FormatThenScan | djb/scan_ulong.c:8-13 | formatting any 64-bit number and scanning it up to any non-digit gives it back |
| ScanHex.ScanHex | ustat_helper/scan_hex.c:4-30 | the signed-char tests accept exactly 0-9, a-f, A-F; the number is extended by the accepted digits |
| ScanHex.HexDigitReads | ustat_helper/scan_hex.c:10-26 | the character printed for a digit, from `0123456789ABCDEF` or its lower-case form, is scanned as that digit |
| ScanHex.HexCharsOnly | ustat_helper/scan_hex.c:10-22 | no other character is a digit |
| ScanHex.PrintThenScan | ustat_helper/scan_hex.c:4-30 | a 64-bit number printed in hexadecimal, in any mixture of cases and with any leading zeros, is scanned in full as that number |
| WriteDouble.WriteDouble | ustat_helper/write_double.c:8-42 | appends the whole part and exactly `prec` zero-padded fraction digits |
| WriteDouble.DoubleTextDenotes | ustat_helper/write_double.c:17-39 | read as a decimal, the text is floor(v) plus (floor(v * 10^prec + 1/2) mod 10^prec) / 10^prec |
| WriteDouble.DoubleTextReads | ustat_helper/write_double.c:17-39 | the same as one formula over the value: floor(v) + (floor(v * 10^p + 1/2) mod 10^p) / 10^p, and the whole part alone without digits |
| WriteDouble.ErrorBound | ustat_helper/write_double.c:29-32 | the printed number is within half a unit of the last place if and only if frac(v) * 10^prec + 1/2 < 10^prec |
| WriteDouble.NoCarryExample | ustat_helper/write_double.c:29-32 | 1.999 with two digits is printed as 1.00 |
| ReadDouble.ReadDoubleFromFd | ustat_helper/read_double_from_fd.c:9-68 | on every input on which it returns, the loops give the described reading and leave the input behind the bytes counted |
| ReadDouble.StuckExactly | ustat_helper/read_double_from_fd.c:18-58 | it fails to return exactly on input that ends inside the blanks or the digits of the accepted form |
| ReadDouble.StuckExample | ustat_helper/read_double_from_fd.c:35-48 | the input `1` does not return |
| ReadDouble.ReadsWords | ustat_helper/read_double_from_fd.c:18-65 | spaces and tabs, sign, digits, dot, digits, any non-digit, and anything behind it: whole part, fraction and scale are read as 64-bit words, whatever their lengths; what follows is not touched |
| ReadDouble.ReadsDecimal | ustat_helper/read_double_from_fd.c:35-65 | with up to 19 fraction digits and a whole part of 64 bits that is the exact decimal value |
| ReadDouble.NotFiniteExactly | ustat_helper/read_double_from_fd.c:50-65 | the scale wraps around to zero if and only if there are 64 fraction digits or more |
| ReadDouble.ReadsBareInteger | ustat_helper/read_double_from_fd.c:36-46 | without a dot behind the digits, if any: the value, as a 64-bit word, is stored only if the next byte is negative as a char |
| ReadDouble.ReadsShort | ustat_helper/read_double_from_fd.c:18-58 | empty input gives 0, a sign alone nothing, and a dot as the last byte the whole part |
| ReadDouble.ReadBack | ustat_helper/read_double_from_fd.c:9-68 | reading what `write_double` printed, up to any non-digit, stores exactly the number printed and consumes one byte more than the text |
| Human.WriteUint64 | ustat_helper/write_uint64.c:5-10 | appends the canonical digits |
| Human.WriteUint64Human | ustat_helper/write_uint64_human.c:6-27 | for min = 1 below 2 * 10^15 the text reads back, with `k`, `m`, `g`, `t` for 10^3 to 10^12, as the value within 1/200 of the unit exactly if rounding does not carry; from there a NUL is the suffix, and from (min + 1) * 10^18 the table is overrun |
| Human.SuffixMeans | ustat_helper/write_uint64_human.c:8-24 | the k-th suffix, for any min, stands for 1000^k |
| Human.StepsLeast | ustat_helper/write_uint64_human.c:15-19 | k is the least power with value < (min + 1) * 1000 * 1000^k |
| Human.WordSteps | ustat_helper/write_uint64_human.c:15-19 | for 64-bit values k is at most 6, so the pointer guard never decides, and the scale is a 64-bit word not above the value |
| Human.ScaledRange | ustat_helper/write_uint64_human.c:15-19 | after scaling, min + 1 <= value / scale < 1000 * (min + 1) |
| Human.SuffixExactly | ustat_helper/write_uint64_human.c:8-24 | the suffix is one of `_kmgt` if and only if value < (min + 1) * 10^15, and inside the table if and only if below (min + 1) * 10^18 |
| Human.SuffixExample | ustat_helper/write_uint64_human.c:8-24 | 2 * 10^15 is written as 2.00 and a NUL |
| Human.HumanError | ustat_helper/write_uint64_human.c:21 | the printed mantissa times the scale is within scale / 200 of the value if and only if 200 * (value mod scale) < 199 * scale |
| Human.SmallReads | ustat_helper/write_uint64_human.c:6-27 | scaling, rounding and suffix composed for min = 1 and values below 2 * 10^15: two decimals, at most four digits before them, read back as above |
| Human.HumanExample | ustat_helper/write_uint64_human.c:21-24 | 2999 is written as 2.00k |
| Uptime.UptimePrintHuman | ustat_uptime.c:25-50 | the appended text reads back, with `d`, `h`, `m`, `s` for 86400, 3600, 60 and 1 seconds, as the uptime in normal form; a negative uptime is its 64-bit word and `s` |
| Uptime.PartsAddUp | ustat_uptime.c:30-46 | d * 86400 + h * 3600 + m * 60 + s is the uptime, as a 64-bit word |
| Uptime.PartsNormal | ustat_uptime.c:30-46 | h < 24, m < 60, s < 60, units descending, only the seconds may be zero |
| Uptime.DecodeRender | ustat_uptime.c:30-47 | reading number-unit pairs back undoes rendering |
| Uptime.UptimesDistinct | ustat_uptime.c:25-50 | two 64-bit uptimes with the same text are equal |
| ProcTcp.BufferedByteReader.ReadByte | ustat_tcp_linux.c:28-45 | whatever the chunks, the next byte of the stream is delivered and counted, or the stream has ended and nothing else changes |
| ProcTcp.BufferedByteReader.NextState | ustat_tcp_linux.c:56-111 | one round through the labels, over the buffer, is one row of the unbuffered automaton; unread bytes decrease |
| ProcTcp.ProcessProcTcp | ustat_tcp_linux.c:47-121 | store and return code are those of the unbuffered automaton on the whole stream, for every way it is cut into chunks and any prior store |
| ProcTcp.ProcessPrinted | ustat_tcp_linux.c:47-121 | of any printed file and any prior store, each slot grows by the number of rows printed with its number before the first without a slot; the return code is 1 exactly if a row was counted; the table is overrun exactly if that first row has the number of slots as its state |
| ProcTcpSpec.AutomatonReadsRows | ustat_tcp_linux.c:54-116 | the automaton accepts exactly the rows, by lines and fields, before the first that is truncated, not hexadecimal or out of range, newlines separating fields like any space |
| ProcTcpSpec.NegativeField | ustat_tcp_linux.c:78-94 | a negative field number accepts nothing |
| ProcTcpSpec.PrintedScan | ustat_tcp_linux.c:47-121 | of any header and any rows whose states are printed as two hexadecimal digits, exactly those before the first without a slot are accepted, with the numbers printed |
| ProcTcpSpec.ParserUndoesPrinter | ustat_tcp_linux.c:47-121 | if all states have a slot, every row is accepted with its state, in order |
| ProcTcpSpec.OverrunExactly | ustat_tcp_linux.c:108-114 | the run counts behind the table if and only if a row in the state just behind the last slot precedes all rows with a larger one |
| ProcTcpSpec.OverrunExample | ustat_tcp_linux.c:108-114 | one row in state 0C leaves the table |
| ProcTcpSpec.CountsAddUp | ustat_tcp_linux.c:113-114 | every accepted row is counted in exactly one slot |
| TcpCounters.TableGrows | ustat_tcp_linux.c:108-114 | without wrap-around the sum of the table grows by the number of accepted rows and no slot shrinks |
| TcpCounters.SumCounters | ustat_tcp.c:191-198 | for any layout with the total outside the states: the source's total grows by its states, the target gains every state and the total, all other slots stay |
| TcpCounters.SumsConserved | ustat_tcp.c:191-198 | summing keeps a target's total the sum of its states, and is off by exactly the source's old total |
| TcpCounters.LayoutsValid | ustat_tcp.c:28-82 | both enumerations keep the total apart: slot 0 before eleven states on Linux, slot 11 behind eleven on the BSDs |
| TcpCounters.TcpTables.InitViaProcNetTcp | ustat_tcp_linux.c:125-156 | from any prior contents: each total is the number of accepted rows of its file, each state its count, and the merged table the sum of the families in every slot; without the IPv4 file nothing changes |
| TcpCounters.PrintedFamily | ustat_tcp_linux.c:125-156 | for a printed file, however cut, slot 0 is the number of rows before the first in a state above 11, and slots 1 to 11 the numbers of those in these states |
| TcpCounters.TcpTables.InitPrinted | ustat_tcp_linux.c:125-156 | for two printed files: the slots of both families and of the merged table in numbers of rows, unless a row in state 12 comes before any in a larger one |
| TcpCounters.TcpTables.TcpInit | ustat_tcp.c:86-104 | after a success no later call touches a table; the module is marked ready exactly when the call succeeds |
| MountSpec.SplitJoins | ustat_fs_linux.c:86-103 | the division into lines and fields loses nothing and leaves no separator in a part |
| MountSpec.SplitUndoesJoin | ustat_fs_linux.c:86-103 | splitting a joined text gives the parts back |
| MountSpec.PrintedPoints | ustat_fs_linux.c:82-116 | of any file printed as lines of fields with spaces or tabs between them, the mount points are the fifth fields of the lines with more than five |
| MountSpec.UpcomingIs | ustat_fs_linux.c:82-116 | tracking the field number byte by byte finds exactly the fifth fields of lines with at least five separators |
| MountSpec.EmptyPointExample | ustat_fs_linux.c:82-116 | the line `a b c d  f` has an empty mount point |
| MountFs.FsTable.Index | ustat_fs_linux.c:82-116 | adds one entry per kept mount point of the buffer as it was, in file order; blanks exactly the separators other than each line's fourth; fails exactly on an empty mount point, with the entries before it added |
| MountFs.BlankedMeans | ustat_fs_linux.c:92-99 | of the spaces and tabs of a line all but the fourth become NUL, and no other byte changes |
| MountFs.FsTable.AddMountEntry | ustat_fs_linux.c:121-153 | nothing for a mount point under /proc, /sys or /dev or without a size, else one entry with its name and terminator, its length, and the total and free bytes `statvfs` reports |
| MountFs.KeptExactly | ustat_fs_linux.c:124-150 | a name is never kept under /proc, /sys or /dev or without a size, and else as often as it occurs |
| MountFs.FsTable.FsInit | ustat_fs.c:32-47 | the table is filled once; the call fails exactly when nothing was kept |
| MountFs.FsSelect | ustat_fs.c:56-75 | the first entry with the argument's suffix as its name, entry 0 when the suffix is empty or unknown |
| MountFs.Lookup | ustat_fs.c:32-75 | from buffer to selected entry: name, length, total and free bytes of the mount point named by the suffix if that is no system mount and has a size, else of the first that is none and has one; it fails exactly if there is none |
| Users.CmpZero | ustat_user.c:37-43 | the comparison is zero exactly when one name is a prefix of the other |
| Users.ConsistentExactly | ustat_user.c:37-43 | the comparison is a consistent order whose zero means the same name if and only if no name is a proper prefix of another |
| Users.RunsExactly | ustat_user.c:84-102 | on memory as the code finds it, a sorted arrangement of prefix-free names has at least as many runs as names, and as many if and only if records of one name show the same bytes up to a NUL |
| Users.RunsAreNames | ustat_user.c:96-102 | in any sorted arrangement of terminated, prefix-free names the adjacent differences count the distinct names |
| Users.CountsExactly | ustat_user.c:96-102 | every sorted list drawn from a pool of terminated records, each any number of times, is counted right if and only if the pool is prefix-free |
| Users.UserCount.NusersInit | ustat_user.c:45-109 | counts once: up to one user process directly; otherwise, for prefix-free names and a `qsort` that sorts, at least the number of different names in the database, and that number if and only if the records of one name agree behind it; overruns a record exactly when of two or more user processes one has no NUL in its first 33 bytes |
| Users.NamesListed | ustat_user.c:86-94 | a name is listed as often as there are user processes whose memory starts with it and a NUL |
| Users.LoginsCounted | ustat_user.c:45-109 | the count, entry by entry of the database |
| Users.UsersCounted | ustat_user.c:45-109 | for prefix-free names, every `qsort` that sorts and any memory, the result is at least the number of distinct names, and equal to it if and only if records of one name agree behind it up to a NUL |
| Users.GarbageMiscounts | ustat_user.c:84-102 | two entries of one name with different bytes right behind it make the result of `nusers_init` too large |
| Users.GarbageExample | ustat_user.c:84-102 | one user logged in twice, with 1 behind the first name and 2 behind the other, is more than one user |
| Users.ZeroAgrees | ustat_user.c:84-102 | on zeroed memory they always agree |
| UserOrders.OrdersExactly | ustat_user.c:96-102 | for one list of records that show their names, every sorted arrangement is counted right if and only if no name that occurs twice is a prefix of a different one or has one as its prefix |
| UserOrders.OrdersOfUsers | ustat_user.c:45-109 | the same for `nusers_init` on zeroed memory and every `qsort` that sorts |
| Dispatch.FirstIsLongest | ustat.c:165-188 | the first match is the unique longest match for every argument if and only if no name is a prefix of a later one |
| Dispatch.ShippedTableIsClean | ustat.c:87-148 | the shipped table has that property |
| Dispatch.PickedReads | ustat.c:87-188 | an argument picks a module that reads the tcp tables, filesystems, memory, load, uptime, users or battery exactly if it starts with `tcp`, `fst`/`fsr`/`fsf`/`fsu`, `mem`, `load`, `ut`, `nusers` or `bat%`/`bat+` |
| Dispatch.NameAndPath | ustat_fs.c:14-18 | a module's name, alone or followed by an absolute path, picks that module |
| Driver.HelpTest | ustat.c:159-161 | help is recognised exactly by an argument starting with -h |
| Driver.Ustat.InitModule | ustat.c:168-180 | the exact new state of every kind of init function; it fails exactly when a needed tcp or filesystem probe does |
| Driver.Ustat.Prepare | ustat.c:165-188 | finds the first match, or the pass-through module, and initialises it unless it is ready |
| Driver.Ustat.Run | ustat.c:154-196 | nothing is printed before all inits are done nor when one fails; a surviving run prints one module per argument, in order, each with a successful init and its data read before; tcp, filesystem and user probes happen at most once, and every memory probe but the last failed; the run survives if and only if every needed probe works |
| Driver.Ustat.RunShipped | ustat.c:154-196 | `main` in arguments alone: which first letters make it look at what, and at what at most once; it gives up exactly if an argument starts with `tcp` or one of the four filesystem prefixes and that probe fails; otherwise every argument is printed, in order, by the module with the longest name that is its prefix |

## Left out

- WriteDouble.WriteDouble: negative values, values whose conversion to an integer C leaves undefined, and digit counts outside 0 to 9, where the `int` scale overflows, are not modelled; nor is IEEE-754 rounding, because the arithmetic is over exact reals.
- ReadDouble.ReadDoubleFromFd: read errors and IEEE-754 rounding are not modelled; a wrapped-around zero divisor is reported as `NotFinite`.
- ReadDouble.ReadsDecimal: states the exact value where whole part and fraction fit 64-bit words; beyond that `ReadsWords` gives the wrapped words.
- Human.WriteUint64Human: a `min` so large that two digits of the value leave the 64-bit range is not modelled; all callers pass 1.
- Decimal.ScanUlong: the 32-bit position does not wrap, because memory ends first.
- ScanHex.ScanHex: accumulates in 64 bits as defined; ustat.h declares a 32-bit target, and the mismatch is not modelled.
- MountFs.FsTable.Index: starts from the filled buffer, without the two sizing reads, and allocation does not fail.
- MountFs.FsSelect: arguments are shorter than 2^32 bytes, so that lengths survive `unsigned int`.
- Users.UserCount.NusersInit: both passes see the same database, and a record is a value, so its in-place copy and swaps are not modelled byte by byte.
- TcpCounters.TcpTables.InitViaProcNetTcp: promises nothing about the tables once a row was counted behind one.
- Dispatch.ShippedName: the names are the table's own data; which print function stands beside a name is not modelled.
- Driver.Ustat.Run: events stand for the texts printed and for the probes, and the help text is not modelled.
- The netlink path, the BSD and macOS probes, battery, memory, load, cpu and process probes: foreign calls.
- Colour modules, date, user id and name, newline, environment lookup: constant tables and single calls.
- `first_n_fields`: not part of the build.
