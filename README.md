# dnsmasq supervisor, modelled in Dafny

This project models the `dnsmasq` package of router-service
(`dnsmasq/dnsmasq.go`). The package supervises the one dnsmasq process that
serves DNS and DHCP on the router's bridge, and it reads back the DHCP leases
that process writes. It has four parts, and each one is modelled in its own
module:

- **Lease parser** (`LeaseParser`, lease_parser.dfy). `convertLeases` turns
  the text of a dnsmasq lease file into `DnsmasqLease` records.
  - `Leases` is the specification: one record per line that is non-empty and
    splits on single spaces into five chunks.
  - `ConvertLeases` is the source's loop, proved equal to `Leases`.
  - The lemmas prove:
    - every accepted line appears, in order, and malformed lines are invisible;
    - the fields of an accepted line are copied verbatim;
    - the expiry time follows `strconv.ParseUint`;
    - rendering a lease and parsing it back gives the same lease.
- **Argument synthesis** (`ArgumentSynthesizer`, argument_synthesizer.dfy).
  `collectInternalArgs` builds dnsmasq's internal arguments, in this order:
  - three fixed flags;
  - one `--trust-anchor=` flag per non-empty line of `/usr/share/dns/root.ds`,
    when that file can be read;
  - one `--dhcp-range=` flag, computed from the bridge address.

  `InternalArgs` is the specification, and `CollectInternalArgs` is the loop,
  proved equal to it.
- **Lease-file path** (`Supervisor.LeasePath`, supervisor.dfy). By default the
  path is `/var/lib/misc/dnsmasq.leases`. Every `--dhcp-leasefile=` argument
  overrides it, so the last one wins. `ReadLeases` computes the path with the
  source's loop, reads the file and parses it.
- **Process lifecycle** (`Supervisor.DnsmasqProcess`, supervisor.dfy). The
  class has a mutable handle `proc: Cmd?`.
  - `IsRunning` holds when a handle is held and the process has not exited.
  - `Start`, `Stop` and `Restart` follow the source's branches.
  - Whether a launch or a kill succeeds is an `Outcome` supplied by the
    environment.
  - Whether the process has exited is the `exited` field of `Cmd`, which only
    the environment sets.

Supporting modules:

- `GoStrings` models the parts of Go's `strings` package the code uses:
  `Split` and `Join` on a one-character separator, `Index`, `Replace` with
  count 1 (`ReplaceFirst`), and `Replace` with count -1 on one character
  (`ReplaceAll`).
- `GoStrconv` models `strconv.ParseUint(s, 10, 64)` exactly as Go scans:
  - digits are read left to right;
  - the first non-digit, or an empty string, is a syntax error, and the
    result is 0;
  - if the value passes 2^64-1 before any non-digit, the result is 2^64-1.
- `Seqs` defines `FilterMap`, the shape shared by both loops: "for each line,
  skip it or append one value". It also holds the generic lemmas about it.
- `Util` defines the error, option and result types, and the file reader
  (`util.FileReaderFn`) as a function value passed in.

Where the code departs from what it evidently intends, the model follows the
code:

- **Launch vector.** `Start` does not launch dnsmasq with the internal
  arguments followed by the configured ones. Both `copy` calls have their
  arguments swapped. The vector is all empty strings, and the configured
  `DnsmasqArgs` are overwritten with empty strings (see Findings).
- **Lease-file path.** The path is the text between the first and the second
  `=` of the argument, not everything after the flag.
- **Lease lines.** Lines are split on single spaces, not on runs of
  whitespace, so a double space adds an empty chunk. A five-field line with
  one has six chunks and is dropped. A four-field line with one has five
  chunks and is accepted with an empty field, the later fields shifted along
  (`LeaseParser.DoubleSpaceAddsChunk`).
- **Expiry time.** Parsing does not always give 0 on failure. An overflowing
  digit string gives 2^64-1, even when a non-digit follows it.
- **Trust-anchor lines.** These are not checked. A non-empty line without
  `. IN DS ` passes through with its spaces turned into commas. So "exactly
  one `--dhcp-range=` flag" holds only when no trust-anchor line is itself
  such a flag. What the model proves is that the last argument is the
  computed range flag.

## Model

| member | source | states |
|---|---|---|
| LeaseParser.ConvertLeases | dnsmasq/dnsmasq.go:115-137 | the loop's result is exactly `Leases(content)`: for each `\n`-separated line that is non-empty and has 5 space-separated chunks, one lease, in line order |
| LeaseParser.LeasesFromAcceptedLines | dnsmasq/dnsmasq.go:117-135 | it gives, for each lease, the line it came from: those lines increase, each is an accepted line parsing to that lease, and every accepted line is among them — one lease per accepted line, in file order, and no error is possible |
| LeaseParser.EmptyContentNoLeases | dnsmasq/dnsmasq.go:117-121 | empty content gives no leases |
| LeaseParser.LeasesOfJoinedLines | dnsmasq/dnsmasq.go:117 | a file assembled from lines without `\n` is parsed line by line, as those very lines |
| LeaseParser.MalformedLinesInvisible | dnsmasq/dnsmasq.go:118-125 | inserting any number of empty or non-5-chunk lines anywhere leaves the parsed leases unchanged |
| LeaseParser.AcceptedLineFields | dnsmasq/dnsmasq.go:122-133 | an accepted line gives a lease whose MAC, IP, host name and client id are chunks 1-4 verbatim. The expiry is the decimal value of chunk 0 when that is all digits and fits in 64 bits. It is 0 when chunk 0 is empty, or when it has a non-digit before the value overflows |
| LeaseParser.DoubleSpaceAddsChunk | dnsmasq/dnsmasq.go:122-133 | a line `e a  b c` with one double space splits into five chunks, the middle one empty, and is accepted as a lease with expiry from `e`, MAC `a`, an empty IP address, host name `b` and client id `c` |
| LeaseParser.LineRoundTrip | dnsmasq/dnsmasq.go:122-133 | rendering a lease whose fields are free of spaces and newlines as `<expiry> <mac> <ip> <host> <client id>` gives a line with no newline, and that line parses back to the same lease |
| LeaseParser.FileRoundTrip | dnsmasq/dnsmasq.go:117-134 | a lease file rendered from such leases, one per line, parses back to exactly those leases in that order |
| GoStrconv.ParseUintDigits | dnsmasq/dnsmasq.go:126 | a non-empty digit string parses to its decimal value when it fits in 64 bits, and to 2^64-1 otherwise |
| GoStrconv.ParseUintNonDigit | dnsmasq/dnsmasq.go:126 | a string whose first non-digit is at k parses to 0 when its digit prefix fits in 64 bits, and to 2^64-1 when it already overflowed |
| GoStrconv.ScanDigits | dnsmasq/dnsmasq.go:126 | scanning a digit string accumulates its value, or ends in the range error when the value exceeds 2^64-1 |
| GoStrconv.ScanErrorFinal | dnsmasq/dnsmasq.go:126 | once the scan has hit a syntax or range error, no further characters change the outcome |
| GoStrconv.FormatUint | dnsmasq/dnsmasq.go:126 | the decimal rendering of a number is a non-empty digit string |
| GoStrconv.ValueOfFormat | dnsmasq/dnsmasq.go:126 | the decimal value of the rendering of n is n |
| GoStrconv.ParseFormat | dnsmasq/dnsmasq.go:126 | parsing the decimal rendering of any 64-bit value gives that value back |
| GoStrings.Split | dnsmasq/dnsmasq.go:117 | splitting gives at least one part, no part contains the separator, and joining the parts with the separator restores the string |
| GoStrings.SplitJoin | dnsmasq/dnsmasq.go:122 | splitting a join of separator-free parts gives back exactly those parts |
| GoStrings.SplitAfterPiece | dnsmasq/dnsmasq.go:77 | a string that starts with a separator-free piece and a separator splits into that piece followed by the split of the rest |
| GoStrings.SplitNoSeparator | dnsmasq/dnsmasq.go:122 | a string without the separator splits into itself alone |
| GoStrings.JoinAvoids | dnsmasq/dnsmasq.go:105 | joining parts that avoid a character, with another separator, avoids that character |
| GoStrings.IndexFrom | dnsmasq/dnsmasq.go:104 | the result is -1 and the pattern does not occur, or the pattern occurs at the result and at no earlier position |
| GoStrings.ReplaceFirstAtStart | dnsmasq/dnsmasq.go:104 | in a string that begins with the pattern, the replacement takes the place of that leading occurrence and the rest is kept |
| GoStrings.ReplaceAll | dnsmasq/dnsmasq.go:105 | the result has the same length, with every occurrence of the character replaced and every other character kept |
| GoStrings.ReplaceAllRemoves | dnsmasq/dnsmasq.go:105 | after replacing a character by a different one (a space by a comma here), that character no longer occurs |
| GoStrings.ReplaceAllConcat | dnsmasq/dnsmasq.go:105 | replacing in a concatenation is replacing in each part |
| GoStrings.ReplaceAllAbsent | dnsmasq/dnsmasq.go:105 | replacing a character that does not occur changes nothing |
| GoStrings.ReplaceAllJoin | dnsmasq/dnsmasq.go:105 | replacing every separator of a join of separator-free parts joins them with the new separator |
| Seqs.FilterMapAppend | dnsmasq/dnsmasq.go:118-135 | filtering a concatenation is the concatenation of the filtered parts |
| Seqs.FilterMapStep | dnsmasq/dnsmasq.go:118-135 | one loop iteration: the result for the first i+1 lines is the result for i lines, plus the value of line i if it gives one |
| Seqs.FilterMapOrigins | dnsmasq/dnsmasq.go:118-135 | each output value comes from an input that gives it, these inputs are in increasing order, and every input that gives a value is one of them |
| Seqs.FilterMapNone | dnsmasq/dnsmasq.go:118-125 | inputs that all give nothing filter to nothing |
| Seqs.FilterMapSkips | dnsmasq/dnsmasq.go:118-125 | inputs that give nothing can be removed anywhere without changing the result |
| Seqs.FilterMapAll | dnsmasq/dnsmasq.go:100-107 | when every input gives a value, the output has one value per input, position for position |
| ArgumentSynthesizer.CollectInternalArgs | dnsmasq/dnsmasq.go:91-113 | the loop's result is exactly `InternalArgs` of what the reader gives for `/usr/share/dns/root.ds` and of the bridge address |
| ArgumentSynthesizer.InternalArgsShape | dnsmasq/dnsmasq.go:92-112 | the arguments are `--keep-in-foreground`, `--conf-dir=/etc/dnsmasq.d,.dpkg-dist,.dpkg-old,.dpkg-new` and `--local-service`, then the trust-anchor arguments, none containing a space, then the dhcp-range flag last. There are 4 plus the number of non-empty lines when the file was read, and exactly 4 when reading failed |
| ArgumentSynthesizer.TrustAnchorArg | dnsmasq/dnsmasq.go:104-105 | the argument made from a line contains no space |
| ArgumentSynthesizer.TrustAnchorCount | dnsmasq/dnsmasq.go:99-107 | the number of trust-anchor arguments is the number of non-empty lines |
| ArgumentSynthesizer.TrustAnchorArgsFromLines | dnsmasq/dnsmasq.go:99-107 | each trust-anchor argument comes from a non-empty line, in line order, and every non-empty line yields one |
| ArgumentSynthesizer.TrustAnchorArgsNoSpace | dnsmasq/dnsmasq.go:99-106 | no argument made from the trust-anchor file contains a space |
| ArgumentSynthesizer.DsRecordArg | dnsmasq/dnsmasq.go:104-105 | a line `. IN DS ` followed by space-separated fields becomes `--trust-anchor=.,` followed by the same fields separated by commas |
| ArgumentSynthesizer.RootAnchorExample | dnsmasq/dnsmasq.go:104-105 | `. IN DS 20326 8 2 <digest>` becomes `--trust-anchor=.,20326,8,2,<digest>` for any digest without spaces |
| ArgumentSynthesizer.FlagHasNoSpace | dnsmasq/dnsmasq.go:104 | the replacement text `--trust-anchor=.,` contains no space |
| ArgumentSynthesizer.PlainLinePassesThrough | dnsmasq/dnsmasq.go:104-105 | a non-empty line with no space and no `. IN DS ` is passed through unchanged as an argument |
| ArgumentSynthesizer.DhcpRangeOfAddress | dnsmasq/dnsmasq.go:109-111 | for an address whose first three dot-separated parts are a, b, c, the flag is `--dhcp-range=a.b.c.50,a.b.c.250,12h` |
| ArgumentSynthesizer.DhcpRangeExample | dnsmasq/dnsmasq.go:109-111 | bridge address `10.1.2.1` gives `--dhcp-range=` followed by `10.1.2.50,10.1.2.250,12h` |
| Supervisor.FlagSplit | dnsmasq/dnsmasq.go:77 | an argument starting with `--dhcp-leasefile=` splits on `=` into `--dhcp-leasefile` followed by the split of the rest, so index 1 always exists |
| Supervisor.FlagValueSegment | dnsmasq/dnsmasq.go:77 | the path taken from `--dhcp-leasefile=p` is p, and from `--dhcp-leasefile=p=...` it is still p |
| Supervisor.LeasePathDefault | dnsmasq/dnsmasq.go:74-79 | with no `--dhcp-leasefile=` argument the path is `/var/lib/misc/dnsmasq.leases` |
| Supervisor.LeasePathLastFlag | dnsmasq/dnsmasq.go:75-78 | otherwise the path is the value of the last `--dhcp-leasefile=` argument |
| Supervisor.DnsmasqProcess.ReadLeases | dnsmasq/dnsmasq.go:73-85 | the loop computes `LeasePath` of the configured arguments. A reader error for that path is returned unchanged, with no leases. Otherwise the result is the leases parsed from the file's content |
| Supervisor.Blanks | dnsmasq/dnsmasq.go:37 | a freshly made slice of n strings holds n empty strings |
| Supervisor.Copy | dnsmasq/dnsmasq.go:38-39 | Go's `copy` copies as many elements as the shorter side has, from the front of the source to the given offset of the destination, and leaves the rest of the destination alone |
| Supervisor.AssembleArgsAsWritten | dnsmasq/dnsmasq.go:37-39 | the two copies as written produce a fresh vector of `len(internal)+len(extra)` empty strings and overwrite the configured arguments with empty strings |
| Supervisor.AsWrittenLosesArguments | dnsmasq/dnsmasq.go:36-40 | for every trust-anchor file, bridge address and configuration, the vector as written is not the internal arguments followed by the configured ones |
| Supervisor.AssembleArgs | dnsmasq/dnsmasq.go:37-39 | the corrected assembly produces the internal arguments followed by the configured ones, and leaves the configuration alone |
| Supervisor.Cmd.constructor | dnsmasq/dnsmasq.go:40 | a new command for `dnsmasq` with the given vector has not exited |
| Supervisor.DnsmasqProcess.constructor | dnsmasq/dnsmasq.go:27-32 | a new supervisor holds the given configuration and no process |
| Supervisor.DnsmasqProcess.Start | dnsmasq/dnsmasq.go:34-48 | while running: returns nil, and keeps the handle and the configuration. Otherwise the configured arguments become empty strings. A failed launch returns its error and keeps the old handle. A successful launch holds a new, running `dnsmasq` command whose vector is `len(InternalArgs)+len(DnsmasqArgs)` empty strings |
| Supervisor.DnsmasqProcess.Stop | dnsmasq/dnsmasq.go:50-59 | while not running: returns nil and keeps the handle. A failed kill returns its error and keeps the handle. A successful kill drops the handle |
| Supervisor.DnsmasqProcess.Restart | dnsmasq/dnsmasq.go:61-71 | a failed kill is returned without Start being attempted, and handle and configuration are unchanged. Otherwise Restart ends as Start from the not-running state: a failed launch returns its error and leaves the supervisor not running, and a successful one holds a fresh running `dnsmasq` command whose vector is all empty strings. When nothing was running, this is exactly Start alone |
| Supervisor.StartTwice | dnsmasq/dnsmasq.go:34-47 | two Starts with no Stop between them launch one process: the second Start keeps the handle the first created |

## Left out

- Process creation and signalling are not modelled. `exec.Command` with `util.ExecPipeCmd`, and `Process.Kill`, appear only as an `Outcome` parameter, success or an error. Piping of the standard streams is not modelled.
- `ProcessState.Exited()` is modelled as the `exited` flag of `Cmd`, which only the environment sets. Real process liveness is not modelled. Neither is the case where `ProcessState` is still nil because the process has not been waited for, which the Go runtime decides.
- The implementation of `util.FileReaderFn` and `context.MainContext` is not part of this model. The reader is a function from path to content or error, passed to each call. The configuration is a `Config` object holding the bridge address and the `DnsmasqArgs` array.
- Concurrency is not modelled: concurrent callers, and dnsmasq rewriting its lease file while it is read. The code has no locking.
- A bridge address with fewer than three `.`-separated parts makes the code panic on `[:3]`. In the model this is a precondition of `InternalArgs`, `CollectInternalArgs`, `Start` and `Restart`.
- Supervisor.Copy: requires two distinct arrays. Go's `copy` also handles overlapping slices, which `Start` never passes.
- Supervisor.DnsmasqProcess.Start: the model keeps the as-written argument assembly (see Findings). The corrected `AssembleArgs` is proved on its own, and `Start` does not use it.
- The concrete lease line `1700000000 aa:bb:cc:dd:ee:ff 10.1.2.50 myhost 01:aa:bb` has no lemma of its own. Evaluating its literal ten-digit expiry is too costly for the solver. `AcceptedLineFields` and `ParseUintDigits` state the outcome for every line of that shape: fields verbatim, and the expiry is the decimal value.
- Go strings are byte sequences and may hold invalid UTF-8. The model uses Dafny `string`, a sequence of characters. Every separator and pattern the code uses (`\n`, space, `=`, `.`, `. IN DS `) is ASCII, so splitting and replacing behave the same on any text both can represent.
- DNS, DHCP and DNSSEC meaning is not modelled. Trust-anchor lines are not checked against the DS record format of section 5.3 of RFC 4034, and neither does the code check them.

## Findings

| source | as written | input that shows it | evidently intended | confidence | as-written member | corrected member |
|---|---|---|---|---|---|---|
| dnsmasq/dnsmasq.go:37-39 | `copy` takes the destination first, and both calls name the fresh empty vector as the source. Empty strings overwrite the internal arguments and the configured `DnsmasqArgs`, and dnsmasq is launched with a vector of empty strings | Start from not running, with the trust-anchor file unreadable and bridge address `10.1.2.1`: dnsmasq is launched with `4 + len(DnsmasqArgs)` empty arguments (4 with no configured arguments) instead of `--keep-in-foreground … --dhcp-range=10.1.2.50,10.1.2.250,12h` | the launch vector is the internal arguments followed by the configured ones, and the configuration is left unchanged | high; not executed | Supervisor.AssembleArgsAsWritten, Supervisor.AsWrittenLosesArguments | Supervisor.AssembleArgs |
