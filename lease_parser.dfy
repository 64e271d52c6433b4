/** convertLeases: the text of dnsmasq's lease database to lease records. */
module LeaseParser {
  import opened Util
  import opened GoStrings
  import opened GoStrconv
  import opened Seqs

  /** DnsmasqLease: one line of the lease file. */
  datatype Lease = Lease(
    expireTimeStamp: Uint64,
    macAddr: string,
    ipAddr: string,
    hostName: string,
    clientId: string)

  /** The lease one line stands for: none for an empty line or for a line that
      does not split on single spaces into exactly five chunks. */
  function LineLease(line: string): Option<Lease>
  {
    if line == "" then None
    else
      var chunks := Split(line, ' ');
      if |chunks| != 5 then None
      else Some(Lease(ParseUint(chunks[0]), chunks[1], chunks[2], chunks[3], chunks[4]))
  }

  /** The leases in the content of a lease file, one per accepted line. */
  function Leases(content: string): seq<Lease>
  {
    FilterMap(LineLease, Split(content, '\n'))
  }

  /** convertLeases, as the source's loop computes it. */
  method ConvertLeases(leasesContent: string) returns (leases: seq<Lease>)
    ensures leases == Leases(leasesContent)
  {
    leases := [];
    var lines := Split(leasesContent, '\n');
    for i := 0 to |lines|
      invariant leases == FilterMap(LineLease, lines[..i])
    {
      FilterMapStep(LineLease, lines, i);
      var line := lines[i];
      if line == "" {
        continue;
      }
      var chunks := Split(line, ' ');
      if |chunks| != 5 {
        continue;
      }
      var expTime := ParseUint(chunks[0]);
      var l := Lease(expTime, chunks[1], chunks[2], chunks[3], chunks[4]);
      leases := leases + [l];
    }
    assert lines[..|lines|] == lines;
  }

  /** Empty content holds no lease. */
  lemma EmptyContentNoLeases()
    ensures Leases("") == []
  {
    SplitNoSeparator("", '\n');
  }

  /** Exactly the accepted lines give leases, one each and in line order:
      `idx` lists, increasing, the line each lease comes from, and every
      accepted line is listed. No line can make the parse fail. */
  lemma LeasesFromAcceptedLines(content: string) returns (idx: seq<nat>)
    ensures var lines, leases := Split(content, '\n'), Leases(content);
      && |idx| == |leases|
      && (forall i :: 0 <= i < |idx| ==> idx[i] < |lines| && LineLease(lines[idx[i]]) == Some(leases[i]))
      && (forall i, j :: 0 <= i < j < |idx| ==> idx[i] < idx[j])
      && (forall k :: 0 <= k < |lines| && LineLease(lines[k]).Some? ==> k in idx)
  {
    idx := FilterMapOrigins(LineLease, Split(content, '\n'));
  }

  /** The leases of a file assembled from lines are those of its lines. */
  lemma LeasesOfJoinedLines(lines: seq<string>)
    requires forall i :: 0 <= i < |lines| ==> '\n' !in lines[i]
    ensures Leases(Join(lines, '\n')) == FilterMap(LineLease, lines)
  {
    if lines == [] {
      assert Split("", '\n') == [""];
    } else {
      SplitJoin(lines, '\n');
    }
  }

  /** Malformed lines anywhere in the file are invisible: the leases are
      those of the file without them, in the same order. */
  lemma MalformedLinesInvisible(before: seq<string>, malformed: seq<string>, after: seq<string>)
    requires forall i :: 0 <= i < |before| ==> '\n' !in before[i]
    requires forall i :: 0 <= i < |malformed| ==> '\n' !in malformed[i] && LineLease(malformed[i]) == None
    requires forall i :: 0 <= i < |after| ==> '\n' !in after[i]
    ensures Leases(Join(before + malformed + after, '\n')) == Leases(Join(before + after, '\n'))
  {
    LeasesOfJoinedLines(before + malformed + after);
    LeasesOfJoinedLines(before + after);
    FilterMapSkips(LineLease, before, malformed, after);
  }

  /** What an accepted line's lease holds: chunks 1 to 4 verbatim, and as
      expiry the decimal value of chunk 0 when that is a non-empty digit
      string that fits in 64 bits, 0 when it is empty or has a non-digit
      before any overflow. */
  lemma AcceptedLineFields(line: string)
    requires line != "" && |Split(line, ' ')| == 5
    ensures var c := Split(line, ' ');
      && LineLease(line).Some?
      && var l := LineLease(line).value;
      && l.macAddr == c[1] && l.ipAddr == c[2] && l.hostName == c[3] && l.clientId == c[4]
      && (c[0] != "" && AllDigits(c[0]) && Value(c[0]) <= MaxUint64 ==> l.expireTimeStamp == Value(c[0]))
      && (c[0] == "" ==> l.expireTimeStamp == 0)
      && (forall k :: (0 <= k < |c[0]| && AllDigits(c[0][..k]) && !IsDigit(c[0][k])
                       && Value(c[0][..k]) <= MaxUint64) ==> l.expireTimeStamp == 0)
  {
    var c := Split(line, ' ');
    if c[0] != "" && AllDigits(c[0]) {
      ParseUintDigits(c[0]);
    }
    forall k | 0 <= k < |c[0]| && AllDigits(c[0][..k]) && !IsDigit(c[0][k])
      ensures ParseUint(c[0]) == if Value(c[0][..k]) <= MaxUint64 then 0 else MaxUint64
    {
      ParseUintNonDigit(c[0], k);
    }
  }

  /** Chunks are separated by single spaces, so a double space adds an empty
      chunk: a four-field line with one has five chunks and is accepted,
      with an empty IP address and the later fields shifted along. */
  lemma DoubleSpaceAddsChunk(e: string, a: string, b: string, c: string)
    requires ' ' !in e && ' ' !in a && ' ' !in b && ' ' !in c
    ensures LineLease(e + " " + a + "  " + b + " " + c) == Some(Lease(ParseUint(e), a, "", b, c))
  {
    var parts := [e, a, "", b, c];
    assert parts[1..] == [a, "", b, c];
    JoinFour(a, "", b, c, ' ');
    assert Join(parts, ' ') == e + [' '] + (a + [' '] + "" + [' '] + b + [' '] + c);
    assert e + " " + a + "  " + b + " " + c == Join(parts, ' ');
    assert forall i :: 0 <= i < |parts| ==> ' ' !in parts[i];
    SplitJoin(parts, ' ');
  }

  /** A field that can be written into a lease line. */
  predicate FieldOk(f: string)
  {
    ' ' !in f && '\n' !in f
  }

  predicate Writable(l: Lease)
  {
    FieldOk(l.macAddr) && FieldOk(l.ipAddr) && FieldOk(l.hostName) && FieldOk(l.clientId)
  }

  /** The line dnsmasq writes for a lease: "<expiry> <mac> <ip> <host> <client-id>". */
  function LeaseLine(l: Lease): string
  {
    Join([FormatUint(l.expireTimeStamp), l.macAddr, l.ipAddr, l.hostName, l.clientId], ' ')
  }

  /** A lease file: one line per lease. */
  function LeaseFile(ls: seq<Lease>): string
  {
    Join(seq(|ls|, i requires 0 <= i < |ls| => LeaseLine(ls[i])), '\n')
  }

  /** Reading back a written line gives the lease. */
  lemma LineRoundTrip(l: Lease)
    requires Writable(l)
    ensures '\n' !in LeaseLine(l)
    ensures LineLease(LeaseLine(l)) == Some(l)
  {
    var fields := [FormatUint(l.expireTimeStamp), l.macAddr, l.ipAddr, l.hostName, l.clientId];
    assert forall i :: 0 <= i < 5 ==> ' ' !in fields[i] && '\n' !in fields[i];
    SplitJoin(fields, ' ');
    JoinAvoids(fields, ' ', '\n');
    ParseFormat(l.expireTimeStamp);
  }

  /** Reading back a written lease file gives exactly the leases, in order. */
  lemma FileRoundTrip(ls: seq<Lease>)
    requires forall i :: 0 <= i < |ls| ==> Writable(ls[i])
    ensures Leases(LeaseFile(ls)) == ls
  {
    var lines := seq(|ls|, i requires 0 <= i < |ls| => LeaseLine(ls[i]));
    forall i | 0 <= i < |ls| ensures '\n' !in lines[i] && LineLease(lines[i]) == Some(ls[i]) {
      LineRoundTrip(ls[i]);
    }
    LeasesOfJoinedLines(lines);
    FilterMapAll(LineLease, lines);
    var r := FilterMap(LineLease, lines);
    assert forall i :: 0 <= i < |ls| ==> r[i] == ls[i];
  }
}
