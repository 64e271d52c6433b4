/** collectInternalArgs: the arguments the supervisor itself gives dnsmasq,
    ahead of the configured ones. */
module ArgumentSynthesizer {
  import opened Util
  import opened GoStrings
  import opened Seqs

  /** Keep dnsmasq attached, read its configuration directory (skipping
      package-manager leftovers), and serve local networks only. */
  const FixedArgs: seq<string> := [
    "--keep-in-foreground",
    "--conf-dir=/etc/dnsmasq.d,.dpkg-dist,.dpkg-old,.dpkg-new",
    "--local-service"
  ]

  /** The DNSSEC root trust-anchor file; one DS record per line, in the
      presentation format of section 5.3 of RFC 4034. */
  const TrustAnchorPath: string := "/usr/share/dns/root.ds"

  /** What a root-zone DS record line starts with, and what replaces it. */
  const DsRecordStart: string := ". IN DS "
  const TrustAnchorFlag: string := "--trust-anchor=.,"

  const DhcpRangeFlag: string := "--dhcp-range="

  /** One line of the trust-anchor file as a flag: the first ". IN DS "
      becomes "--trust-anchor=.,", then every space a comma. The line is not
      checked against the record format. */
  function TrustAnchorArg(line: string): (arg: string)
    ensures ' ' !in arg
  {
    ReplaceAllRemoves(ReplaceFirst(line, DsRecordStart, TrustAnchorFlag), ' ', ',');
    ReplaceAll(ReplaceFirst(line, DsRecordStart, TrustAnchorFlag), ' ', ',')
  }

  /** Empty lines of the trust-anchor file are skipped. */
  function TrustAnchorLine(line: string): Option<string>
  {
    if line == "" then None else Some(TrustAnchorArg(line))
  }

  function TrustAnchorArgs(content: string): seq<string>
  {
    FilterMap(TrustAnchorLine, Split(content, '\n'))
  }

  /** The DHCP pool flag: hosts .50 to .250 of the first three dot-separated
      parts of the bridge address, leases of 12 hours. */
  function DhcpRangeArg(bridgeAddr: string): string
    requires |Split(bridgeAddr, '.')| >= 3
  {
    var ipPrefix := Join(Split(bridgeAddr, '.')[..3], '.');
    DhcpRangeFlag + ipPrefix + ".50," + ipPrefix + ".250,12h"
  }

  /** The internal arguments: the fixed flags, a flag per non-empty line of
      the trust-anchor file when it could be read, the DHCP range flag. */
  function InternalArgs(trustAnchor: ReadResult, bridgeAddr: string): seq<string>
    requires |Split(bridgeAddr, '.')| >= 3
  {
    FixedArgs
    + (match trustAnchor case Read(content) => TrustAnchorArgs(content) case ReadError(_) => [])
    + [DhcpRangeArg(bridgeAddr)]
  }

  /** collectInternalArgs, as the source's loop computes it. An address with
      fewer than three dot-separated parts makes the source panic. */
  method CollectInternalArgs(readFile: FileReader, bridgeAddr: string) returns (args: seq<string>)
    requires |Split(bridgeAddr, '.')| >= 3
    ensures args == InternalArgs(readFile(TrustAnchorPath), bridgeAddr)
  {
    args := FixedArgs;
    var trustAnchor := readFile(TrustAnchorPath);
    if trustAnchor.Read? {
      var lines := Split(trustAnchor.content, '\n');
      for i := 0 to |lines|
        invariant args == FixedArgs + FilterMap(TrustAnchorLine, lines[..i])
      {
        FilterMapStep(TrustAnchorLine, lines, i);
        var line := lines[i];
        if line == "" {
          continue;
        }
        var a := ReplaceFirst(line, DsRecordStart, TrustAnchorFlag);
        a := ReplaceAll(a, ' ', ',');
        assert TrustAnchorLine(line) == Some(a);
        assert args + [a] == FixedArgs + (FilterMap(TrustAnchorLine, lines[..i]) + [a]);
        args := args + [a];
      }
      assert lines[..|lines|] == lines;
    }
    var dhcpIPChunks := Split(bridgeAddr, '.');
    var ipPrefix := Join(dhcpIPChunks[..3], '.');
    var dhcpRange := DhcpRangeFlag + ipPrefix + ".50," + ipPrefix + ".250,12h";
    assert dhcpRange == DhcpRangeArg(bridgeAddr);
    args := args + [dhcpRange];
  }

  function CountNonEmpty(lines: seq<string>): nat
  {
    if lines == [] then 0 else (if lines[0] != "" then 1 else 0) + CountNonEmpty(lines[1..])
  }

  lemma {:induction false} TrustAnchorCount(lines: seq<string>)
    ensures |FilterMap(TrustAnchorLine, lines)| == CountNonEmpty(lines)
    decreases |lines|
  {
    if lines != [] {
      TrustAnchorCount(lines[1..]);
    }
  }

  /** Where the parts of `front + middle + [last]` sit. */
  lemma Layout(front: seq<string>, middle: seq<string>, last: string)
    ensures var all := front + middle + [last];
      && |all| == |front| + |middle| + 1
      && all[..|front|] == front
      && all[|all| - 1] == last
      && forall i :: |front| <= i < |all| - 1 ==> all[i] == middle[i - |front|]
  {
  }

  /** The shape of the internal arguments: the three fixed flags first, the
      DHCP range flag last, and between them one space-free flag per
      non-empty trust-anchor line, none when the file cannot be read. */
  lemma InternalArgsShape(trustAnchor: ReadResult, bridgeAddr: string)
    requires |Split(bridgeAddr, '.')| >= 3
    ensures var args := InternalArgs(trustAnchor, bridgeAddr);
      && args[..3] == FixedArgs
      && args[|args| - 1] == DhcpRangeArg(bridgeAddr)
      && |args| == 4 + (match trustAnchor
                        case Read(content) => CountNonEmpty(Split(content, '\n'))
                        case ReadError(_) => 0)
      && forall i :: 3 <= i < |args| - 1 ==> ' ' !in args[i]
  {
    var args := InternalArgs(trustAnchor, bridgeAddr);
    var middle := match trustAnchor case Read(content) => TrustAnchorArgs(content) case ReadError(_) => [];
    Layout(FixedArgs, middle, DhcpRangeArg(bridgeAddr));
    if trustAnchor.Read? {
      TrustAnchorCount(Split(trustAnchor.content, '\n'));
      TrustAnchorArgsNoSpace(trustAnchor.content);
    }
  }

  /** No trust-anchor argument contains a space. */
  lemma TrustAnchorArgsNoSpace(content: string)
    ensures forall i :: 0 <= i < |TrustAnchorArgs(content)| ==> ' ' !in TrustAnchorArgs(content)[i]
  {
    var lines := Split(content, '\n');
    var idx := FilterMapOrigins(TrustAnchorLine, lines);
    forall i | 0 <= i < |TrustAnchorArgs(content)| ensures ' ' !in TrustAnchorArgs(content)[i] {
      assert TrustAnchorLine(lines[idx[i]]) == Some(TrustAnchorArgs(content)[i]);
    }
  }

  /** Each non-empty trust-anchor line gives exactly one flag, in line order:
      `idx` lists, increasing, the line each flag comes from, and every
      non-empty line is listed. */
  lemma TrustAnchorArgsFromLines(content: string) returns (idx: seq<nat>)
    ensures var lines, args := Split(content, '\n'), TrustAnchorArgs(content);
      && |idx| == |args|
      && (forall i :: 0 <= i < |idx| ==>
            idx[i] < |lines| && lines[idx[i]] != "" && args[i] == TrustAnchorArg(lines[idx[i]]))
      && (forall i, j :: 0 <= i < j < |idx| ==> idx[i] < idx[j])
      && (forall k :: 0 <= k < |lines| && lines[k] != "" ==> k in idx)
  {
    var lines := Split(content, '\n');
    idx := FilterMapOrigins(TrustAnchorLine, lines);
    assert forall k :: 0 <= k < |lines| && lines[k] != "" ==> TrustAnchorLine(lines[k]).Some?;
  }

  /** A root DS record "<. IN DS> key-tag algorithm digest-type digest"
      becomes "--trust-anchor=.,key-tag,algorithm,digest-type,digest". */
  lemma DsRecordArg(fields: seq<string>)
    requires |fields| >= 1
    requires forall i :: 0 <= i < |fields| ==> ' ' !in fields[i]
    ensures TrustAnchorArg(DsRecordStart + Join(fields, ' ')) == TrustAnchorFlag + Join(fields, ',')
  {
    ReplaceFirstAtStart(DsRecordStart, TrustAnchorFlag, Join(fields, ' '));
    ReplaceAllConcat(TrustAnchorFlag, Join(fields, ' '), ' ', ',');
    FlagHasNoSpace();
    ReplaceAllAbsent(TrustAnchorFlag, ' ', ',');
    ReplaceAllJoin(fields, ' ', ',');
  }

  lemma FlagHasNoSpace()
    ensures ' ' !in TrustAnchorFlag
  {
    forall i | 0 <= i < |TrustAnchorFlag| ensures TrustAnchorFlag[i] != ' ' {}
  }

  /** A line without ". IN DS " and without spaces is passed through as it
      is; the file's content is not validated. */
  lemma PlainLinePassesThrough(line: string)
    requires line != "" && ' ' !in line && Index(line, DsRecordStart) == -1
    ensures TrustAnchorLine(line) == Some(line)
  {
    ReplaceAllAbsent(line, ' ', ',');
  }

  /** For a bridge address a.b.c.(...), the pool runs from a.b.c.50 to
      a.b.c.250. */
  lemma DhcpRangeOfAddress(a: string, b: string, c: string, rest: seq<string>)
    requires '.' !in a && '.' !in b && '.' !in c
    requires forall i :: 0 <= i < |rest| ==> '.' !in rest[i]
    ensures |Split(Join([a, b, c] + rest, '.'), '.')| >= 3
    ensures var p := a + "." + b + "." + c;
      DhcpRangeArg(Join([a, b, c] + rest, '.')) == DhcpRangeFlag + p + ".50," + p + ".250,12h"
  {
    var parts := [a, b, c] + rest;
    SplitJoin(parts, '.');
    assert parts[..3] == [a, b, c];
    JoinThree(a, b, c, '.');
  }

  /** The root key-signing key's DS record, as the trust-anchor file holds it
      (the digest being any space-free string). */
  lemma RootAnchorExample(digest: string)
    requires ' ' !in digest
    ensures TrustAnchorArg(". IN DS 20326 8 2 " + digest) == "--trust-anchor=.,20326,8,2," + digest
  {
    var fields := ["20326", "8", "2", digest];
    assert forall i :: 0 <= i < |fields| ==> ' ' !in fields[i];
    DsRecordArg(fields);
    JoinFour("20326", "8", "2", digest, ' ');
    JoinFour("20326", "8", "2", digest, ',');
    RootAnchorLine();
    RootAnchorFlag();
    assert ". IN DS 20326 8 2 " + digest == DsRecordStart + ("20326" + " " + "8" + " " + "2" + " " + digest);
    assert "--trust-anchor=.,20326,8,2," + digest == TrustAnchorFlag + ("20326" + "," + "8" + "," + "2" + "," + digest);
  }

  lemma RootAnchorLine()
    ensures ". IN DS 20326 8 2 " == DsRecordStart + ("20326" + " " + "8" + " " + "2" + " ")
  {
    var r := DsRecordStart + ("20326" + " " + "8" + " " + "2" + " ");
    forall i | 0 <= i < 18 ensures r[i] == ". IN DS 20326 8 2 "[i] {}
  }

  lemma RootAnchorFlag()
    ensures "--trust-anchor=.,20326,8,2," == TrustAnchorFlag + ("20326" + "," + "8" + "," + "2" + ",")
  {
    var r := TrustAnchorFlag + ("20326" + "," + "8" + "," + "2" + ",");
    forall i | 0 <= i < 27 ensures r[i] == "--trust-anchor=.,20326,8,2,"[i] {}
  }

  /** The bridge address 10.1.2.1 gives the pool 10.1.2.50 to 10.1.2.250:
      the flag `--dhcp-range=10.1.2.50,10.1.2.250,12h`. */
  lemma DhcpRangeExample()
    ensures DhcpRangeArg("10.1.2.1") == DhcpRangeFlag + "10.1.2" + ".50," + "10.1.2" + ".250,12h"
  {
    ExampleAddress();
    DhcpRangeOfAddress("10", "1", "2", ["1"]);
    var p := "10" + "." + "1" + "." + "2";
    forall i | 0 <= i < 6 ensures p[i] == "10.1.2"[i] {}
    assert p == "10.1.2";
  }

  lemma ExampleAddress()
    ensures Join(["10", "1", "2"] + ["1"], '.') == "10.1.2.1"
  {
    var parts := ["10", "1", "2"] + ["1"];
    assert parts == ["10", "1", "2", "1"];
    assert Join(parts[3..], '.') == "1";
    assert Join(parts[2..], '.') == "2.1";
    assert Join(parts[1..], '.') == "1.2.1";
  }
}
