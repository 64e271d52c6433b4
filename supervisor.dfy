/** DnsmasqProcess: supervision of the one dnsmasq process, and its lease
    file. */
module Supervisor {
  import opened Util
  import opened GoStrings
  import opened LeaseParser
  import opened ArgumentSynthesizer

  const DefaultLeaseFilePath: string := "/var/lib/misc/dnsmasq.leases"
  const LeaseFileFlag: string := "--dhcp-leasefile="

  /** The lease-file path the configured arguments select: the default,
      replaced by every --dhcp-leasefile= argument in turn, so that the last
      one wins. */
  function LeasePath(args: seq<string>): string
  {
    if args == [] then DefaultLeaseFilePath
    else
      var arg := args[|args| - 1];
      if LeaseFileFlag <= arg then FlagValue(arg) else LeasePath(args[..|args| - 1])
  }

  /** strings.Split(arg, "=")[1]: the text between the first and the second
      '=', not everything after the flag. */
  function FlagValue(arg: string): string
    requires LeaseFileFlag <= arg
  {
    FlagSplit(arg);
    Split(arg, '=')[1]
  }

  lemma FlagSplit(arg: string)
    requires LeaseFileFlag <= arg
    ensures Split(arg, '=') == ["--dhcp-leasefile"] + Split(arg[|LeaseFileFlag|..], '=')
  {
    assert arg == "--dhcp-leasefile" + ['='] + arg[|LeaseFileFlag|..] by {
      assert arg[..|LeaseFileFlag|] == LeaseFileFlag;
    }
    assert '=' !in "--dhcp-leasefile" by {
      forall i | 0 <= i < |"--dhcp-leasefile"| ensures "--dhcp-leasefile"[i] != '=' {}
    }
    SplitAfterPiece("--dhcp-leasefile", '=', arg[|LeaseFileFlag|..]);
  }

  /** The value of --dhcp-leasefile=p is p when p holds no '=', and the part
      of p before its first '=' otherwise. */
  lemma FlagValueSegment(p: string, rest: string)
    requires '=' !in p
    requires rest == "" || rest[0] == '='
    ensures FlagValue(LeaseFileFlag + p + rest) == p
  {
    var arg := LeaseFileFlag + p + rest;
    FlagSplit(arg);
    assert arg[|LeaseFileFlag|..] == p + rest;
    if rest == "" {
      assert p + rest == p;
      SplitNoSeparator(p, '=');
    } else {
      assert p + rest == p + ['='] + rest[1..];
      SplitAfterPiece(p, '=', rest[1..]);
    }
  }

  /** With no --dhcp-leasefile= argument, the default path. */
  lemma {:induction false} LeasePathDefault(args: seq<string>)
    requires forall i :: 0 <= i < |args| ==> !(LeaseFileFlag <= args[i])
    ensures LeasePath(args) == DefaultLeaseFilePath
    decreases |args|
  {
    if args != [] {
      LeasePathDefault(args[..|args| - 1]);
    }
  }

  /** Otherwise the value of the last --dhcp-leasefile= argument. */
  lemma {:induction false} LeasePathLastFlag(args: seq<string>, k: nat)
    requires k < |args| && LeaseFileFlag <= args[k]
    requires forall j :: k < j < |args| ==> !(LeaseFileFlag <= args[j])
    ensures LeasePath(args) == FlagValue(args[k])
    decreases |args|
  {
    if k < |args| - 1 {
      LeasePathLastFlag(args[..|args| - 1], k);
    }
  }

  /** A slice of n empty strings: what make([]string, n) holds. */
  function Blanks(n: nat): (s: seq<string>)
    ensures |s| == n && forall i :: 0 <= i < n ==> s[i] == ""
  {
    seq(n, _ => "")
  }

  /** Go's copy(dst[dstFrom:], src[srcFrom:]) on two distinct arrays: as many
      elements as both sides have, from the front. */
  method Copy<T>(dst: array<T>, dstFrom: nat, src: array<T>, srcFrom: nat) returns (n: nat)
    requires dstFrom <= dst.Length && srcFrom <= src.Length
    requires dst != src
    modifies dst
    ensures n == if dst.Length - dstFrom <= src.Length - srcFrom then dst.Length - dstFrom else src.Length - srcFrom
    ensures forall k :: 0 <= k < dst.Length ==>
      dst[k] == if dstFrom <= k < dstFrom + n then src[srcFrom + (k - dstFrom)] else old(dst[k])
  {
    n := if dst.Length - dstFrom <= src.Length - srcFrom then dst.Length - dstFrom else src.Length - srcFrom;
    for i := 0 to n
      invariant forall k :: 0 <= k < dst.Length ==>
        dst[k] == if dstFrom <= k < dstFrom + i then src[srcFrom + (k - dstFrom)] else old(dst[k])
    {
      dst[dstFrom + i] := src[srcFrom + i];
    }
  }

  /** The argument vector as Start assembles it: `args` is made with room
      for the internal and the configured arguments, then copy(internalArgs,
      args) and copy(DnsmasqArgs, args[len(internalArgs):]) copy the fresh
      empty strings OVER the internal arguments and over the configured ones,
      instead of the other way round. */
  method AssembleArgsAsWritten(internalArgs: seq<string>, extra: array<string>) returns (args: array<string>)
    modifies extra
    ensures fresh(args)
    ensures args[..] == Blanks(|internalArgs| + extra.Length)
    ensures extra[..] == Blanks(extra.Length)
  {
    args := new string[|internalArgs| + extra.Length](_ => "");
    var internal := new string[|internalArgs|](i requires 0 <= i < |internalArgs| => internalArgs[i]);
    var _ := Copy(internal, 0, args, 0);
    var _ := Copy(extra, 0, args, |internalArgs|);
    assert args[..] == Blanks(args.Length);
  }

  /** The intended assembly: the internal arguments followed by the
      configured ones, which are left as they are. */
  method AssembleArgs(internalArgs: seq<string>, extra: array<string>) returns (args: array<string>)
    ensures fresh(args)
    ensures args[..] == internalArgs + extra[..]
  {
    args := new string[|internalArgs| + extra.Length](_ => "");
    var internal := new string[|internalArgs|](i requires 0 <= i < |internalArgs| => internalArgs[i]);
    var _ := Copy(args, 0, internal, 0);
    var _ := Copy(args, |internalArgs|, extra, 0);
    assert args[..] == internalArgs + extra[..];
  }

  /** Whatever the trust-anchor file and the configuration hold, the vector
      Start launches dnsmasq with is not the internal arguments followed by
      the configured ones: it starts with "" where "--keep-in-foreground"
      belongs. */
  lemma AsWrittenLosesArguments(trustAnchor: ReadResult, bridgeAddr: string, extra: seq<string>)
    requires |Split(bridgeAddr, '.')| >= 3
    ensures var internal := InternalArgs(trustAnchor, bridgeAddr);
      Blanks(|internal| + |extra|) != internal + extra
  {
    var internal := InternalArgs(trustAnchor, bridgeAddr);
    assert (internal + extra)[0] == "--keep-in-foreground";
  }

  /** The configuration the supervisor shares with the rest of the program. */
  class Config {
    var bridgeAddr: string
    const dnsmasqArgs: array<string>

    constructor (bridgeAddr: string, dnsmasqArgs: seq<string>)
      ensures this.bridgeAddr == bridgeAddr
      ensures fresh(this.dnsmasqArgs) && this.dnsmasqArgs[..] == dnsmasqArgs
    {
      this.bridgeAddr := bridgeAddr;
      this.dnsmasqArgs := new string[|dnsmasqArgs|](i requires 0 <= i < |dnsmasqArgs| => dnsmasqArgs[i]);
    }
  }

  /** exec.Cmd of a launched process: the program, its argument vector and
      whether the operating system has reported its exit
      (ProcessState.Exited()), which only the environment changes. */
  class Cmd {
    const name: string
    const args: seq<string>
    var exited: bool

    constructor (name: string, args: seq<string>)
      ensures this.name == name && this.args == args && !exited
    {
      this.name := name;
      this.args := args;
      exited := false;
    }
  }

  class DnsmasqProcess {
    const ctx: Config
    var proc: Cmd?

    /** NewDnsmasqProcess: nothing launched yet. */
    constructor (ctx: Config)
      ensures this.ctx == ctx && proc == null
    {
      this.ctx := ctx;
      proc := null;
    }

    /** isRunning: a process is held and has not been reported as exited. */
    predicate IsRunning()
      reads this, proc
    {
      proc != null && !proc.exited
    }

    /** Start: a no-op while running. Otherwise the internal arguments are
        collected (from the trust-anchor file as `readFile` gives it), the
        vector is assembled as written (all empty strings, and the
        configured arguments overwritten with empty strings), and dnsmasq is
        launched; the environment decides the `launch` outcome. Only a
        successful launch is kept. */
    method Start(readFile: FileReader, launch: Outcome) returns (err: Option<Error>)
      requires !IsRunning() ==> |Split(ctx.bridgeAddr, '.')| >= 3
      modifies this, ctx.dnsmasqArgs
      ensures old(IsRunning()) ==> err == None && proc == old(proc) && unchanged(ctx.dnsmasqArgs)
      ensures !old(IsRunning()) ==> ctx.dnsmasqArgs[..] == Blanks(ctx.dnsmasqArgs.Length)
      ensures !old(IsRunning()) && launch.Fail? ==> err == Some(launch.error) && proc == old(proc)
      ensures !old(IsRunning()) && launch.Pass? ==>
        && err == None && proc != null && fresh(proc) && IsRunning()
        && proc.name == "dnsmasq"
        && proc.args == Blanks(|InternalArgs(readFile(TrustAnchorPath), ctx.bridgeAddr)| + ctx.dnsmasqArgs.Length)
    {
      if !IsRunning() {
        var internalArgs := CollectInternalArgs(readFile, ctx.bridgeAddr);
        var args := AssembleArgsAsWritten(internalArgs, ctx.dnsmasqArgs);
        var cmd := new Cmd("dnsmasq", args[..]);
        if launch.Fail? {
          return Some(launch.error);
        }
        proc := cmd;
      }
      return None;
    }

    /** Stop: a no-op unless running. Otherwise the process is killed; the
        environment decides the `kill` outcome. The handle is dropped only
        when the kill succeeds. */
    method Stop(kill: Outcome) returns (err: Option<Error>)
      modifies this
      ensures !old(IsRunning()) ==> err == None && proc == old(proc)
      ensures old(IsRunning()) && kill.Fail? ==> err == Some(kill.error) && proc == old(proc)
      ensures old(IsRunning()) && kill.Pass? ==> err == None && proc == null
    {
      if IsRunning() {
        if kill.Fail? {
          return Some(kill.error);
        }
        proc := null;
      }
      return None;
    }

    /** Restart: Stop, then Start unless Stop failed. */
    method Restart(kill: Outcome, readFile: FileReader, launch: Outcome) returns (err: Option<Error>)
      requires !(IsRunning() && kill.Fail?) ==> |Split(ctx.bridgeAddr, '.')| >= 3
      modifies this, ctx.dnsmasqArgs
      ensures old(IsRunning()) && kill.Fail? ==>
        err == Some(kill.error) && proc == old(proc) && unchanged(ctx.dnsmasqArgs)
      ensures !(old(IsRunning()) && kill.Fail?) ==> ctx.dnsmasqArgs[..] == Blanks(ctx.dnsmasqArgs.Length)
      ensures !(old(IsRunning()) && kill.Fail?) && launch.Fail? ==>
        err == Some(launch.error) && proc == (if old(IsRunning()) then null else old(proc)) && !IsRunning()
      ensures !(old(IsRunning()) && kill.Fail?) && launch.Pass? ==>
        && err == None && proc != null && fresh(proc) && IsRunning()
        && proc.name == "dnsmasq"
        && proc.args == Blanks(|InternalArgs(readFile(TrustAnchorPath), ctx.bridgeAddr)| + ctx.dnsmasqArgs.Length)
    {
      err := Stop(kill);
      if err.Some? {
        return err;
      }
      err := Start(readFile, launch);
      if err.Some? {
        return err;
      }
      return None;
    }

    /** ReadLeases: the leases of the file the configured arguments select,
        or the reader's error unchanged. */
    method ReadLeases(readFile: FileReader) returns (r: Result<seq<Lease>>)
      ensures r == match readFile(LeasePath(ctx.dnsmasqArgs[..]))
                   case ReadError(e) => Failure(e)
                   case Read(content) => Success(Leases(content))
    {
      var leaseFilePath := DefaultLeaseFilePath;
      var args := ctx.dnsmasqArgs;
      for i := 0 to args.Length
        invariant leaseFilePath == LeasePath(args[..i])
      {
        assert args[..i + 1][..i] == args[..i];
        if LeaseFileFlag <= args[i] {
          FlagSplit(args[i]);
          leaseFilePath := Split(args[i], '=')[1];
        }
      }
      assert args[..args.Length] == args[..];
      var leaseFileContent := readFile(leaseFilePath);
      if leaseFileContent.ReadError? {
        return Failure(leaseFileContent.error);
      }
      var leases := ConvertLeases(leaseFileContent.content);
      return Success(leases);
    }
  }

  /** Starting twice without a stop launches one process: the second Start
      finds it running and keeps it. */
  method StartTwice(p: DnsmasqProcess, readFile: FileReader, second: Outcome) returns (first: Cmd?)
    requires !p.IsRunning() && |Split(p.ctx.bridgeAddr, '.')| >= 3
    modifies p, p.ctx.dnsmasqArgs
    ensures first != null && fresh(first) && p.proc == first && p.IsRunning()
  {
    var err := p.Start(readFile, Pass);
    first := p.proc;
    err := p.Start(readFile, second);
    assert err == None;
  }
}
