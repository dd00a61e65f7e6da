/**
 * The older interactive monitor (src/lwmon.cpp): picks the LWCP or LWRP
 * dialect from the program name or `--mode`, takes `host[:port]` from the
 * last argument with the dialect's default port, shows each CR-terminated
 * line the device sends, and shows and sends each line typed, the typed
 * ones in bold. Windows, the history file and the socket are left out: the
 * arguments, the program path and the device's bytes are parameters.
 */
module LegacyMonitor {
  import opened QtText
  import opened Variant
  import AddressCodec
  import Framing

  datatype Mode = Lwrp | Lwcp

  const LwcpDefaultPort := 4010
  const LwrpDefaultPort := 93
  const Usage := "[--mode=lwcp|lwrp] [--color=on|off] <hostname>[:<port-num>]\n"

  function DefaultPort(m: Mode): nat
  {
    if m == Lwcp then LwcpDefaultPort else LwrpDefaultPort
  }

  /** What start-up ends with: a connection to make, or a message and the
      exit() argument. */
  datatype Startup = Connect(mode: Mode, hostname: string, port: nat) | Rejected(message: string, code: int)

  /** The exit() argument of a rejection: 256 as written, 1 corrected. */
  function RejectCode(b: Build): int
  {
    if b == AsWritten then 256 else 1
  }

  // -----------------------------------------------------------------------
  // The dialect
  // -----------------------------------------------------------------------

  /** SetMode: the last `/`-separated part of the program path selects
      LWCP when it is `lwcp`; anything else, `lwrp` included, gives LWRP. */
  function ModeFromName(argv0: string): (r: Mode)
    ensures '/' !in argv0 ==> (r == Lwcp <==> argv0 == "lwcp")
  {
    BareNameIsLastPart(argv0);
    if LastPart(argv0) == "lwcp" then Lwcp else Lwrp
  }

  /** A path without a '/' is its own last part. */
  lemma BareNameIsLastPart(path: string)
    ensures '/' !in path ==> LastPart(path) == path
  {
    if '/' !in path {
      assert "/" == ['/'];
      SplitFromPlain(path, '/', "");
      assert "" + path == path;
    }
  }

  /** The last `/`-separated part of a path. */
  function LastPart(path: string): string
  {
    var f0 := Split(path, "/");
    f0[|f0| - 1]
  }

  /** A `--mode` switch with an accepted value (either case). */
  predicate ModeSwitch(key: string, value: string)
  {
    key == "--mode" && (ToLower(value) == "lwcp" || ToLower(value) == "lwrp")
  }

  /** The mode after the switches keys[..n]: each accepted `--mode`
      overrides what came before. */
  function ModeAfter(keys: seq<string>, values: seq<string>, n: nat, m: Mode): (r: Mode)
    requires n <= |keys| == |values|
    decreases n
  {
    if n == 0 then m
    else
      var before := ModeAfter(keys, values, n - 1, m);
      if keys[n - 1] == "--mode" && ToLower(values[n - 1]) == "lwcp" then Lwcp
      else if keys[n - 1] == "--mode" && ToLower(values[n - 1]) == "lwrp" then Lwrp
      else before
  }

  /** The position of the first switch among keys[..n] that is not an
      accepted `--mode`, or n when there is none. */
  function FirstBad(keys: seq<string>, values: seq<string>, n: nat): (k: nat)
    requires n <= |keys| == |values|
    ensures k <= n
    ensures forall j :: 0 <= j < k ==> ModeSwitch(keys[j], values[j])
    ensures k < n ==> !ModeSwitch(keys[k], values[k])
    decreases n
  {
    if n == 0 then 0
    else
      var k := FirstBad(keys, values, n - 1);
      if k < n - 1 then k else if ModeSwitch(keys[n - 1], values[n - 1]) then n else n - 1
  }

  /** The message for a rejected switch. */
  function BadSwitchMessage(key: string): string
  {
    if key == "--mode" then "lwmon: invalid \"--mode\" argument"
    else "lwmon: invalid argument \"" + key + "\"\n"
  }

  // -----------------------------------------------------------------------
  // host[:port]
  // -----------------------------------------------------------------------

  /** The port a parsed value lands in: a 16-bit variable as written (the
      value wraps), the value itself corrected. */
  function StoredPort(n: nat, b: Build): (p: nat)
    ensures n <= 0xFFFF || b == Corrected ==> p == n
    ensures b == AsWritten ==> p <= 0xFFFF && (p - n) % 0x1_0000 == 0
  {
    if b == AsWritten then n % 0x1_0000 else n
  }

  /** Whether a stored port is refused. */
  predicate PortRefused(p: nat, b: Build)
  {
    p == 0 || (b == Corrected && p > 0xFFFF)
  }

  /** The connection argument: split on ':'; more than two parts is an
      error; a second part must parse as a non-zero port. */
  function HostPort(arg: string, m: Mode, b: Build): (r: Startup)
    ensures r.Connect? ==> r.mode == m && 1 <= r.port <= 0xFFFF
    ensures r.Rejected? ==> r.code == RejectCode(b)
  {
    Endpoint(Split(arg, ":"), m, b)
  }

  /** The host and port from the ':'-separated parts f0. */
  function Endpoint(f0: seq<string>, m: Mode, b: Build): (r: Startup)
    requires |f0| >= 1
    ensures r.Connect? ==> r.mode == m && r.hostname == f0[0] && 1 <= r.port <= 0xFFFF
    ensures r.Rejected? ==> r.code == RejectCode(b)
  {
    if |f0| > 2 then Rejected("lwcp: invalid argument\n", RejectCode(b))
    else if |f0| == 2 then
      match ToUInt(f0[1], 10)
      case None => Rejected("lwcp: invalid port value\n", RejectCode(b))
      case Some(n) =>
        var p := StoredPort(n, b);
        if PortRefused(p, b) then Rejected("lwcp: invalid port value\n", RejectCode(b))
        else Connect(m, f0[0], p)
    else Connect(m, f0[0], DefaultPort(m))
  }

  /** The constructor's argument handling, from the tokenized switches. */
  function Configure(argv0: string, keys: seq<string>, values: seq<string>, b: Build): (r: Startup)
    requires |keys| == |values|
    ensures keys == [] ==> r == Rejected(Usage + "\n", RejectCode(b))
  {
    if keys == [] then Rejected(Usage + "\n", RejectCode(b))
    else
      var n := |keys| - 1;
      var k := FirstBad(keys, values, n);
      if k < n then Rejected(BadSwitchMessage(keys[k]), RejectCode(b))
      else HostPort(keys[n], ModeAfter(keys, values, n, ModeFromName(argv0)), b)
  }

  /** The switch loop: every argument but the last must be an accepted
      `--mode`; the mode starts from the program name. */
  method Arguments(argv0: string, keys: seq<string>, values: seq<string>, b: Build) returns (r: Startup)
    requires |keys| == |values|
    ensures r == Configure(argv0, keys, values, b)
  {
    var mode := ModeFromName(argv0);
    if |keys| == 0 {
      return Rejected(Usage + "\n", RejectCode(b));
    }
    var n := |keys| - 1;
    var i := 0;
    while i < n
      invariant 0 <= i <= n
      invariant FirstBad(keys, values, i) == i
      invariant mode == ModeAfter(keys, values, i, ModeFromName(argv0))
    {
      var processed;
      mode, processed := Switch(keys, values, i, mode, ModeFromName(argv0));
      if !processed {
        ConfigureRejects(argv0, keys, values, i, b);
        r := BadSwitch(keys[i], b);
        return;
      }
      i := i + 1;
    }
    ConfigureConnects(argv0, keys, values, b);
    r := HostPort(keys[n], mode, b);
  }

  /** A switch before the last argument that is not an accepted `--mode`,
      the first such, ends start-up with its message. */
  lemma ConfigureRejects(argv0: string, keys: seq<string>, values: seq<string>, i: nat, b: Build)
    requires i < |keys| - 1 && |keys| == |values|
    requires FirstBad(keys, values, i) == i && !ModeSwitch(keys[i], values[i])
    ensures Configure(argv0, keys, values, b) == Rejected(BadSwitchMessage(keys[i]), RejectCode(b))
  {
    FirstBadStays(keys, values, i, |keys| - 1);
  }

  /** When every switch before the last argument is an accepted `--mode`,
      the last argument is the connection argument. */
  lemma ConfigureConnects(argv0: string, keys: seq<string>, values: seq<string>, b: Build)
    requires |keys| >= 1 && |keys| == |values|
    requires FirstBad(keys, values, |keys| - 1) == |keys| - 1
    ensures Configure(argv0, keys, values, b) ==
      HostPort(keys[|keys| - 1], ModeAfter(keys, values, |keys| - 1, ModeFromName(argv0)), b)
  {
  }

  /** The message printed, and the exit() argument, for a switch that is
      not an accepted `--mode`. */
  method BadSwitch(key: string, b: Build) returns (r: Startup)
    ensures r == Rejected(BadSwitchMessage(key), RejectCode(b))
  {
    if key == "--mode" {
      return Rejected("lwmon: invalid \"--mode\" argument", RejectCode(b));
    }
    return Rejected("lwmon: invalid argument \"" + key + "\"\n", RejectCode(b));
  }

  /** One pass of the switch loop: an accepted `--mode` sets the mode;
      anything else is left unprocessed. */
  method Switch(keys: seq<string>, values: seq<string>, i: nat, mode: Mode, ghost m0: Mode)
    returns (mode': Mode, processed: bool)
    requires i < |keys| == |values|
    requires FirstBad(keys, values, i) == i && mode == ModeAfter(keys, values, i, m0)
    ensures processed <==> ModeSwitch(keys[i], values[i])
    ensures processed ==> FirstBad(keys, values, i + 1) == i + 1 && mode' == ModeAfter(keys, values, i + 1, m0)
  {
    mode', processed := mode, false;
    if keys[i] == "--mode" {
      if ToLower(values[i]) == "lwcp" {
        mode' := Lwcp;
        processed := true;
      }
      if ToLower(values[i]) == "lwrp" {
        mode' := Lwrp;
        processed := true;
      }
    }
  }

  /** Once the first bad switch is found at i, it stays the first bad one
      however many switches follow. */
  lemma {:induction false} FirstBadStays(keys: seq<string>, values: seq<string>, i: nat, n: nat)
    requires i < n <= |keys| == |values|
    requires FirstBad(keys, values, i) == i && !ModeSwitch(keys[i], values[i])
    ensures FirstBad(keys, values, n) == i
    decreases n
  {
    if n > i + 1 {
      FirstBadStays(keys, values, i, n - 1);
    }
  }

  // -----------------------------------------------------------------------
  // The session
  // -----------------------------------------------------------------------

  /** FormatLwcp: typed text in bold, the device's text as it is. */
  function FormatLwcp(str: string, local: bool): (r: string)
    ensures local ==> |r| == |str| + 17 && r[8..|r| - 9] == str
    ensures !local ==> r == str
  {
    if local then "<strong>" + str + "</strong>" else str
  }

  class Monitor {
    var accum: string
    /** The lines shown in the text view. */
    var shown: seq<string>

    constructor ()
      ensures accum == "" && shown == []
    {
      accum, shown := "", [];
    }

    /** editReturnPressedData: the typed line is shown in bold and sent
        with CR LF. */
    method EditReturnPressed(text: string) returns (sent: string)
      modifies this
      ensures shown == old(shown) + [FormatLwcp(text, true)] && accum == old(accum)
      ensures sent == Framing.Terminated(text)
    {
      shown := shown + [FormatLwcp(text, true)];
      sent := text + "\r\n";
    }

    /** tcpReadyReadData: LF is dropped and CR shows the line gathered so
        far. */
    method ReadyRead(data: string)
      modifies this
      ensures var f := Framing.Frame(old(accum), data, '\r', '\n', false);
        shown == old(shown) + f.lines && accum == f.accum
    {
      ghost var a0 := accum;
      ghost var s0 := shown;
      var i := 0;
      while i < |data|
        invariant 0 <= i <= |data|
        invariant var f := Framing.Frame(a0, data[..i], '\r', '\n', false);
          shown == s0 + f.lines && accum == f.accum
      {
        Framing.FrameStep(a0, data, i, '\r', '\n', false);
        if data[i] == '\r' {
          shown := shown + [FormatLwcp(accum, false)];
          accum := "";
        } else if data[i] != '\n' {
          accum := accum + [data[i]];
        }
        i := i + 1;
      }
      assert data[..i] == data;
    }
  }

  // -----------------------------------------------------------------------
  // Properties
  // -----------------------------------------------------------------------

  /** The dialect follows the last part of the program path. */
  lemma ModeFromPath(parts: seq<string>)
    requires |parts| >= 1 && forall i :: 0 <= i < |parts| ==> '/' !in parts[i]
    ensures ModeFromName(Join(parts, "/")) == if parts[|parts| - 1] == "lwcp" then Lwcp else Lwrp
  {
    LastPartOfJoin(parts);
  }

  lemma LastPartOfJoin(parts: seq<string>)
    requires |parts| >= 1 && forall i :: 0 <= i < |parts| ==> '/' !in parts[i]
    ensures LastPart(Join(parts, "/")) == parts[|parts| - 1]
  {
    assert "/" == ['/'];
    SplitJoin(parts, '/');
  }

  /** `--mode` takes its value in either case; the last accepted one wins. */
  lemma ModeSwitchWins(keys: seq<string>, values: seq<string>, n: nat, m: Mode)
    requires 1 <= n <= |keys| == |values| && keys[n - 1] == "--mode"
    ensures values[n - 1] == "LWCP" || values[n - 1] == "lwcp" ==> ModeAfter(keys, values, n, m) == Lwcp
    ensures values[n - 1] == "LWRP" || values[n - 1] == "lwrp" ==> ModeAfter(keys, values, n, m) == Lwrp
  {
    assert ToLower("LWCP") == "lwcp" && ToLower("lwcp") == "lwcp";
    assert ToLower("LWRP") == "lwrp" && ToLower("lwrp") == "lwrp";
  }

  /** Start-up is refused exactly when there is no argument, a switch
      before the last argument is not an accepted `--mode` (`--color`
      included), or the last argument is not a valid host[:port]. */
  lemma RefusedSwitch(argv0: string, keys: seq<string>, values: seq<string>, b: Build, j: nat)
    requires |keys| == |values| && j < |keys| - 1 && !ModeSwitch(keys[j], values[j])
    ensures Configure(argv0, keys, values, b).Rejected?
  {
  }

  /** A host name alone connects to the dialect's default port. */
  lemma DefaultPortUsed(host: string, m: Mode, b: Build)
    requires ':' !in host
    ensures HostPort(host, m, b) == Connect(m, host, if m == Lwcp then 4010 else 93)
  {
    SplitFromPlain(host, ':', "");
    assert "" + host == host;
  }

  /** `host:port` with a port in 1..65535 connects there, in both builds. */
  lemma HostPortRoundTrip(host: string, port: nat, m: Mode, b: Build)
    requires ':' !in host && 1 <= port <= 0xFFFF
    ensures HostPort(host + ":" + Decimal(port), m, b) == Connect(m, host, port)
  {
    PortArgument(host, port);
    assert ToUInt(Decimal(port), 10) == Some(port);
    assert StoredPort(port, b) == port;
    assert Endpoint([host, Decimal(port)], m, b) == Connect(m, host, port);
  }

  /** `host:port` splits into the host and the port's digits, which read
      back as the port. */
  lemma PortArgument(host: string, port: nat)
    requires ':' !in host
    ensures Split(host + ":" + Decimal(port), ":") == [host, Decimal(port)]
    ensures ParseNat(Decimal(port), 10) == Some(port)
  {
    DecimalRoundTrip(port);
    DecimalHasNoColon(port);
    SplitPair(host, Decimal(port), ":");
  }

  lemma DecimalHasNoColon(n: nat)
    ensures ':' !in Decimal(n)
  {
    DecimalRoundTrip(n);
  }

  /** More than one ':' (an IPv6 address, say) is refused. */
  lemma ExtraColonRefused(arg: string, m: Mode, b: Build)
    requires |Split(arg, ":")| > 2
    ensures HostPort(arg, m, b) == Rejected("lwcp: invalid argument\n", RejectCode(b))
  {
  }

  /** As written, a port above 65535 wraps modulo 65536 and is accepted
      unless it wraps to 0 (65537 connects to port 1). */
  lemma PortWrapsAround(host: string, port: nat, m: Mode)
    requires ':' !in host && 0xFFFF < port < 0x1_0000_0000 && port % 0x1_0000 != 0
    ensures HostPort(host + ":" + Decimal(port), m, AsWritten) == Connect(m, host, port % 0x1_0000)
  {
    PortArgument(host, port);
  }

  /** Corrected, a port above 65535 is refused. */
  lemma LargePortRefused(host: string, port: nat, m: Mode)
    requires ':' !in host && 0xFFFF < port < 0x1_0000_0000
    ensures HostPort(host + ":" + Decimal(port), m, Corrected) == Rejected("lwcp: invalid port value\n", 1)
  {
    PortArgument(host, port);
  }

  /** As written, every start-up rejection exits with 256, which the
      parent sees as status 0, success. */
  lemma StartupRejectionLooksLikeSuccess(argv0: string, keys: seq<string>, values: seq<string>)
    requires |keys| == |values| && Configure(argv0, keys, values, AsWritten).Rejected?
    ensures AddressCodec.ShellStatus(Configure(argv0, keys, values, AsWritten).code) == 0
  {
  }

  /** Corrected, a rejection is seen as a failure. */
  lemma StartupRejectionFails(argv0: string, keys: seq<string>, values: seq<string>)
    requires |keys| == |values| && Configure(argv0, keys, values, Corrected).Rejected?
    ensures AddressCodec.ShellStatus(Configure(argv0, keys, values, Corrected).code) != 0
  {
  }

  /** The device's lines are shown in the order received, cut at CR. */
  lemma ReplyLinesShown(data: string)
    requires '\r' !in data && '\n' !in data
    ensures Framing.Frame("", data + "\r\n", '\r', '\n', false) == Framing.Framed([data], "")
  {
    Framing.TerminatedLineReadsBack(data, '\r', '\n', false);
  }
}
