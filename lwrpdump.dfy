/**
 * lwrpdump: connects to a LiveWire device's LWRP port, asks for its
 * destinations, sources, GPO configuration, version and IP settings, and
 * prints the reply lines of the kinds asked for on the command line,
 * stopping after the IP reply. The connection is left out: the bytes the
 * device sends are a parameter, and what is written to it is returned.
 */
module Lwrpdump {
  import opened QtText
  import AString
  import Framing

  /** Which reply kinds are printed. */
  datatype Flags = Flags(src: bool, dst: bool, gpio: bool, ip: bool, ver: bool)

  datatype Settings = Settings(hostname: string, port: nat, password: string, flags: Flags)

  /** The settings, or the message the program exits with (status 1). */
  datatype Setup = Ready(settings: Settings) | Refused(message: string)

  const DefaultPort: nat := 93
  const AllFlags: Flags := Flags(true, true, true, true, true)
  const NoFlags: Flags := Flags(false, false, false, false, false)

  const DumpSwitches: set<string> := {"--dump-all", "--dump-dst", "--dump-gpio", "--dump-ip", "--dump-src", "--dump-ver"}

  /** One pass of the option loop. */
  function ApplySwitch(s: Settings, key: string, value: string): (r: Setup)
  {
    if key == "--dump-all" then Ready(s.(flags := AllFlags))
    else if key == "--dump-dst" then Ready(s.(flags := s.flags.(dst := true)))
    else if key == "--dump-gpio" then Ready(s.(flags := s.flags.(gpio := true)))
    else if key == "--dump-ip" then Ready(s.(flags := s.flags.(ip := true)))
    else if key == "--dump-src" then Ready(s.(flags := s.flags.(src := true)))
    else if key == "--dump-ver" then Ready(s.(flags := s.flags.(ver := true)))
    else if key == "--hostname" then Ready(s.(hostname := value))
    else if key == "--password" then Ready(s.(password := value))
    else if key == "--port" then
      match ToUInt(value, 10)
      case Some(p) => if p > 0xFFFF then Refused("lwrpdump: invalid \"--port\" value\n") else Ready(s.(port := p))
      case None => Refused("lwrpdump: invalid \"--port\" value\n")
    else Refused("lwrpdump: unrecognized option \"" + key + "\"\n")
  }

  function ApplyAll(keys: seq<string>, values: seq<string>, n: nat): (r: Setup)
    requires n <= |keys| == |values|
    ensures r.Ready? ==> r.settings.port <= 0xFFFF
  {
    if n == 0 then Ready(Settings("", DefaultPort, "", NoFlags))
    else
      match ApplyAll(keys, values, n - 1)
      case Refused(m) => Refused(m)
      case Ready(s) => ApplySwitch(s, keys[n - 1], values[n - 1])
  }

  /** The constructor's option handling: with no dump switch at all, every
      kind is printed. */
  function Configure(keys: seq<string>, values: seq<string>): (r: Setup)
    requires |keys| == |values|
    ensures r.Refused? <==> ApplyAll(keys, values, |keys|).Refused?
    ensures r.Ready? ==> r.settings.port <= 0xFFFF && r.settings.flags != NoFlags
    ensures r.Ready? ==>
      r.settings.(flags := NoFlags) == ApplyAll(keys, values, |keys|).settings.(flags := NoFlags)
  {
    match ApplyAll(keys, values, |keys|)
    case Refused(m) => Refused(m)
    case Ready(s) => if s.flags == NoFlags then Ready(s.(flags := AllFlags)) else Ready(s)
  }

  /** Whether the switches seen so far name a kind (or all kinds). */
  predicate Named(keys: seq<string>, n: nat, switch: string)
    requires n <= |keys|
  {
    switch in keys[..n] || "--dump-all" in keys[..n]
  }

  /** One switch sets a flag when it names its kind or all kinds, and
      clears none. */
  lemma SwitchFlags(s: Settings, key: string, value: string)
    requires ApplySwitch(s, key, value).Ready?
    ensures var f := ApplySwitch(s, key, value).settings.flags;
      var all := key == "--dump-all";
      (f.dst <==> s.flags.dst || all || key == "--dump-dst") &&
      (f.src <==> s.flags.src || all || key == "--dump-src") &&
      (f.gpio <==> s.flags.gpio || all || key == "--dump-gpio") &&
      (f.ip <==> s.flags.ip || all || key == "--dump-ip") &&
      (f.ver <==> s.flags.ver || all || key == "--dump-ver")
  {
    var f := ApplySwitch(s, key, value).settings.flags;
    if key == "--dump-all" {
      assert f == AllFlags;
    } else if key == "--dump-dst" {
      assert f == s.flags.(dst := true);
    } else if key == "--dump-gpio" {
      assert f == s.flags.(gpio := true);
    } else if key == "--dump-ip" {
      assert f == s.flags.(ip := true);
    } else if key == "--dump-src" {
      assert f == s.flags.(src := true);
    } else if key == "--dump-ver" {
      assert f == s.flags.(ver := true);
    } else {
      assert f == s.flags;
    }
  }

  /** After the loop each flag is set exactly when its switch or
      --dump-all was given. */
  lemma {:induction false} FlagsFromSwitches(keys: seq<string>, values: seq<string>, n: nat)
    requires n <= |keys| == |values| && ApplyAll(keys, values, n).Ready?
    ensures var f := ApplyAll(keys, values, n).settings.flags;
      (f.dst <==> Named(keys, n, "--dump-dst")) && (f.src <==> Named(keys, n, "--dump-src")) &&
      (f.gpio <==> Named(keys, n, "--dump-gpio")) && (f.ip <==> Named(keys, n, "--dump-ip")) &&
      (f.ver <==> Named(keys, n, "--dump-ver"))
  {
    if n > 0 {
      var before := ApplyAll(keys, values, n - 1);
      assert before.Ready?;
      FlagsFromSwitches(keys, values, n - 1);
      SwitchFlags(before.settings, keys[n - 1], values[n - 1]);
      assert keys[..n] == keys[..n - 1] + [keys[n - 1]];
    }
  }

  /** With no dump switch every kind is printed; otherwise exactly the kinds
      named (all of them for --dump-all). */
  lemma PrintedKinds(keys: seq<string>, values: seq<string>)
    requires |keys| == |values| && Configure(keys, values).Ready?
    ensures var f := Configure(keys, values).settings.flags;
      var none := forall k :: k in keys ==> k !in DumpSwitches;
      (none ==> f == AllFlags) &&
      (!none ==>
        (f.dst <==> Named(keys, |keys|, "--dump-dst")) && (f.src <==> Named(keys, |keys|, "--dump-src")) &&
        (f.gpio <==> Named(keys, |keys|, "--dump-gpio")) && (f.ip <==> Named(keys, |keys|, "--dump-ip")) &&
        (f.ver <==> Named(keys, |keys|, "--dump-ver")))
  {
    FlagsFromSwitches(keys, values, |keys|);
    assert keys[..|keys|] == keys;
  }

  // -----------------------------------------------------------------------
  // The session
  // -----------------------------------------------------------------------

  /** The requests written on connecting, in order. */
  const Requests: seq<string> := ["DST", "SRC", "CFG GPO", "VER", "IP"]

  /** ProcessLwrp: whether the line is printed, and whether the program
      then ends (status 0). */
  function Process(f: Flags, cmd: string): (r: (bool, bool))
    ensures r.1 <==> IsIpReply(cmd)
  {
    var t := AString.FirstToken(cmd);
    ((f.dst && t == "DST") || (f.src && t == "SRC") || (f.gpio && t == "CFG") ||
     (f.ver && t == "VER") || (f.ip && t == "IP"),
     t == "IP")
  }

  /** The lines among `lines` that are printed. */
  function PrintedLines(f: Flags, lines: seq<string>): seq<string>
    decreases |lines|
  {
    if lines == [] then []
    else
      var last := lines[|lines| - 1];
      PrintedLines(f, lines[..|lines| - 1]) + (if Process(f, last).0 then [last] else [])
  }

  lemma PrintedSnoc(f: Flags, lines: seq<string>, line: string)
    ensures PrintedLines(f, lines + [line]) ==
      PrintedLines(f, lines) + (if Process(f, line).0 then [line] else [])
  {
    assert (lines + [line])[..|lines|] == lines;
  }

  /** A reply line that ends the program: its first token is IP. */
  predicate IsIpReply(line: string)
  {
    AString.FirstToken(line) == "IP"
  }

  /** The lines handled before the program ends. */
  function Handled(lines: seq<string>): seq<string>
  {
    var k := Framing.FirstWhere(lines, IsIpReply);
    if k < |lines| then lines[..k + 1] else lines
  }

  /** The comment line that opens the dump: where and when it was taken. */
  function HeaderLine(peer: string, peerPort: nat, stamp: string): (r: string)
    ensures |r| > |stamp| && r[0] == '#'
    ensures r[|r| - |stamp|..] == stamp
  {
    "# Dump from livewire device " + peer + ":" + Decimal(peerPort) + " @ " + stamp
  }

  class LwrpDump {
    var flags: Flags
    var accum: string
    /** The lines printed so far (each followed by CR LF on stdout). */
    var printed: seq<string>
    /** Whether the program has ended (status 0). */
    var exited: bool

    constructor (f: Flags)
      ensures flags == f && accum == "" && printed == [] && !exited
    {
      flags, accum, printed, exited := f, "", [], false;
    }

    /** connectedData: the bytes written to the device, and the header
        printed on standard output. The peer's address text, its port and
        the current time (already formatted as dd-MM-yyyyThh:mm:ss) are
        parameters. */
    method ConnectedData(peer: string, peerPort: nat, stamp: string) returns (sent: string, shown: string)
      ensures sent == Framing.Sent(Requests)
      ensures shown == HeaderLine(peer, peerPort, stamp) + "\n\n"
    {
      sent := "DST\r\n";
      assert sent == Framing.Sent(Requests[..1]) by {
        assert Requests[..1][..0] == [];
      }
      sent := sent + "SRC\r\n";
      assert sent == Framing.Sent(Requests[..2]) by {
        assert Requests[..2][..1] == Requests[..1];
      }
      sent := sent + "CFG GPO\r\n";
      assert sent == Framing.Sent(Requests[..3]) by {
        assert Requests[..3][..2] == Requests[..2];
      }
      sent := sent + "VER\r\n";
      assert sent == Framing.Sent(Requests[..4]) by {
        assert Requests[..4][..3] == Requests[..3];
      }
      sent := sent + "IP\r\n";
      assert Requests[..5] == Requests;
      assert Requests[..5][..4] == Requests[..4];
      shown := HeaderLine(peer, peerPort, stamp) + "\n";
      shown := shown + "\n";
    }

    /** ProcessLwrp's tests, in the order written. */
    method ProcessLwrp(cmd: string) returns (shown: bool, ends: bool)
      ensures (shown, ends) == Process(flags, cmd)
    {
      var f0 := AString.SplitLoop(cmd, " ", "\"");
      var first := f0[0];
      shown := false;
      ends := false;
      if flags.dst && first == "DST" {
        shown := true;
      }
      if flags.src && first == "SRC" {
        shown := true;
      }
      if flags.gpio && first == "CFG" {
        shown := true;
      }
      if flags.ver && first == "VER" {
        shown := true;
      }
      if first == "IP" {
        if flags.ip {
          shown := true;
        }
        ends := true;
      }
    }

    /** The end of a line (LF): the accumulated line, trimmed, goes to
        ProcessLwrp and the accumulator is emptied. */
    method EndLine()
      requires !exited
      modifies this
      ensures flags == old(flags) && accum == ""
      ensures var cmd := Trimmed(old(accum));
        (exited <==> IsIpReply(cmd)) &&
        printed == old(printed) + (if Process(flags, cmd).0 then [cmd] else [])
    {
      var cmd := Trimmed(accum);
      var shown, ends := ProcessLwrp(cmd);
      if shown {
        printed := printed + [cmd];
      }
      accum := "";
      if ends {
        exited := true;
      }
    }

    /** The reader's state after the bytes `prefix` of a read that began with
        accumulator a0 and printed lines p0: the lines handed on so far
        (`seen`), none of them an IP line. */
    ghost predicate Reading(a0: string, p0: seq<string>, prefix: string, seen: seq<string>)
      reads this
    {
      Framing.Frame(a0, prefix, '\n', '\r', true) == Framing.Framed(seen, accum) &&
      Framing.FirstWhere(seen, IsIpReply) == |seen| && printed == p0 + PrintedLines(flags, seen) && !exited
    }

    /** One byte of a read. */
    method Advance(x: char, ghost a0: string, ghost p0: seq<string>, ghost prefix: string, ghost seen: seq<string>)
      returns (ghost seen': seq<string>)
      requires Reading(a0, p0, prefix, seen)
      modifies this
      ensures flags == old(flags)
      ensures !exited ==> Reading(a0, p0, prefix + [x], seen')
      ensures exited ==>
        Framing.Frame(a0, prefix + [x], '\n', '\r', true).lines == seen' &&
        |seen'| >= 1 && Framing.FirstWhere(seen', IsIpReply) == |seen'| - 1 &&
        printed == p0 + PrintedLines(flags, seen')
    {
      assert (prefix + [x])[..|prefix|] == prefix;
      seen' := seen;
      if x == '\n' {
        ghost var cmd := Trimmed(accum);
        EndLine();
        PrintedSnoc(flags, seen, cmd);
        Framing.FirstWhereSnoc(seen, cmd, IsIpReply);
        seen' := seen + [cmd];
      } else if x != '\r' {
        accum := accum + [x];
      }
    }

    /** readyReadData: the bytes of one read, handled in order until a line
        ends the program. */
    method ReadyRead(data: string)
      requires !exited
      modifies this
      ensures flags == old(flags)
      ensures var f := Framing.Frame(old(accum), data, '\n', '\r', true);
        printed == old(printed) + PrintedLines(flags, Handled(f.lines)) &&
        (exited <==> Framing.FirstWhere(f.lines, IsIpReply) < |f.lines|) &&
        (!exited ==> accum == f.accum)
    {
      ghost var a0 := accum;
      ghost var p0 := printed;
      ghost var seen: seq<string> := [];
      var i := 0;
      while i < |data|
        invariant 0 <= i <= |data| && flags == old(flags)
        invariant Reading(a0, p0, data[..i], seen)
      {
        assert data[..i + 1] == data[..i] + [data[i]];
        seen := Advance(data[i], a0, p0, data[..i], seen);
        if exited {
          EndsAt(a0, data, i + 1, seen);
          return;
        }
        i := i + 1;
      }
      assert data[..i] == data;
      ghost var f := Framing.Frame(a0, data, '\n', '\r', true);
      assert f.lines == seen && f.accum == accum;
      assert Handled(f.lines) == seen;
    }
  }

  /** A read that hands on its first IP line at byte j has handled exactly
      the lines up to that one. */
  lemma EndsAt(accum: string, data: string, j: nat, seen: seq<string>)
    requires j <= |data| && Framing.Frame(accum, data[..j], '\n', '\r', true).lines == seen
    requires |seen| >= 1 && Framing.FirstWhere(seen, IsIpReply) == |seen| - 1
    ensures var lines := Framing.Frame(accum, data, '\n', '\r', true).lines;
      Handled(lines) == seen && Framing.FirstWhere(lines, IsIpReply) < |lines|
  {
    Framing.FramePrefix(accum, data, j, '\n', '\r', true);
    var lines := Framing.Frame(accum, data, '\n', '\r', true).lines;
    Framing.FirstWhereKept(seen, lines, IsIpReply);
    assert lines[..|seen|] == seen;
  }

  // -----------------------------------------------------------------------
  // Properties
  // -----------------------------------------------------------------------

  /** The requests reach the device as the five request lines, in order,
      IP last. */
  lemma RequestsReadBack()
    ensures Framing.Frame("", Framing.Sent(Requests), '\n', '\r', false) ==
      Framing.Framed(Requests, "")
    ensures Requests[|Requests| - 1] == "IP"
  {
    Framing.SentLinesReadBack(Requests, '\n', '\r', false);
    var r := Framing.Finished(Requests, false);
    assert r == Requests;
  }

  /** The header is the comment line, then a blank line: split at its line
      feeds it is that line, an empty line and the empty rest after the last
      line feed, so the dumped lines start on the third line. */
  lemma HeaderLines(peer: string, peerPort: nat, stamp: string)
    requires '\n' !in peer && '\n' !in stamp
    ensures var line := HeaderLine(peer, peerPort, stamp);
      Split(line + "\n\n", "\n") == [line, "", ""] && line[0] == '#'
  {
    var line := HeaderLine(peer, peerPort, stamp);
    DecimalRoundTrip(peerPort);
    assert '\n' !in line by {
      var d := Decimal(peerPort);
      assert line == "# Dump from livewire device " + peer + ":" + d + " @ " + stamp;
      assert '\n' !in d;
    }
    SplitJoin([line, "", ""], '\n');
    assert Join([line, "", ""], "\n") == line + "\n\n" by {
      assert [line, "", ""][1..] == ["", ""] && ["", ""][1..] == [""];
      assert Join(["", ""], "\n") == "\n";
    }
  }

  /** A reply line whose first word is one of the five kinds is printed
      exactly when that kind was asked for, whatever follows the word. */
  lemma ReplyPrinted(f: Flags, word: string, rest: string)
    requires word in {"DST", "SRC", "CFG", "VER", "IP"}
    ensures var p := Process(f, word + " " + rest).0;
      (word == "DST" ==> (p <==> f.dst)) && (word == "SRC" ==> (p <==> f.src)) &&
      (word == "CFG" ==> (p <==> f.gpio)) && (word == "VER" ==> (p <==> f.ver)) &&
      (word == "IP" ==> (p <==> f.ip))
  {
    AString.LeadingToken(word, rest);
  }

}
