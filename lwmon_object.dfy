/**
 * lwmon's command-file writer: on connecting to a LiveWire device it logs
 * in, sends the usable lines of a command file, then asks for the version;
 * the version reply (a CR-terminated line whose first token is VER) ends
 * the program with status 0. The connection and the file are left out:
 * the file is its sequence of lines, the device's bytes a parameter, and
 * what is written to the device is returned.
 */
module MonitorObject {
  import opened QtText
  import AString
  import Framing

  /** The filter for one trimmed file line: not a comment, and its first
      quote-aware token, upper-cased, is neither IP nor VER. A blank line
      passes. */
  predicate Passes(t: string)
  {
    var w := ToUpper(AString.FirstToken(t));
    Left(t, 1) != "#" && w != "IP" && w != "VER"
  }

  /** The commands a file contributes: each line trimmed, the passing ones
      kept in file order. */
  function Commands(lines: seq<string>): (r: seq<string>)
    ensures |r| <= |lines|
    decreases |lines|
  {
    if lines == [] then []
    else
      var t := Trimmed(lines[|lines| - 1]);
      Commands(lines[..|lines| - 1]) + (if Passes(t) then [t] else [])
  }

  /** Everything written on connecting: LOGIN, the file's commands, VER. */
  function Session(lines: seq<string>): (r: seq<string>)
    ensures |r| == |Commands(lines)| + 2 && r[0] == "LOGIN" && r[|r| - 1] == "VER"
    ensures r[1..|r| - 1] == Commands(lines)
  {
    ["LOGIN"] + Commands(lines) + ["VER"]
  }

  /** What WriteFromFile prints for the commands it would write. */
  function WouldWrite(cmds: seq<string>): (r: string)
    decreases |cmds|
  {
    if cmds == [] then ""
    else WouldWrite(cmds[..|cmds| - 1]) + "WOULD WRITE:\"" + Framing.Terminated(cmds[|cmds| - 1]) + "\"\n"
  }

  lemma CommandsSnoc(lines: seq<string>, i: nat)
    requires i < |lines|
    ensures var t := Trimmed(lines[i]);
      Commands(lines[..i + 1]) == Commands(lines[..i]) + (if Passes(t) then [t] else [])
  {
    assert lines[..i + 1][..i] == lines[..i];
  }

  lemma SentSnoc(xs: seq<string>, t: string)
    ensures Framing.Sent(xs + [t]) == Framing.Sent(xs) + Framing.Terminated(t)
  {
    assert (xs + [t])[..|xs|] == xs;
  }

  lemma WouldWriteSnoc(cmds: seq<string>, t: string)
    ensures WouldWrite(cmds + [t]) == WouldWrite(cmds) + "WOULD WRITE:\"" + Framing.Terminated(t) + "\"\n"
  {
    assert (cmds + [t])[..|cmds|] == cmds;
  }

  /** ProcessCommand's test: the first token, trimmed, is VER. */
  predicate IsVersionReply(cmd: string)
  {
    Trimmed(AString.FirstToken(cmd)) == "VER"
  }

  /** The filter as the loops test it: comment first, then the two words. */
  method Filter(line: string) returns (t: string, pass: bool)
    ensures t == Trimmed(line) && (pass <==> Passes(t))
  {
    t := Trimmed(line);
    pass := false;
    if Left(t, 1) != "#" {
      var f0 := AString.SplitLoop(t, " ", "\"");
      if ToUpper(f0[0]) != "IP" && ToUpper(f0[0]) != "VER" {
        pass := true;
      }
    }
  }

  /** One file line of tcpConnectedData: written, trimmed and CR LF
      terminated, when it passes. */
  method SendLine(sent: string, ghost pre: seq<string>, lines: seq<string>, i: nat) returns (sent': string)
    requires i < |lines| && sent == Framing.Sent(pre + Commands(lines[..i]))
    ensures sent' == Framing.Sent(pre + Commands(lines[..i + 1]))
  {
    var t, pass := Filter(lines[i]);
    CommandsSnoc(lines, i);
    sent' := sent;
    if pass {
      SentSnoc(pre + Commands(lines[..i]), t);
      assert pre + Commands(lines[..i + 1]) == pre + Commands(lines[..i]) + [t];
      sent' := sent + Framing.Terminated(t);
    } else {
      assert Commands(lines[..i + 1]) == Commands(lines[..i]);
    }
  }

  /** One file line of WriteFromFile. */
  method ShowLine(shown: string, lines: seq<string>, i: nat) returns (shown': string)
    requires i < |lines| && shown == WouldWrite(Commands(lines[..i]))
    ensures shown' == WouldWrite(Commands(lines[..i + 1]))
  {
    var t, pass := Filter(lines[i]);
    CommandsSnoc(lines, i);
    shown' := shown;
    if pass {
      WouldWriteSnoc(Commands(lines[..i]), t);
      assert Commands(lines[..i + 1]) == Commands(lines[..i]) + [t];
      shown' := shown + "WOULD WRITE:\"" + Framing.Terminated(t) + "\"\n";
    } else {
      assert Commands(lines[..i + 1]) == Commands(lines[..i]);
    }
  }

  class Monitor {
    var accum: string
    /** Whether the program has ended (status 0). */
    var exited: bool

    constructor ()
      ensures accum == "" && !exited
    {
      accum, exited := "", false;
    }

    /** tcpConnectedData: the bytes written to the device. */
    method ConnectedData(lines: seq<string>) returns (sent: string)
      ensures sent == Framing.Sent(Session(lines))
    {
      sent := "LOGIN\r\n";
      SentSnoc([], "LOGIN");
      var i := 0;
      while i < |lines|
        invariant 0 <= i <= |lines|
        invariant sent == Framing.Sent(["LOGIN"] + Commands(lines[..i]))
      {
        sent := SendLine(sent, ["LOGIN"], lines, i);
        i := i + 1;
      }
      assert lines[..i] == lines;
      SentSnoc(["LOGIN"] + Commands(lines), "VER");
      sent := sent + "VER\r\n";
    }

    /** WriteFromFile: the same filter, the commands only printed. */
    method WriteFromFile(lines: seq<string>) returns (shown: string)
      ensures shown == WouldWrite(Commands(lines))
    {
      shown := "";
      var i := 0;
      while i < |lines|
        invariant 0 <= i <= |lines|
        invariant shown == WouldWrite(Commands(lines[..i]))
      {
        shown := ShowLine(shown, lines, i);
        i := i + 1;
      }
      assert lines[..i] == lines;
    }

    /** ProcessCommand: whether the command ends the program. */
    method ProcessCommand(cmd: string) returns (ends: bool)
      ensures ends <==> IsVersionReply(cmd)
    {
      var f0 := AString.SplitLoop(cmd, " ", "\"");
      ends := Trimmed(f0[0]) == "VER";
    }

    /** A CR: the accumulated command goes to ProcessCommand and the
        accumulator is emptied. */
    method EndCommand()
      requires !exited
      modifies this
      ensures accum == "" && (exited <==> IsVersionReply(old(accum)))
    {
      var ends := ProcessCommand(accum);
      accum := "";
      if ends {
        exited := true;
      }
    }

    /** The reader's state after the bytes `prefix` of a read that began with
        accumulator a0: the commands handed on so far (`seen`), none of them
        a version reply. */
    ghost predicate Reading(a0: string, prefix: string, seen: seq<string>)
      reads this
    {
      Framing.Frame(a0, prefix, '\r', '\n', false) == Framing.Framed(seen, accum) &&
      Framing.FirstWhere(seen, IsVersionReply) == |seen| && !exited
    }

    /** One byte of a read: data[i]. */
    method Advance(data: string, i: nat, ghost a0: string, ghost seen: seq<string>)
      returns (ghost seen': seq<string>)
      requires i < |data| && Reading(a0, data[..i], seen)
      modifies this
      ensures !exited ==> Reading(a0, data[..i + 1], seen')
      ensures exited ==>
        Framing.Frame(a0, data[..i + 1], '\r', '\n', false).lines == seen' &&
        |seen'| >= 1 && Framing.FirstWhere(seen', IsVersionReply) == |seen'| - 1
    {
      ghost var prefix := data[..i];
      var x := data[i];
      assert data[..i + 1] == prefix + [x];
      assert (prefix + [x])[..|prefix|] == prefix;
      seen' := seen;
      if x == '\r' {
        ghost var cmd := accum;
        EndCommand();
        seen' := seen + [cmd];
        Framing.FirstWhereSnoc(seen, cmd, IsVersionReply);
        assert Framing.Finish(cmd, false) == cmd;
      } else if x != '\n' {
        accum := accum + [x];
      }
    }

    /** tcpReadyReadData: the bytes of one read, handled in order until a
        version reply ends the program. */
    method ReadyRead(data: string)
      requires !exited
      modifies this
      ensures var f := Framing.Frame(old(accum), data, '\r', '\n', false);
        (exited <==> Framing.FirstWhere(f.lines, IsVersionReply) < |f.lines|) &&
        (!exited ==> accum == f.accum)
    {
      ghost var a0 := accum;
      ghost var seen: seq<string> := [];
      var i := 0;
      while i < |data|
        invariant 0 <= i <= |data|
        invariant Reading(a0, data[..i], seen)
      {
        seen := Advance(data, i, a0, seen);
        if exited {
          VersionReplyInRead(a0, data, i + 1, seen);
          return;
        }
        i := i + 1;
      }
      assert data[..i] == data;
    }
  }

  /** A version reply among the commands of the first j bytes is a version
      reply among the commands of the whole read. */
  lemma VersionReplyInRead(a0: string, data: string, j: nat, seen: seq<string>)
    requires j <= |data| && Framing.Frame(a0, data[..j], '\r', '\n', false).lines == seen
    requires |seen| >= 1 && Framing.FirstWhere(seen, IsVersionReply) == |seen| - 1
    ensures var lines := Framing.Frame(a0, data, '\r', '\n', false).lines;
      Framing.FirstWhere(lines, IsVersionReply) < |lines|
  {
    Framing.FramePrefix(a0, data, j, '\r', '\n', false);
    Framing.FirstWhereKept(seen, Framing.Frame(a0, data, '\r', '\n', false).lines, IsVersionReply);
  }

  // -----------------------------------------------------------------------
  // Properties
  // -----------------------------------------------------------------------

  /** The commands are exactly the trimmed file lines that pass the filter. */
  lemma {:induction false} CommandsAreFiltered(lines: seq<string>)
    ensures forall i :: 0 <= i < |lines| && Passes(Trimmed(lines[i])) ==> Trimmed(lines[i]) in Commands(lines)
    ensures forall t :: t in Commands(lines) ==> Passes(t) && exists i :: 0 <= i < |lines| && t == Trimmed(lines[i])
    decreases |lines|
  {
    if lines != [] {
      var init := lines[..|lines| - 1];
      CommandsAreFiltered(init);
      forall i | 0 <= i < |lines| - 1
        ensures lines[i] == init[i]
      {
      }
    }
  }

  /** A line whose trimmed form starts with '#' is held back. */
  lemma CommentHeldBack(line: string)
    requires Trimmed(line) != [] && Trimmed(line)[0] == '#'
    ensures !Passes(Trimmed(line))
  {
    assert Left(Trimmed(line), 1) == "#";
  }

  /** A line led by the word IP or VER, in any case, is held back; any other
      plain word lets the line through. */
  lemma LeadingWordDecides(word: string, rest: string)
    requires word != [] && word[0] != '#' && '"' !in word && ' ' !in word
    ensures Passes(word + " " + rest) <==> ToUpper(word) != "IP" && ToUpper(word) != "VER"
  {
    AString.LeadingToken(word, rest);
    assert Left(word + " " + rest, 1) == [word[0]];
  }

  /** A blank line passes and goes out as a bare CR LF. */
  lemma BlankLineSentBare(line: string)
    requires Trimmed(line) == ""
    ensures Commands([line]) == [""] && Framing.Sent(Commands([line])) == "\r\n"
  {
    assert [line][..0] == [];
    assert AString.FirstToken("") == "";
    assert [""][..0] == [];
  }

  /** The device receives the session line by line, LOGIN first and VER
      last, whichever of CR and LF it ends lines with, as long as no file
      line holds either. */
  lemma SessionReadsBack(lines: seq<string>, eol: char, ignored: char)
    requires (eol == '\n' && ignored == '\r') || (eol == '\r' && ignored == '\n')
    requires forall i :: 0 <= i < |lines| ==> '\r' !in lines[i] && '\n' !in lines[i]
    ensures Framing.Frame("", Framing.Sent(Session(lines)), eol, ignored, false) ==
      Framing.Framed(Session(lines), "")
  {
    var s := Session(lines);
    var cmds := Commands(lines);
    CommandsAreFiltered(lines);
    forall k | 0 <= k < |s|
      ensures '\r' !in s[k] && '\n' !in s[k]
    {
      if 0 < k < |s| - 1 {
        assert s[k] == cmds[k - 1];
        assert s[k] in cmds;
        var i :| 0 <= i < |lines| && s[k] == Trimmed(lines[i]);
        TrimmedAbsent(lines[i], '\r');
        TrimmedAbsent(lines[i], '\n');
      }
    }
    Framing.SentLinesReadBack(s, eol, ignored, false);
    var r := Framing.Finished(s, false);
    assert r == s;
  }

  /** A reply line led by VER and a blank ends the program, whatever
      follows. */
  lemma VersionReplyEnds(rest: string)
    ensures IsVersionReply("VER " + rest)
  {
    AString.LeadingToken("VER", rest);
    assert "VER " + rest == "VER" + " " + rest;
    TrimmedKeeps("VER");
  }
}
