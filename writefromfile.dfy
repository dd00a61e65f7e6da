/**
 * lwmon's batch writer: logs in to a LiveWire device over LWRP, waits for
 * the login to be confirmed by the version reply or refused by an ERROR
 * reply, then writes the usable lines of a command file, each followed by
 * CR LF. The socket, the file and the terminal are left out: what the
 * device answers is a parameter, what is written to it is returned, and
 * the outcomes of the OS calls are flags.
 */
module FileWriter {
  import opened QtText
  import opened Variant
  import AString
  import Framing

  // -----------------------------------------------------------------------
  // Writing one command
  // -----------------------------------------------------------------------

  /** WriteToDevice: the bytes handed to write(2), and whether the
      dropped-characters warning is printed, given the count write
      returned. */
  function WriteToDevice(cmd: string, written: int): (r: (string, bool))
    ensures r.0 == Framing.Terminated(cmd) && |r.0| == |cmd| + 2
    ensures r.1 <==> written != |cmd| + 2
  {
    (cmd + "\r\n", written != 2 + |cmd|)
  }

  /** The number of dropped-characters warnings the writes of `cmds` print,
      when the k-th of them is write(2) call number start + k and `written`
      gives what each call returns: one for each write that did not return
      the command's length plus two. */
  function ShortWrites(cmds: seq<string>, written: nat -> int, start: nat): (r: nat)
    ensures r <= |cmds|
    decreases |cmds|
  {
    if cmds == [] then 0
    else
      var k := |cmds| - 1;
      ShortWrites(cmds[..k], written, start) + (if WriteToDevice(cmds[k], written(start + k)).1 then 1 else 0)
  }

  /** No warning is printed exactly when every write wrote all its bytes. */
  lemma {:induction false} NoShortWrite(cmds: seq<string>, written: nat -> int, start: nat)
    ensures ShortWrites(cmds, written, start) == 0 <==>
      forall k :: 0 <= k < |cmds| ==> written(start + k) == |cmds[k]| + 2
    decreases |cmds|
  {
    if cmds != [] {
      var k := |cmds| - 1;
      NoShortWrite(cmds[..k], written, start);
      assert forall j :: 0 <= j < k ==> cmds[..k][j] == cmds[j];
    }
  }

  /** The login's two writes, calls 0 and 1, warn one by one. */
  lemma ShortWritesPair(a: string, b: string, written: nat -> int)
    ensures ShortWrites([a, b], written, 0) ==
      (if WriteToDevice(a, written(0)).1 then 1 else 0) + (if WriteToDevice(b, written(1)).1 then 1 else 0)
  {
    assert [a, b][..1] == [a] && [a][..0] == [];
  }

  /** The login command; an absent (null) password counts as empty. */
  function LoginLine(password: Option<string>): (r: string)
    ensures password.None? || password.value == "" ==> r == "LOGIN"
    ensures password.Some? && password.value != "" ==> |r| == 6 + |password.value| && r[..6] == "LOGIN " && r[6..] == password.value
  {
    if password.Some? && password.value != "" then "LOGIN" + " " + password.value else "LOGIN"
  }

  /** The password in force: one that was given but is empty is replaced by
      the line typed at the prompt, trimmed (nothing at all when the
      terminal gives end of file); an absent or non-empty one is kept. */
  function PasswordInForce(given: Option<string>, typed: Option<string>): (r: Option<string>)
    ensures given != Some("") ==> r == given
    ensures given == Some("") && typed.None? ==> r.None?
    ensures given == Some("") && typed.Some? ==> r == Some(Trimmed(typed.value))
  {
    if given.Some? && given.value == "" then
      if typed.None? then None else Some(Trimmed(typed.value))
    else given
  }

  /** Whether the command file is standard input. */
  predicate ReadsStdin(filename: string)
  {
    filename == "" || filename == "-"
  }

  // -----------------------------------------------------------------------
  // The login reply
  // -----------------------------------------------------------------------

  /** How a login ends: confirmed, refused with a message, never answered
      (the stream ended first; the message is left empty), or in undefined
      behaviour. */
  datatype Outcome = Accepted | Refused(message: string) | Unanswered | Undefined

  /** The message of an ERROR reply: the parts after the first two, joined
      by blanks. As written, the second removal runs on an empty list when
      the reply is the bare word ERROR; corrected, whatever is there is
      removed and the message is empty. */
  function ErrorMessage(parts: seq<string>, build: Build): (r: Option<string>)
    ensures r.None? <==> build == AsWritten && |parts| < 2
    ensures |parts| >= 2 ==> r == Some(Join(parts[2..], " "))
    ensures build == Corrected && |parts| < 2 ==> r == Some("")
  {
    if |parts| >= 2 then Some(Join(parts[2..], " "))
    else if build == AsWritten then None
    else Some("")
  }

  /** Whether a trimmed reply line decides the login: its first token is
      VER or ERROR. */
  predicate Decisive(line: string)
  {
    AString.FirstToken(line) == "VER" || AString.FirstToken(line) == "ERROR"
  }

  /** What one trimmed reply line decides, if anything. */
  function Reply(line: string, build: Build): (r: Option<Outcome>)
    ensures r.Some? <==> Decisive(line)
    ensures r.Some? ==> r.value != Unanswered
  {
    var parts := AString.SplitQuoted(line, " ", "\"");
    if parts[0] == "VER" then Some(Accepted)
    else if parts[0] == "ERROR" then
      match ErrorMessage(parts, build)
      case None => Some(Undefined)
      case Some(m) => Some(Refused(m))
    else None
  }

  /** The outcome of a login whose complete reply lines are `lines`. */
  function LoginOutcome(lines: seq<string>, build: Build): (r: Outcome)
  {
    var k := Framing.FirstWhere(lines, Decisive);
    if k < |lines| then Reply(lines[k], build).value else Unanswered
  }

  /** The reply lines of a byte stream: cut at LF, every other byte (CR
      included) kept, each line trimmed. */
  function ReplyLines(reply: string): seq<string>
  {
    Framing.Frame("", reply, '\n', '\n', true).lines
  }

  /** The tests Login applies to one completed line, in the order written. */
  method Decide(accum: string, build: Build) returns (r: Option<Outcome>)
    ensures r == Reply(Trimmed(accum), build)
  {
    var f0 := AString.SplitLoop(Trimmed(accum), " ", "\"");
    if f0[0] == "VER" {
      return Some(Accepted);
    }
    if f0[0] == "ERROR" {
      f0 := f0[1..];
      if f0 == [] {
        if build == AsWritten {
          return Some(Undefined);
        }
      } else {
        f0 := f0[1..];
      }
      return Some(Refused(Join(f0, " ")));
    }
    r := None;
  }

  /** One byte of the reply, given the bytes `prefix` before it and the
      lines `seen` completed so far, none of them decisive. */
  method LoginByte(x: char, build: Build, accum: string, ghost prefix: string, ghost seen: seq<string>)
    returns (accum': string, ghost seen': seq<string>, done: Option<Outcome>)
    requires Framing.Frame("", prefix, '\n', '\n', true) == Framing.Framed(seen, accum)
    requires Framing.FirstWhere(seen, Decisive) == |seen|
    ensures done.None? ==>
      Framing.Frame("", prefix + [x], '\n', '\n', true) == Framing.Framed(seen', accum') &&
      Framing.FirstWhere(seen', Decisive) == |seen'|
    ensures done.Some? ==>
      Framing.Frame("", prefix + [x], '\n', '\n', true).lines == seen' &&
      |seen'| >= 1 && Framing.FirstWhere(seen', Decisive) == |seen'| - 1 &&
      done == Reply(seen'[|seen'| - 1], build)
  {
    assert (prefix + [x])[..|prefix|] == prefix;
    seen' := seen;
    accum' := accum;
    done := None;
    if x == '\n' {
      done := Decide(accum, build);
      seen' := seen + [Trimmed(accum)];
      Framing.FirstWhereSnoc(seen, Trimmed(accum), Decisive);
      accum' := "";
    } else {
      accum' := accum + [x];
    }
  }

  /** Login: writes the login and version commands, then reads the reply
      until a line decides. `chunks` are the successive results of read(2)
      on the socket; whether a terminator was stored past the read buffer
      is returned too. */
  method Login(password: Option<string>, written: nat -> int, chunks: seq<string>, build: Build)
    returns (sent: string, warnings: nat, outcome: Outcome, overran: bool)
    requires ReadsWithin(chunks, ReadLimit(build))
    ensures sent == Framing.Sent([LoginLine(password), "VER"])
    ensures warnings == ShortWrites([LoginLine(password), "VER"], written, 0)
    ensures outcome == LoginOutcome(ReplyLines(Received(chunks)), build)
    ensures build == Corrected ==> !overran
    ensures build == AsWritten && FirstEmpty(chunks) > 0 && |chunks[0]| == ReplyBufferSize ==> overran
  {
    var login := "LOGIN";
    if password.Some? && password.value != "" {
      login := login + " " + password.value;
    }
    assert login == LoginLine(password);
    var first := WriteToDevice(login, written(0));
    var second := WriteToDevice("VER", written(1));
    sent := first.0 + second.0;
    warnings := (if first.1 then 1 else 0) + (if second.1 then 1 else 0);
    ShortWritesPair(login, "VER", written);
    assert [login, "VER"][..1] == [login] && [login][..0] == [];
    assert Framing.Sent([login]) == Framing.Terminated(login);
    var taken;
    outcome, taken, overran := ReadReply(chunks, build);
    if build == Corrected {
      ReadsFit(chunks, taken);
    } else if FirstEmpty(chunks) > 0 && |chunks[0]| == ReplyBufferSize {
      FullReadOverruns(chunks, taken);
    }
  }

  /** Login's read loop: each read stores a terminating zero at index n of
      the buffer, then feeds its n bytes to the line assembly; the loop ends
      at the first decisive line or at a read that returns nothing. `taken`
      is the number of reads consumed, and `overran` whether any of their
      terminators fell outside the buffer. */
  method ReadReply(chunks: seq<string>, build: Build) returns (outcome: Outcome, taken: nat, overran: bool)
    requires ReadsWithin(chunks, ReadLimit(build))
    ensures outcome == LoginOutcome(ReplyLines(Received(chunks)), build)
    ensures FirstEmpty(chunks) > 0 ==> 1 <= taken <= FirstEmpty(chunks)
    ensures outcome == Unanswered ==> taken == FirstEmpty(chunks)
    ensures overran == Overruns(chunks, taken)
  {
    var accum := "";
    ghost var seen: seq<string> := [];
    ghost var received := "";
    var k := 0;
    overran := false;
    while k < |chunks| && chunks[k] != []
      invariant 0 <= k <= FirstEmpty(chunks)
      invariant received == Concat(chunks[..k])
      invariant Framing.Frame("", received, '\n', '\n', true) == Framing.Framed(seen, accum)
      invariant Framing.FirstWhere(seen, Decisive) == |seen|
      invariant overran == Overruns(chunks, k)
    {
      var chunk := chunks[k];
      NotYetEmpty(chunks, k);
      overran := overran || !TerminatorFits(|chunk|);
      OverrunsStep(chunks, k);
      var used, done;
      accum, seen, used, done := FeedChunk(chunk, build, accum, received, seen);
      if done.Some? {
        DecidedInRead(chunks, k, used, seen, build);
        return done.value, k + 1, overran;
      }
      ConcatNext(chunks, k);
      received := received + chunk;
      k := k + 1;
    }
    NoDecisionReceived(chunks, k, seen, accum, build);
    outcome, taken := Unanswered, k;
  }

  /** The byte loop over one read: each byte in turn, until a line
      decides; `used` is the number of bytes taken. */
  method FeedChunk(chunk: string, build: Build, accum: string, ghost before: string, ghost seen: seq<string>)
    returns (accum': string, ghost seen': seq<string>, used: nat, done: Option<Outcome>)
    requires Framing.Frame("", before, '\n', '\n', true) == Framing.Framed(seen, accum)
    requires Framing.FirstWhere(seen, Decisive) == |seen|
    ensures done.None? ==>
      Framing.Frame("", before + chunk, '\n', '\n', true) == Framing.Framed(seen', accum') &&
      Framing.FirstWhere(seen', Decisive) == |seen'|
    ensures done.Some? ==>
      1 <= used <= |chunk| &&
      Framing.Frame("", before + chunk[..used], '\n', '\n', true).lines == seen' &&
      |seen'| >= 1 && Framing.FirstWhere(seen', Decisive) == |seen'| - 1 &&
      done == Reply(seen'[|seen'| - 1], build)
  {
    accum', seen', used, done := accum, seen, 0, None;
    ghost var prefix := before;
    assert before + chunk[..0] == before;
    var i := 0;
    while i < |chunk|
      invariant 0 <= i <= |chunk| && prefix == before + chunk[..i]
      invariant Framing.Frame("", prefix, '\n', '\n', true) == Framing.Framed(seen', accum')
      invariant Framing.FirstWhere(seen', Decisive) == |seen'|
      invariant done.None?
    {
      AppendNext(before, chunk, i);
      accum', seen', done := LoginByte(chunk[i], build, accum', prefix, seen');
      prefix := prefix + [chunk[i]];
      if done.Some? {
        return accum', seen', i + 1, done;
      }
      i := i + 1;
    }
    assert chunk[..i] == chunk;
  }

  lemma ConcatNext(chunks: seq<string>, k: nat)
    requires k < |chunks|
    ensures Concat(chunks[..k + 1]) == Concat(chunks[..k]) + chunks[k]
  {
    assert chunks[..k + 1][..k] == chunks[..k];
  }

  lemma AppendNext(before: string, chunk: string, i: nat)
    requires i < |chunk|
    ensures before + chunk[..i + 1] == (before + chunk[..i]) + [chunk[i]]
  {
    assert chunk[..i + 1] == chunk[..i] + [chunk[i]];
  }

  /** A reply whose first decisive line completes after `used` bytes of
      read k is decided by that line. */
  lemma DecidedInRead(chunks: seq<string>, k: nat, used: nat, seen: seq<string>, build: Build)
    requires k < FirstEmpty(chunks) && used <= |chunks[k]|
    requires Framing.Frame("", Concat(chunks[..k]) + chunks[k][..used], '\n', '\n', true).lines == seen
    requires |seen| >= 1 && Framing.FirstWhere(seen, Decisive) == |seen| - 1
    ensures LoginOutcome(ReplyLines(Received(chunks)), build) == Reply(seen[|seen| - 1], build).value
  {
    var reply, pre := Received(chunks), Concat(chunks[..k]) + chunks[k][..used];
    ReceivedHas(chunks, k, used);
    assert |pre| <= |reply| && reply[..|pre|] == pre;
    DecidedAt(reply, |pre|, seen, build);
  }

  /** A reply whose first decisive line completes at byte j is decided by
      that line. */
  lemma DecidedAt(reply: string, j: nat, seen: seq<string>, build: Build)
    requires j <= |reply| && Framing.Frame("", reply[..j], '\n', '\n', true).lines == seen
    requires |seen| >= 1 && Framing.FirstWhere(seen, Decisive) == |seen| - 1
    ensures LoginOutcome(ReplyLines(reply), build) == Reply(seen[|seen| - 1], build).value
  {
    Framing.FramePrefix("", reply, j, '\n', '\n', true);
    var lines := ReplyLines(reply);
    Framing.FirstWhereKept(seen, lines, Decisive);
    assert lines[|seen| - 1] == seen[|seen| - 1];
  }

  // -----------------------------------------------------------------------
  // The command file
  // -----------------------------------------------------------------------

  /** The filter for one trimmed file line: not blank, not a comment, and
      not starting with VER in any case. */
  predicate FilePasses(t: string)
  {
    t != "" && Left(t, 1) != "#" && ToUpper(Left(t, 3)) != "VER"
  }

  /** The commands written after a successful login, in file order. */
  function FileCommands(lines: seq<string>): (r: seq<string>)
    ensures |r| <= |lines|
    decreases |lines|
  {
    if lines == [] then []
    else
      var t := Trimmed(lines[|lines| - 1]);
      FileCommands(lines[..|lines| - 1]) + (if FilePasses(t) then [t] else [])
  }

  lemma FileCommandsSnoc(lines: seq<string>, i: nat)
    requires i < |lines|
    ensures var t := Trimmed(lines[i]);
      FileCommands(lines[..i + 1]) == FileCommands(lines[..i]) + (if FilePasses(t) then [t] else [])
  {
    assert lines[..i + 1][..i] == lines[..i];
  }

  /** One file line: written when it passes. The writes of the transfer
      are write(2) calls number 2 onward, after the login's two. */
  method TransferLine(sent: string, warnings: nat, written: nat -> int, lines: seq<string>, i: nat)
    returns (sent': string, warnings': nat)
    requires i < |lines| && sent == Framing.Sent(FileCommands(lines[..i]))
    requires warnings == ShortWrites(FileCommands(lines[..i]), written, 2)
    ensures sent' == Framing.Sent(FileCommands(lines[..i + 1]))
    ensures warnings' == ShortWrites(FileCommands(lines[..i + 1]), written, 2)
  {
    var line := Trimmed(lines[i]);
    FileCommandsSnoc(lines, i);
    sent', warnings' := sent, warnings;
    if line != "" {
      if Left(line, 1) != "#" && ToUpper(Left(line, 3)) != "VER" {
        var before := FileCommands(lines[..i]);
        assert (before + [line])[..|before|] == before;
        var w := WriteToDevice(line, written(2 + |before|));
        sent' := sent + w.0;
        if w.1 {
          warnings' := warnings + 1;
        }
        return;
      }
    }
    assert FileCommands(lines[..i + 1]) == FileCommands(lines[..i]);
  }

  /** The transfer loop after the login. */
  method Transfer(lines: seq<string>, written: nat -> int) returns (sent: string, warnings: nat)
    ensures sent == Framing.Sent(FileCommands(lines))
    ensures warnings == ShortWrites(FileCommands(lines), written, 2)
  {
    sent, warnings := "", 0;
    var i := 0;
    while i < |lines|
      invariant 0 <= i <= |lines|
      invariant sent == Framing.Sent(FileCommands(lines[..i]))
      invariant warnings == ShortWrites(FileCommands(lines[..i]), written, 2)
    {
      sent, warnings := TransferLine(sent, warnings, written, lines, i);
      i := i + 1;
    }
    assert lines[..i] == lines;
  }

  /** How a run ends: it returns after the transfer, exits with status 1
      after printing a message, or reaches undefined behaviour. */
  datatype Run = Returned(sent: string) | Exited(sent: string, message: string) | Crashed(sent: string)

  /** How the connection to the device goes: getaddrinfo fails with the
      text gai_strerror gives, no address it returned accepts a connection
      (the text strerror gives for the last errno), or a socket connects. */
  datatype Connection = Connected | LookupFailed(error: string) | ConnectFailed(error: string)

  /** WriteFromFile from the password prompt to the end of the file.
      `fileOpens` is whether open(2) succeeds and `openError` its error
      text; `link` is how the connection goes; `written` gives what each
      write(2) call returns, the login's two first. `warnings` is the number
      of dropped-characters lines printed on standard error. */
  method WriteFromFile(given: Option<string>, typed: Option<string>, filename: string,
                       fileOpens: bool, openError: string, link: Connection, written: nat -> int,
                       chunks: seq<string>, lines: seq<string>, build: Build) returns (r: Run, warnings: nat)
    requires ReadsWithin(chunks, ReadLimit(build))
    ensures !ReadsStdin(filename) && !fileOpens ==> r == Exited("", "lwrp: " + openError + "\n") && warnings == 0
    ensures ReadsStdin(filename) || fileOpens ==>
      (link.LookupFailed? || link.ConnectFailed?) ==> r == Exited("", "lwrp: " + link.error + "\n") && warnings == 0
    ensures (ReadsStdin(filename) || fileOpens) && link == Connected ==>
      var cmds := [LoginLine(PasswordInForce(given, typed)), "VER"];
      var login := Framing.Sent(cmds);
      match LoginOutcome(ReplyLines(Received(chunks)), build)
      case Accepted =>
        r == Returned(login + Framing.Sent(FileCommands(lines))) &&
        warnings == ShortWrites(cmds, written, 0) + ShortWrites(FileCommands(lines), written, 2)
      case Refused(m) => r == Exited(login, "lwrp: " + m + "\n") && warnings == ShortWrites(cmds, written, 0)
      case Unanswered => r == Exited(login, "lwrp: \n") && warnings == ShortWrites(cmds, written, 0)
      case Undefined => r == Crashed(login) && warnings == ShortWrites(cmds, written, 0)
  {
    var password := given;
    if given.Some? && given.value == "" {
      password := if typed.None? then None else Some(Trimmed(typed.value));
    }
    if !(filename == "" || filename == "-") && !fileOpens {
      return Exited("", "lwrp: " + openError + "\n"), 0;
    }
    match link {
      case LookupFailed(e) =>
        return Exited("", "lwrp: " + e + "\n"), 0;
      case ConnectFailed(e) =>
        return Exited("", "lwrp: " + e + "\n"), 0;
      case Connected =>
    }
    var login, outcome, overran;
    login, warnings, outcome, overran := Login(password, written, chunks, build);
    match outcome {
      case Accepted =>
        var commands, more := Transfer(lines, written);
        r := Returned(login + commands);
        warnings := warnings + more;
      case Refused(m) =>
        r := Exited(login, "lwrp: " + m + "\n");
      case Unanswered =>
        r := Exited(login, "lwrp: \n");
      case Undefined =>
        r := Crashed(login);
    }
  }

  // -----------------------------------------------------------------------
  // Properties of the login
  // -----------------------------------------------------------------------

  /** The device reads the login and version commands as two lines. */
  lemma LoginReadsBack(password: Option<string>)
    requires password.Some? ==> '\r' !in password.value && '\n' !in password.value
    ensures var s := [LoginLine(password), "VER"];
      Framing.Frame("", Framing.Sent(s), '\n', '\r', false) == Framing.Framed(s, "")
  {
    var s := [LoginLine(password), "VER"];
    if password.Some? && password.value != "" {
      assert LoginLine(password) == "LOGIN " + password.value;
    }
    Framing.SentLinesReadBack(s, '\n', '\r', false);
    assert Framing.Finished(s, false) == s;
  }

  /** A password free of blanks and quotes reaches the device as the one
      argument of LOGIN. */
  lemma PasswordIsOneArgument(p: string)
    requires p != "" && ' ' !in p && '"' !in p
    ensures AString.SplitQuoted(LoginLine(Some(p)), " ", "\"") == ["LOGIN", p]
  {
    AString.FirstPartKept("LOGIN", ' ', '"', p);
    AString.PlainScan(p, ' ', '"');
    assert LoginLine(Some(p)) == "LOGIN" + [' '] + p;
    assert (" ", "\"") == ([' '], ['"']);
  }

  /** A reply led by VER confirms the login. */
  lemma VersionReplyAccepts(rest: string, build: Build)
    ensures Reply("VER " + rest, build) == Some(Accepted)
  {
    AString.LeadingToken("VER", rest);
    assert "VER " + rest == "VER" + " " + rest;
  }

  /** An ERROR reply with a code refuses the login with exactly the text
      after the code. */
  lemma ErrorReplyMessage(code: string, msg: string, build: Build)
    requires code != "" && ' ' !in code && '"' !in code
    ensures Reply("ERROR " + code + " " + msg, build) == Some(Refused(msg))
  {
    ErrorReplyParts(code, msg);
    AString.JoinRestores(msg, " ", "\"");
  }

  lemma ErrorReplyParts(code: string, msg: string)
    requires ' ' !in code && '"' !in code
    ensures AString.SplitQuoted("ERROR " + code + " " + msg, " ", "\"") ==
      ["ERROR", code] + AString.SplitQuoted(msg, " ", "\"")
  {
    var c, q := ' ', '"';
    assert (" ", "\"") == ([c], [q]);
    assert "ERROR " + code + " " + msg == "ERROR" + [c] + (code + [c] + msg);
    TwoWordsFirst("ERROR", code, msg, c, q);
  }

  /** Two words free of separator and quote in front of the rest are its
      first two elements. */
  lemma TwoWordsFirst(w: string, code: string, msg: string, c: char, q: char)
    requires c != q && c !in w && q !in w && c !in code && q !in code
    ensures AString.SplitQuoted(w + [c] + (code + [c] + msg), [c], [q]) ==
      [w, code] + AString.SplitQuoted(msg, [c], [q])
  {
    var rest := AString.SplitQuoted(msg, [c], [q]);
    AString.FirstPartKept(w, c, q, code + [c] + msg);
    AString.FirstPartKept(code, c, q, msg);
    assert [w] + ([code] + rest) == [w, code] + rest;
  }

  /** Lines before the first decisive one are discarded: they do not change
      the outcome. */
  lemma QuietLinesIgnored(quiet: seq<string>, rest: seq<string>, build: Build)
    requires forall i :: 0 <= i < |quiet| ==> !Decisive(quiet[i])
    ensures LoginOutcome(quiet + rest, build) == LoginOutcome(rest, build)
  {
    var k := Framing.FirstWhere(rest, Decisive);
    assert Framing.FirstWhere(quiet + rest, Decisive) == |quiet| + k by {
      Framing.FirstWhereAfter(quiet, rest, Decisive);
    }
    var lines := quiet + rest;
    if k < |rest| {
      assert lines[|quiet| + k] == rest[k];
      assert LoginOutcome(lines, build) == Reply(rest[k], build).value;
    } else {
      assert LoginOutcome(lines, build) == Unanswered;
    }
  }

  /** A reply stream with no decisive line leaves the login unanswered. */
  lemma NoDecisiveLine(reply: string, build: Build)
    requires forall i :: 0 <= i < |ReplyLines(reply)| ==> !Decisive(ReplyLines(reply)[i])
    ensures LoginOutcome(ReplyLines(reply), build) == Unanswered
  {
  }

  // -----------------------------------------------------------------------
  // Findings
  // -----------------------------------------------------------------------

  /** The bare reply ERROR splits into the one word. */
  lemma BareErrorWord()
    ensures AString.SplitQuoted("ERROR", " ", "\"") == ["ERROR"]
  {
    AString.PlainScan("ERROR", ' ', '"');
    assert (" ", "\"") == ([' '], ['"']);
  }

  /** As written, the bare reply ERROR removes a second element from an
      empty list: undefined behaviour. */
  lemma BareErrorUndefined()
    ensures Reply("ERROR", AsWritten) == Some(Undefined)
  {
    BareErrorWord();
  }

  /** Corrected, the bare reply ERROR refuses the login with an empty
      message. */
  lemma BareErrorRefused()
    ensures Reply("ERROR", Corrected) == Some(Refused(""))
  {
    BareErrorWord();
  }

  /** Corrected, no reply line leads to undefined behaviour: every ERROR
      reply refuses the login with its text. */
  lemma CorrectedNeverUndefined(line: string)
    ensures Reply(line, Corrected) != Some(Undefined)
  {
  }

  /** The read buffer holds 1024 bytes and the reply is read 1024 bytes at
      a time as written (1023 corrected); each read is followed by a
      terminating zero stored at the index equal to the count read. */
  const ReplyBufferSize := 1024

  function ReadLimit(build: Build): (r: nat)
    ensures r >= 1
  {
    if build == AsWritten then ReplyBufferSize else ReplyBufferSize - 1
  }

  /** Whether the terminator after a read of n bytes lies inside the
      buffer. */
  predicate TerminatorFits(n: nat)
  {
    n < ReplyBufferSize
  }

  /** read(2) returns no more bytes than it is asked for. */
  predicate ReadsWithin(chunks: seq<string>, limit: nat)
  {
    forall k :: 0 <= k < |chunks| ==> |chunks[k]| <= limit
  }

  /** Whether one of the first `taken` reads stored its terminator past the
      buffer. */
  predicate Overruns(chunks: seq<string>, taken: nat)
    requires taken <= |chunks|
  {
    exists k :: 0 <= k < taken && !TerminatorFits(|chunks[k]|)
  }

  lemma OverrunsStep(chunks: seq<string>, k: nat)
    requires k < |chunks|
    ensures Overruns(chunks, k + 1) <==> Overruns(chunks, k) || !TerminatorFits(|chunks[k]|)
  {
    if Overruns(chunks, k + 1) && !Overruns(chunks, k) {
      var j :| 0 <= j < k + 1 && !TerminatorFits(|chunks[j]|);
      assert j == k;
    }
  }

  /** As written, a login whose first read fills the buffer stores that
      read's terminator one past it, however many chunks the loop takes. */
  lemma FullReadOverruns(chunks: seq<string>, taken: nat)
    requires 1 <= taken <= |chunks| && |chunks[0]| == ReadLimit(AsWritten)
    ensures ReadsWithin([chunks[0]], ReadLimit(AsWritten))
    ensures Overruns(chunks, taken)
  {
    assert !TerminatorFits(|chunks[0]|);
  }

  /** Corrected, no read the loop takes stores its terminator outside the
      buffer. */
  lemma ReadsFit(chunks: seq<string>, taken: nat)
    requires ReadsWithin(chunks, ReadLimit(Corrected)) && taken <= |chunks|
    ensures !Overruns(chunks, taken)
  {
  }

  /** The bytes of the reads, in order. */
  function Concat(chunks: seq<string>): string
  {
    if chunks == [] then "" else Concat(chunks[..|chunks| - 1]) + chunks[|chunks| - 1]
  }

  /** The index of the first read that returns nothing (the length when
      none does). */
  function FirstEmpty(chunks: seq<string>): (m: nat)
    ensures m <= |chunks|
    decreases |chunks|
  {
    if chunks == [] || chunks[0] == [] then 0 else 1 + FirstEmpty(chunks[1..])
  }

  /** Every read before FirstEmpty returned bytes, and the one there did
      not. */
  lemma {:induction false} FirstEmptyIsFirst(chunks: seq<string>)
    ensures forall j :: 0 <= j < FirstEmpty(chunks) ==> chunks[j] != []
    ensures FirstEmpty(chunks) < |chunks| ==> chunks[FirstEmpty(chunks)] == []
    decreases |chunks|
  {
    if chunks != [] && chunks[0] != [] {
      FirstEmptyIsFirst(chunks[1..]);
      forall j | 1 <= j < FirstEmpty(chunks)
        ensures chunks[j] != []
      {
        assert chunks[j] == chunks[1..][j - 1];
      }
    }
  }

  /** The reply the device sent, as the read loop sees it: the bytes of
      every read before the first empty one. */
  function Received(chunks: seq<string>): string
  {
    Concat(chunks[..FirstEmpty(chunks)])
  }

  lemma NotYetEmpty(chunks: seq<string>, k: nat)
    requires k < |chunks| && chunks[k] != [] && k <= FirstEmpty(chunks)
    ensures k < FirstEmpty(chunks)
  {
    FirstEmptyIsFirst(chunks);
  }

  /** A reply read to the first empty read without a decisive line leaves
      the login unanswered. */
  lemma NoDecisionReceived(chunks: seq<string>, k: nat, seen: seq<string>, accum: string, build: Build)
    requires k <= FirstEmpty(chunks) && (k == |chunks| || chunks[k] == [])
    requires Framing.Frame("", Concat(chunks[..k]), '\n', '\n', true) == Framing.Framed(seen, accum)
    requires Framing.FirstWhere(seen, Decisive) == |seen|
    ensures FirstEmpty(chunks) == k
    ensures LoginOutcome(ReplyLines(Received(chunks)), build) == Unanswered
  {
    FirstEmptyAt(chunks, k);
  }

  lemma FirstEmptyAt(chunks: seq<string>, k: nat)
    requires k <= FirstEmpty(chunks) && (k == |chunks| || chunks[k] == [])
    ensures FirstEmpty(chunks) == k
  {
    FirstEmptyIsFirst(chunks);
  }

  lemma {:induction false} ConcatAppend(a: seq<string>, b: seq<string>)
    ensures Concat(a + b) == Concat(a) + Concat(b)
    decreases |b|
  {
    if b != [] {
      var b' := b[..|b| - 1];
      assert (a + b)[..|a + b| - 1] == a + b';
      ConcatAppend(a, b');
      calc {
        Concat(a + b);
        Concat(a + b') + b[|b| - 1];
        Concat(a) + Concat(b') + b[|b| - 1];
        Concat(a) + Concat(b);
      }
    } else {
      assert a + b == a;
    }
  }

  /** The first i bytes of read k, after the reads before it, begin the
      reply received. */
  lemma ReceivedHas(chunks: seq<string>, k: nat, i: nat)
    requires k < FirstEmpty(chunks) && i <= |chunks[k]|
    ensures |Concat(chunks[..k]) + chunks[k][..i]| <= |Received(chunks)|
    ensures Received(chunks)[..|Concat(chunks[..k])| + i] == Concat(chunks[..k]) + chunks[k][..i]
  {
    var c, rest := Concat(chunks[..k]), Concat(chunks[k + 1..FirstEmpty(chunks)]);
    ReceivedAround(chunks, k);
    assert Received(chunks) == (c + chunks[k][..i]) + (chunks[k][i..] + rest) by {
      assert chunks[k] == chunks[k][..i] + chunks[k][i..];
    }
  }

  /** The reply received is the reads before read k, read k, then the reads
      after it up to the first empty one. */
  lemma ReceivedAround(chunks: seq<string>, k: nat)
    requires k < FirstEmpty(chunks)
    ensures Received(chunks) == Concat(chunks[..k]) + chunks[k] + Concat(chunks[k + 1..FirstEmpty(chunks)])
  {
    var m := FirstEmpty(chunks);
    var pre, post := chunks[..k + 1], chunks[k + 1..m];
    assert chunks[..m] == pre + post;
    ConcatAppend(pre, post);
    assert Concat(pre) == Concat(chunks[..k]) + chunks[k] by {
      assert pre[..k] == chunks[..k];
    }
  }

  // -----------------------------------------------------------------------
  // Properties of the file filter
  // -----------------------------------------------------------------------

  /** Lines starting with VER in any case (VER, version, VERBOSE...) are
      held back; IP lines, unlike in the interactive monitor, go out. */
  lemma FilterByPrefix(t: string, rest: string)
    requires |t| >= 3 && UpperChar(t[0]) == 'V' && UpperChar(t[1]) == 'E' && UpperChar(t[2]) == 'R'
    ensures !FilePasses(t)
    ensures FilePasses("IP" + rest)
  {
    assert Left(t, 3) == t[..3];
    assert ToUpper(t[..3]) == "VER";
    var ip := "IP" + rest;
    assert Left(ip, 1) == "I";
    assert ToUpper(Left(ip, 3))[0] == 'I';
  }

  /** Blank and comment lines are never written. */
  lemma BlankAndCommentHeldBack(line: string)
    requires Trimmed(line) == "" || Trimmed(line)[0] == '#'
    ensures FileCommands([line]) == []
  {
    assert [line][..0] == [];
    if Trimmed(line) != "" {
      assert Left(Trimmed(line), 1) == "#";
    }
  }
}
