/**
 * The monitor's colorizer: wraps the words of an LWRP or LWCP line in HTML
 * font tags. Each output piece is modelled together with the plain text it
 * shows, so that what the reader sees can be compared with the line that
 * came in.
 */
module Colors {
  import opened QtText
  import opened Variant
  import opened AString

  /** MainWidget::Mode. */
  datatype Mode = Lwrp | Lwcp | Lwaddr

  /** The Qt global colours the colorizer uses. */
  datatype Color = Red | Blue | DarkGreen | Magenta | Gray | Cyan

  /** QColor::name() of each colour: "#rrggbb". */
  function ColorName(c: Color): (r: string)
    ensures |r| == 7 && r[0] == '#'
  {
    match c
    case Red => "#ff0000"
    case Blue => "#0000ff"
    case DarkGreen => "#008000"
    case Magenta => "#ff00ff"
    case Gray => "#a0a0a4"
    case Cyan => "#00ffff"
  }

  /** ColorString: the text inside a font tag naming the colour. */
  function ColorString(s: string, c: Color): string
  {
    "<font color=\"" + ColorName(c) + "\">" + s + "</font>"
  }

  /** The text sits at a fixed offset inside the tag and can be read back;
      the markup ends with the closing tag. */
  lemma ColorStringLayout(s: string, c: Color)
    ensures var r := ColorString(s, c);
      |r| == |s| + 29 && r[..13] == "<font color=\"" && r[13..20] == ColorName(c) &&
      r[20..22] == "\">" && r[22..|r| - 7] == s && r[|r| - 7..] == "</font>"
  {
  }

  /** A piece of output: its markup and the plain text a reader sees. */
  datatype Out = Out(markup: string, plain: string)

  function Text(s: string): Out
  {
    Out(s, s)
  }

  function Colored(s: string, c: Color): Out
  {
    Out(ColorString(s, c), s)
  }

  function Cat(a: Out, b: Out): Out
  {
    Out(a.markup + b.markup, a.plain + b.plain)
  }

  /** `x.left(1) == "\""`: the part opens a quote. */
  predicate Quoted(x: string)
  {
    Left(x, 1) == "\""
  }

  /** The quote-aware word split of a line, as both colorizers make it. */
  function Words(cmd: string): (r: seq<string>)
    ensures |r| >= 1
  {
    SplitQuoted(Trimmed(cmd), " ", "\"")
  }

  // -----------------------------------------------------------------------
  // LWRP
  // -----------------------------------------------------------------------

  /** Middle part j of a name:value token. As written, an unquoted middle
      part prints part 1 in place of part j. */
  function MiddlePart(f1: seq<string>, j: nat, b: Build): Out
    requires 1 <= j < |f1|
  {
    if Quoted(f1[j]) then Cat(Colored(f1[j], Gray), Text(":"))
    else Text((if b == AsWritten then f1[1] else f1[j]) + ":")
  }

  /** The middle parts 1 .. hi-1. */
  function Middle(f1: seq<string>, hi: nat, b: Build): Out
    requires 1 <= hi <= |f1|
    decreases hi
  {
    if hi == 1 then Text("") else Cat(Middle(f1, hi - 1, b), MiddlePart(f1, hi - 1, b))
  }

  function LastPart(x: string): Out
  {
    if Quoted(x) then Cat(Colored(x, Gray), Text(" ")) else Text(x + " ")
  }

  /** A token in the value-pairs state: split on ':' outside quotes, the
      first part magenta, quoted parts gray. */
  function ValuePairs(tok: string, b: Build): Out
  {
    PartsOut(SplitQuoted(tok, ":", "\""), b)
  }

  function PartsOut(f1: seq<string>, b: Build): Out
    requires |f1| >= 1
  {
    if |f1| < 2 then Text(f1[|f1| - 1] + " ")
    else Cat(Cat(Cat(Colored(f1[0], Magenta), Text(":")), Middle(f1, |f1| - 1, b)),
             LastPart(f1[|f1| - 1]))
  }

  /** A word followed by a space, in a colour. */
  function Word(tok: string, c: Color): Out
  {
    Cat(Colored(tok, c), Text(" "))
  }

  /** One step of the LWRP state machine: the output for the token and the
      next state, or None when the token is not acceptable in this state.
      States: 0 command, 1 slot number, 2 value pairs, 3 IP field name,
      4 IP field value, 5 meter type, 6 level type, 7 plain. */
  function LwrpStep(st: nat, tok: string, b: Build): (r: Option<(Out, nat)>)
    ensures st <= 6 && r.Some? ==> r.value.1 <= 6
    ensures st == 2 ==> r == Some((ValuePairs(tok, b), 2))
    ensures st == 1 || st == 4 || st == 7 ==> r.Some?
  {
    if st == 0 then
      if tok == "IP" then Some((Word(tok, Blue), 3))
      else if tok == "LVL" then Some((Word(tok, Blue), 6))
      else if tok == "MTR" then Some((Word(tok, Blue), 5))
      else if tok == "VER" then Some((Word(tok, Blue), 2))
      else if tok == "DST" || tok == "SRC" || tok == "GPI" || tok == "GPO" then Some((Word(tok, Blue), 1))
      else if tok == "ADD" || tok == "DEL" || tok == "CFG" then Some((Word(tok, Blue), 0))
      else None
    else if st == 1 then Some((Word(tok, DarkGreen), 2))
    else if st == 2 then Some((ValuePairs(tok, b), 2))
    else if st == 3 then
      if tok == "address" || tok == "netmask" || tok == "gateway" || tok == "hostname"
      then Some((Word(tok, Magenta), 4))
      else None
    else if st == 4 then Some((Text(tok + " "), 3))
    else if st == 5 || st == 6 then
      if tok == "ICH" || tok == "OCH" then Some((Word(tok, Cyan), 1)) else None
    else if st == 7 then Some((Text(tok + " "), 7))
    else None
  }

  /** The machine run over the first tokens: the output so far and the
      state, or None once a token was not acceptable. */
  function LwrpRun(tokens: seq<string>, b: Build): (r: Option<(Out, nat)>)
    ensures r.Some? ==> r.value.1 <= 6
    decreases |tokens|
  {
    if tokens == [] then Some((Text(""), 0))
    else
      match LwrpRun(tokens[..|tokens| - 1], b)
      case None => None
      case Some(sofar) =>
        match LwrpStep(sofar.1, tokens[|tokens| - 1], b)
        case None => None
        case Some(step) => Some((Cat(sofar.0, step.0), step.1))
  }

  /** ColorizeLwrp: an ERROR line in red; otherwise the run's markup, or the
      line unchanged when some token was not acceptable. */
  function LwrpText(cmd: string, b: Build): string
  {
    var f0 := Words(cmd);
    if f0[0] == "ERROR" then ColorString(cmd, Red)
    else
      match LwrpRun(f0, b)
      case None => cmd
      case Some(r) => r.0.markup
  }

  /** The markup of a value-pairs token, built part by part. */
  method ValuePairsMarkup(tok: string, b: Build) returns (ret: string)
    ensures ret == ValuePairs(tok, b).markup
  {
    var f1 := SplitQuoted(tok, ":", "\"");
    ret := PartsMarkup(f1, b);
  }

  /** The markup of the ':'-separated parts of a token. */
  method PartsMarkup(f1: seq<string>, b: Build) returns (ret: string)
    requires |f1| >= 1
    ensures ret == PartsOut(f1, b).markup
  {
    if |f1| < 2 {
      return f1[|f1| - 1] + " ";
    }
    var head := ColorString(f1[0], Magenta) + ":";
    var mid := "";
    var j := 1;
    while j < |f1| - 1
      invariant 1 <= j <= |f1| - 1
      invariant mid == Middle(f1, j, b).markup
    {
      var piece := MiddleMarkup(f1, j, b);
      mid := mid + piece;
      j := j + 1;
    }
    var last := f1[|f1| - 1];
    var tail;
    if Left(last, 1) == "\"" {
      tail := ColorString(last, Gray) + " ";
    } else {
      tail := last + " ";
    }
    ret := head + mid + tail;
  }

  /** One middle part of a name:value token. */
  method MiddleMarkup(f1: seq<string>, j: nat, b: Build) returns (piece: string)
    requires 1 <= j < |f1|
    ensures piece == MiddlePart(f1, j, b).markup
  {
    if Left(f1[j], 1) == "\"" {
      piece := ColorString(f1[j], Gray) + ":";
    } else if b == AsWritten {
      piece := f1[1] + ":";
    } else {
      piece := f1[j] + ":";
    }
  }

  /** One pass of the switch in ColorizeLwrp. */
  method LwrpToken(istate: nat, tok: string, b: Build) returns (ok: bool, piece: string, next: nat)
    ensures ok <==> LwrpStep(istate, tok, b).Some?
    ensures ok ==> piece == LwrpStep(istate, tok, b).value.0.markup && next == LwrpStep(istate, tok, b).value.1
  {
    ok, piece, next := false, "", istate;
    if istate == 0 {
      if tok == "IP" {
        piece, next, ok := ColorString(tok, Blue) + " ", 3, true;
      }
      if tok == "LVL" {
        piece, next, ok := ColorString(tok, Blue) + " ", 6, true;
      }
      if tok == "MTR" {
        piece, next, ok := ColorString(tok, Blue) + " ", 5, true;
      }
      if tok == "VER" {
        piece, next, ok := ColorString(tok, Blue) + " ", 2, true;
      }
      if tok == "DST" || tok == "SRC" || tok == "GPI" || tok == "GPO" {
        piece, next, ok := ColorString(tok, Blue) + " ", 1, true;
      }
      if tok == "ADD" || tok == "DEL" || tok == "CFG" {
        piece, ok := ColorString(tok, Blue) + " ", true;
      }
    } else if istate == 1 {
      piece, next, ok := ColorString(tok, DarkGreen) + " ", 2, true;
    } else if istate == 2 {
      piece := ValuePairsMarkup(tok, b);
      ok := true;
    } else if istate == 3 {
      if tok == "address" || tok == "netmask" || tok == "gateway" || tok == "hostname" {
        piece, next, ok := ColorString(tok, Magenta) + " ", 4, true;
      }
    } else if istate == 4 {
      piece, next, ok := tok + " ", 3, true;
    } else if istate == 5 || istate == 6 {
      if tok == "ICH" || tok == "OCH" {
        piece, next, ok := ColorString(tok, Cyan) + " ", 1, true;
      }
    } else if istate == 7 {
      piece, ok := tok + " ", true;
    }
  }

  /** ColorizeLwrp: walks the tokens through the state machine, bailing out
      with the line unchanged on the first token it does not accept. */
  method ColorizeLwrp(cmd: string, b: Build) returns (ret: string)
    ensures ret == LwrpText(cmd, b)
  {
    var f0 := Words(cmd);
    if f0[0] == "ERROR" {
      return ColorString(cmd, Red);
    }
    var ok, markup := RunMarkup(f0, b);
    ret := if ok then markup else cmd;
  }

  /** The loop of ColorizeLwrp over the tokens. */
  method RunMarkup(f0: seq<string>, b: Build) returns (ok: bool, ret: string)
    ensures ok <==> LwrpRun(f0, b).Some?
    ensures ok ==> ret == LwrpRun(f0, b).value.0.markup
  {
    ret := "";
    var istate: nat := 0;
    var i := 0;
    while i < |f0|
      invariant 0 <= i <= |f0|
      invariant LwrpRun(f0[..i], b).Some? && LwrpRun(f0[..i], b).value.1 == istate
      invariant LwrpRun(f0[..i], b).value.0.markup == ret
    {
      var piece, next;
      ok, piece, next := LwrpToken(istate, f0[i], b);
      if !ok {
        RunRefused(f0, i, b);
        return;
      }
      RunAccepted(f0, i, b);
      ret := ret + piece;
      istate := next;
      i := i + 1;
    }
    assert f0[..i] == f0;
    ok := true;
  }

  /** A token the current state refuses ends the run refused. */
  lemma RunRefused(f0: seq<string>, i: nat, b: Build)
    requires i < |f0| && LwrpRun(f0[..i], b).Some?
    requires LwrpStep(LwrpRun(f0[..i], b).value.1, f0[i], b).None?
    ensures LwrpRun(f0, b).None?
  {
    assert f0[..i + 1][..i] == f0[..i];
    RunStopsAtFailure(f0, i + 1, b);
  }

  /** A token the current state accepts extends the run by its output. */
  lemma RunAccepted(f0: seq<string>, i: nat, b: Build)
    requires i < |f0| && LwrpRun(f0[..i], b).Some?
    requires LwrpStep(LwrpRun(f0[..i], b).value.1, f0[i], b).Some?
    ensures var sofar, step := LwrpRun(f0[..i], b).value, LwrpStep(LwrpRun(f0[..i], b).value.1, f0[i], b).value;
      LwrpRun(f0[..i + 1], b) == Some((Cat(sofar.0, step.0), step.1))
  {
    assert f0[..i + 1][..i] == f0[..i];
  }

  /** Once a token is refused, the whole run is refused. */
  lemma {:induction false} RunStopsAtFailure(tokens: seq<string>, k: nat, b: Build)
    requires k <= |tokens| && LwrpRun(tokens[..k], b).None?
    ensures LwrpRun(tokens, b).None?
    decreases |tokens| - k
  {
    if k < |tokens| {
      assert tokens[..k + 1][..k] == tokens[..k];
      RunStopsAtFailure(tokens, k + 1, b);
    } else {
      assert tokens[..k] == tokens;
    }
  }

  /** A line whose first word is not an LWRP command (ERROR aside) comes
      back unchanged. */
  lemma UnknownCommandUnchanged(cmd: string, b: Build)
    requires Words(cmd)[0] != "ERROR" && LwrpStep(0, Words(cmd)[0], b).None?
    ensures LwrpText(cmd, b) == cmd
  {
    var f0 := Words(cmd);
    assert f0[..1][..0] == [];
    RunStopsAtFailure(f0, 1, b);
  }

  /** Every accepted token's output ends with a single space. */
  lemma StepEndsWithSpace(st: nat, tok: string, b: Build)
    requires LwrpStep(st, tok, b).Some?
    ensures var m := LwrpStep(st, tok, b).value.0.markup; |m| >= 1 && m[|m| - 1] == ' '
  {
  }

  /** The value-pairs state accepts everything that follows it. */
  lemma {:induction false} ValuePairsAcceptRest(tokens: seq<string>, rest: seq<string>, b: Build)
    requires LwrpRun(tokens, b).Some? && LwrpRun(tokens, b).value.1 == 2
    ensures LwrpRun(tokens + rest, b).Some? && LwrpRun(tokens + rest, b).value.1 == 2
    decreases |rest|
  {
    if rest == [] {
      assert tokens + rest == tokens;
    } else {
      var front := rest[..|rest| - 1];
      ValuePairsAcceptRest(tokens, front, b);
      assert (tokens + rest)[..|tokens + rest| - 1] == tokens + front;
    }
  }

  /** The corrected middle parts show the parts with ':' between them. */
  lemma {:induction false} MiddlePlain(f1: seq<string>, hi: nat)
    requires 1 <= hi < |f1|
    ensures f1[0] + ":" + Middle(f1, hi, Corrected).plain + f1[hi] == Join(f1[..hi + 1], ":")
    decreases hi
  {
    if hi == 1 {
      assert f1[..2][1..] == [f1[1]];
    } else {
      var m0 := Middle(f1, hi - 1, Corrected).plain;
      var m1 := Middle(f1, hi, Corrected).plain;
      assert m1 == m0 + (f1[hi - 1] + ":");
      assert Join(f1[..hi], ":") == f1[0] + ":" + m0 + f1[hi - 1] by {
        MiddlePlain(f1, hi - 1);
      }
      JoinTakeSnoc(f1, hi, ":");
      RegroupMiddle(f1[0], ":", m0, f1[hi - 1], f1[hi]);
    }
  }

  /** Corrected, a value-pairs token shows exactly its own text. */
  lemma ValuePairsPlain(tok: string)
    ensures ValuePairs(tok, Corrected).plain == tok + " "
  {
    PartsPlain(SplitQuoted(tok, ":", "\""));
    JoinRestores(tok, ":", "\"");
  }

  /** Corrected, the parts show joined by ':' and followed by a space. */
  lemma PartsPlain(f1: seq<string>)
    requires |f1| >= 1
    ensures PartsOut(f1, Corrected).plain == Join(f1, ":") + " "
  {
    if |f1| >= 2 {
      var hi := |f1| - 1;
      var m := Middle(f1, hi, Corrected).plain;
      assert LastPart(f1[hi]).plain == f1[hi] + " ";
      assert PartsOut(f1, Corrected).plain == (f1[0] + ":" + m) + (f1[hi] + " ");
      RegroupLast(f1[0] + ":", m, f1[hi], " ");
      assert f1[0] + ":" + m + f1[hi] == Join(f1, ":") by {
        MiddlePlain(f1, hi);
        assert f1[..hi + 1] == f1;
      }
    }
  }

  /** Corrected, every accepted token shows as itself and a space. */
  lemma StepPlain(st: nat, tok: string)
    requires LwrpStep(st, tok, Corrected).Some?
    ensures LwrpStep(st, tok, Corrected).value.0.plain == tok + " "
  {
    if st == 2 {
      ValuePairsPlain(tok);
    }
  }

  /** Corrected, a run that succeeds shows the tokens joined by spaces. */
  lemma {:induction false} RunPlain(tokens: seq<string>)
    requires tokens != [] && LwrpRun(tokens, Corrected).Some?
    ensures LwrpRun(tokens, Corrected).value.0.plain == Join(tokens, " ") + " "
    decreases |tokens|
  {
    var front := tokens[..|tokens| - 1];
    var x := tokens[|tokens| - 1];
    var sofar := LwrpRun(front, Corrected).value;
    StepPlain(sofar.1, x);
    assert front + [x] == tokens;
    if front == [] {
      assert tokens == [x];
    } else {
      RunPlain(front);
      JoinSnoc(front, " ", x);
    }
  }

  /** Corrected, a colorized LWRP line shows exactly the trimmed line and a
      trailing space: nothing is dropped, repeated or reordered. */
  lemma LwrpShowsLine(cmd: string)
    requires Words(cmd)[0] != "ERROR" && LwrpRun(Words(cmd), Corrected).Some?
    ensures LwrpText(cmd, Corrected) == LwrpRun(Words(cmd), Corrected).value.0.markup
    ensures LwrpRun(Words(cmd), Corrected).value.0.plain == Trimmed(cmd) + " "
  {
    RunPlain(Words(cmd));
    JoinRestores(Trimmed(cmd), " ", "\"");
  }

  /** Parts free of ':' and '"' joined by ':' split back into themselves. */
  lemma FourParts(a: string, p: string, q: string, d: string)
    requires ':' !in a && ':' !in p && ':' !in q && ':' !in d
    requires '"' !in a && '"' !in p && '"' !in q && '"' !in d
    ensures SplitQuoted(a + ":" + p + ":" + q + ":" + d, ":", "\"") == [a, p, q, d]
  {
    var parts := [a, p, q, d];
    var tok := a + ":" + p + ":" + q + ":" + d;
    assert Join(parts, ":") == tok by {
      assert Join(parts[3..], ":") == d;
      assert Join(parts[2..], ":") == q + ":" + d;
      assert Join(parts[1..], ":") == p + ":" + q + ":" + d;
    }
    JoinHasNo(parts, ":", '"');
    QuoteFreeSplitIsPlain(tok, ':', '"');
    SplitJoin(parts, ':');
  }

  /** As written, a value with four unquoted parts a:p:q:d shows as
      a:p:p:d; corrected, it shows as itself. */
  lemma MiddlePartRepeated(a: string, p: string, q: string, d: string)
    requires ':' !in a && ':' !in p && ':' !in q && ':' !in d
    requires '"' !in a && '"' !in p && '"' !in q && '"' !in d
    ensures ValuePairs(a + ":" + p + ":" + q + ":" + d, AsWritten).plain == a + ":" + p + ":" + p + ":" + d + " "
    ensures ValuePairs(a + ":" + p + ":" + q + ":" + d, Corrected).plain == a + ":" + p + ":" + q + ":" + d + " "
  {
    var tok := a + ":" + p + ":" + q + ":" + d;
    FourParts(a, p, q, d);
    ValuePairsPlain(tok);
    FourPartsAsWritten(a, p, q, d);
  }

  lemma FourPartsAsWritten(a: string, p: string, q: string, d: string)
    requires '"' !in p && '"' !in q && '"' !in d
    ensures PartsOut([a, p, q, d], AsWritten).plain == a + ":" + p + ":" + p + ":" + d + " "
  {
    var f1 := [a, p, q, d];
    assert !Quoted(p) && !Quoted(q) && !Quoted(d) by {
      if p != [] { assert p[0] != '"'; }
      if q != [] { assert q[0] != '"'; }
      if d != [] { assert d[0] != '"'; }
    }
    assert Middle(f1, 2, AsWritten).plain == p + ":";
    assert Middle(f1, 3, AsWritten).plain == p + ":" + p + ":";
  }

  // -----------------------------------------------------------------------
  // LWCP
  // -----------------------------------------------------------------------

  /** One comma-separated item: the name magenta; a name=value pair adds
      '=', the value (gray when quoted) and a ','. */
  function LwcpItem(item: string): Out
  {
    ItemOut(SplitQuoted(item, "=", "\""))
  }

  /** The output of an item from its '='-separated parts. */
  function ItemOut(f2: seq<string>): Out
    requires |f2| >= 1
  {
    if |f2| == 2 then
      Cat(Cat(Cat(Colored(f2[0], Magenta), Text("=")),
              if Quoted(f2[1]) then Colored(f2[1], Gray) else Text(f2[1])),
          Text(","))
    else Colored(f2[0], Magenta)
  }

  /** The items, one after another. */
  function LwcpItems(f1: seq<string>): Out
    decreases |f1|
  {
    if f1 == [] then Text("")
    else Cat(LwcpItems(f1[..|f1| - 1]), LwcpItem(f1[|f1| - 1]))
  }

  /** The comma-separated items after the first two words. */
  function Items(f0: seq<string>): (r: seq<string>)
    requires |f0| >= 2
    ensures |r| >= 1
  {
    SplitQuoted(Join(f0[2..], " "), ",", "\"")
  }

  /** The output of a line of two words or more, before the final cut. */
  function LwcpBody(f0: seq<string>): Out
    requires |f0| >= 2
  {
    Body(f0[0], f0[1], Items(f0))
  }

  /** The command word blue, the second word dark green, then the items. */
  function Body(w0: string, w1: string, f1: seq<string>): Out
  {
    Head(w0, w1, LwcpItems(f1))
  }

  /** The two head words in front of what follows them. */
  function Head(w0: string, w1: string, rest: Out): Out
  {
    Cat(Cat(Cat(Colored(w0, Blue), Text(" ")), Cat(Colored(w1, DarkGreen), Text(" "))), rest)
  }

  /** The final cut. As written the last character goes whatever it is;
      corrected, only a trailing ','. */
  function Cut(m: string, b: Build): string
  {
    if b == AsWritten then Left(m, |m| - 1)
    else if m != [] && m[|m| - 1] == ',' then m[..|m| - 1]
    else m
  }

  /** ColorizeLwcp. */
  function LwcpText(cmd: string, b: Build): string
  {
    var f0 := Words(cmd);
    if f0[0] == "ERROR" then ColorString(cmd, Red)
    else if |f0| == 1 then ColorString(f0[0], Blue)
    else Cut(LwcpBody(f0).markup, b)
  }

  /** The loop over the items. */
  method LwcpItemsMarkup(f1: seq<string>) returns (ret: string)
    ensures ret == LwcpItems(f1).markup
  {
    ret := "";
    var i := 0;
    while i < |f1|
      invariant 0 <= i <= |f1|
      invariant ret == LwcpItems(f1[..i]).markup
    {
      ret := AppendItem(ret, f1, i);
      i := i + 1;
    }
    assert f1[..i] == f1;
  }

  /** One pass of the item loop. */
  method AppendItem(ret: string, f1: seq<string>, i: nat) returns (more: string)
    requires i < |f1| && ret == LwcpItems(f1[..i]).markup
    ensures more == LwcpItems(f1[..i + 1]).markup
  {
    assert f1[..i + 1][..i] == f1[..i];
    var piece := ItemMarkup(f1[i]);
    more := ret + piece;
  }

  /** The name, and for a pair '=', the value and ','. */
  method ItemMarkup(item: string) returns (piece: string)
    ensures piece == LwcpItem(item).markup
  {
    var f2 := SplitQuoted(item, "=", "\"");
    piece := ColorString(f2[0], Magenta);
    if |f2| == 2 {
      piece := piece + "=";
      if Left(f2[1], 1) == "\"" {
        piece := piece + ColorString(f2[1], Gray);
      } else {
        piece := piece + f2[1];
      }
      piece := piece + ",";
    }
  }

  /** ColorizeLwcp: the head words, then the items, then the final cut. */
  method ColorizeLwcp(cmd: string, b: Build) returns (ret: string)
    ensures ret == LwcpText(cmd, b)
  {
    var f0 := Words(cmd);
    if f0[0] == "ERROR" {
      return ColorString(cmd, Red);
    }
    if |f0| == 1 {
      return ColorString(f0[0], Blue);
    }
    var body := BodyMarkup(f0[0], f0[1], Items(f0));
    ret := CutMarkup(body, b);
  }

  /** The head words and the items' markup. */
  method BodyMarkup(w0: string, w1: string, f1: seq<string>) returns (ret: string)
    ensures ret == Body(w0, w1, f1).markup
  {
    var items := LwcpItemsMarkup(f1);
    ret := ColorString(w0, Blue) + " " + (ColorString(w1, DarkGreen) + " ") + items;
  }

  /** `ret = ret.left(ret.length() - 1)`, and its correction. */
  method CutMarkup(m: string, b: Build) returns (ret: string)
    ensures ret == Cut(m, b)
  {
    ret := m;
    if b == AsWritten {
      ret := Left(m, |m| - 1);
    } else if m != [] && m[|m| - 1] == ',' {
      ret := m[..|m| - 1];
    }
  }

  /** An item's output ends with ',' after a pair, otherwise with the
      closing font tag. */
  lemma ItemOutEnd(f2: seq<string>)
    requires |f2| >= 1
    ensures var m := ItemOut(f2).markup;
      (|f2| == 2 ==> |m| >= 1 && m[|m| - 1] == ',') &&
      (|f2| != 2 ==> |m| >= 7 && m[|m| - 7..] == "</font>")
  {
    if |f2| != 2 {
      ColorStringLayout(f2[0], Magenta);
    }
  }

  /** The items' output ends as the last item's does. */
  lemma ItemsEnd(f1: seq<string>)
    requires f1 != []
    ensures var m := LwcpItems(f1).markup;
      var f2 := SplitQuoted(f1[|f1| - 1], "=", "\"");
      (|f2| == 2 ==> |m| >= 1 && m[|m| - 1] == ',') &&
      (|f2| != 2 ==> |m| >= 7 && m[|m| - 7..] == "</font>")
  {
    var f2 := SplitQuoted(f1[|f1| - 1], "=", "\"");
    var front := LwcpItems(f1[..|f1| - 1]).markup;
    var last := ItemOut(f2).markup;
    assert LwcpItems(f1).markup == front + last;
    ItemOutEnd(f2);
    if |f2| != 2 {
      SuffixOf(front, last, 7);
    } else {
      SuffixOf(front, last, 1);
    }
  }

  /** The head words end nothing: the output ends as what follows them. */
  lemma HeadEnds(w0: string, w1: string, rest: Out, k: nat)
    requires k <= |rest.markup|
    ensures var m := Head(w0, w1, rest).markup;
      |m| >= k && m[|m| - k..] == rest.markup[|rest.markup| - k..]
  {
    var head := ColorString(w0, Blue) + " " + (ColorString(w1, DarkGreen) + " ");
    assert Head(w0, w1, rest).markup == head + rest.markup;
    SuffixOf(head, rest.markup, k);
  }

  /** The body of a reply whose last item is not a pair ends with the
      closing font tag. */
  lemma LwcpBodyEnds(f0: seq<string>)
    requires |f0| >= 2
    requires var f1 := Items(f0); !IsPair(f1[|f1| - 1])
    ensures var m := LwcpBody(f0).markup; |m| >= 7 && m[|m| - 7..] == "</font>"
  {
    ItemsEnd(Items(f0));
    HeadEnds(f0[0], f0[1], LwcpItems(Items(f0)), 7);
  }

  /** When the last item is a pair, the body ends with ','. */
  lemma BodyEndsWithComma(f0: seq<string>)
    requires |f0| >= 2
    requires var f1 := Items(f0); IsPair(f1[|f1| - 1])
    ensures var m := LwcpBody(f0).markup; |m| >= 1 && m[|m| - 1] == ','
  {
    ItemsEnd(Items(f0));
    HeadEnds(f0[0], f0[1], LwcpItems(Items(f0)), 1);
  }

  /** The cut on markup that ends with the closing font tag: as written it
      takes the '>', corrected it takes nothing. */
  lemma CutTag(m: string)
    requires |m| >= 7 && m[|m| - 7..] == "</font>"
    ensures var r := Cut(m, AsWritten); |r| >= 6 && r[|r| - 6..] == "</font"
    ensures Cut(m, Corrected) == m
  {
    assert m[|m| - 1] == m[|m| - 7..][6];
    var r := Cut(m, AsWritten);
    assert r == m[..|m| - 1];
    assert r[|r| - 6..] == m[|m| - 7..][..6];
  }

  /** As written, when the last item is not a name=value pair the final cut
      removes the '>' of the closing font tag. */
  lemma LwcpCutsClosingTag(cmd: string)
    requires Words(cmd)[0] != "ERROR" && |Words(cmd)| >= 2
    requires var f1 := Items(Words(cmd)); !IsPair(f1[|f1| - 1])
    ensures var r := LwcpText(cmd, AsWritten); |r| >= 6 && r[|r| - 6..] == "</font"
  {
    var f0 := Words(cmd);
    var m := LwcpBody(f0).markup;
    assert LwcpText(cmd, AsWritten) == Cut(m, AsWritten);
    LwcpBodyEnds(f0);
    CutTag(m);
  }

  /** Corrected, the same reply keeps its closing font tag whole. */
  lemma LwcpKeepsClosingTag(cmd: string)
    requires Words(cmd)[0] != "ERROR" && |Words(cmd)| >= 2
    requires var f1 := Items(Words(cmd)); !IsPair(f1[|f1| - 1])
    ensures var r := LwcpText(cmd, Corrected); |r| >= 7 && r[|r| - 7..] == "</font>"
  {
    var f0 := Words(cmd);
    var m := LwcpBody(f0).markup;
    assert LwcpText(cmd, Corrected) == Cut(m, Corrected);
    LwcpBodyEnds(f0);
    CutTag(m);
  }

  /** A name=value item shows as itself and a ','. */
  lemma PairItemPlain(x: string)
    requires IsPair(x)
    ensures LwcpItem(x).plain == x + ","
  {
    var f2 := SplitQuoted(x, "=", "\"");
    JoinRestores(x, "=", "\"");
    assert Join(f2, "=") == f2[0] + "=" + f2[1];
    assert ItemOut(f2).plain == f2[0] + "=" + f2[1] + ",";
  }

  /** A name=value item. */
  predicate IsPair(x: string)
  {
    |SplitQuoted(x, "=", "\"")| == 2
  }

  /** Items that are all name=value pairs show as themselves, each followed
      by a ','. */
  lemma {:induction false} PairsPlain(f1: seq<string>)
    requires f1 != []
    requires forall i :: 0 <= i < |f1| ==> IsPair(f1[i])
    ensures LwcpItems(f1).plain == Join(f1, ",") + ","
    decreases |f1|
  {
    var front := f1[..|f1| - 1];
    var x := f1[|f1| - 1];
    assert LwcpItems(f1).plain == LwcpItems(front).plain + LwcpItem(x).plain;
    assert LwcpItem(x).plain == x + "," by {
      PairItemPlain(x);
    }
    if |f1| == 1 {
      assert Join(f1, ",") == x;
    } else {
      assert LwcpItems(front).plain == Join(front, ",") + "," by {
        assert forall i :: 0 <= i < |front| ==> IsPair(front[i]) by {
          forall i | 0 <= i < |front| ensures IsPair(front[i]) {
            assert front[i] == f1[i];
          }
        }
        PairsPlain(front);
      }
      assert Join(f1, ",") == Join(front, ",") + "," + x by {
        JoinFront(f1, ",");
      }
      RegroupLast(Join(front, ","), ",", x, ",");
    }
  }

  /** A line of two words has one empty item, which is not a pair. */
  lemma TwoWordsNoPair(f0: seq<string>)
    requires |f0| == 2
    ensures Items(f0) == [""] && SplitQuoted("", "=", "\"") == [""]
  {
    assert f0[2..] == [];
  }

  /** With every item a pair, the head and items show as the words joined
      by spaces, plus the ',' after the last pair. */
  lemma BodyPlain(f0: seq<string>)
    requires |f0| >= 3
    requires forall i :: 0 <= i < |Items(f0)| ==> IsPair(Items(f0)[i])
    ensures LwcpBody(f0).plain == Join(f0, " ") + ","
  {
    var f1 := Items(f0);
    var rest := Join(f0[2..], " ");
    assert LwcpItems(f1).plain == rest + "," by {
      PairsPlain(f1);
      JoinRestores(rest, ",", "\"");
    }
    JoinHeadTwo(f0, " ");
    Regroup(f0[0], " ", f0[1], rest, ",");
    assert LwcpBody(f0).plain == ((f0[0] + " ") + (f0[1] + " ")) + LwcpItems(f1).plain;
  }

  /** Corrected, a line whose items are all name=value pairs shows as the
      trimmed line: the cut removes exactly the ',' after the last pair. */
  lemma LwcpShowsLine(cmd: string)
    requires Words(cmd)[0] != "ERROR" && |Words(cmd)| >= 2
    requires forall i :: 0 <= i < |Items(Words(cmd))| ==> IsPair(Items(Words(cmd))[i])
    ensures var body := LwcpBody(Words(cmd));
      body.plain == Trimmed(cmd) + "," &&
      |body.markup| >= 1 && LwcpText(cmd, Corrected) == body.markup[..|body.markup| - 1]
  {
    var f0 := Words(cmd);
    BodyShows(f0);
    assert Join(f0, " ") == Trimmed(cmd) by {
      JoinRestores(Trimmed(cmd), " ", "\"");
    }
    assert LwcpText(cmd, Corrected) == Cut(LwcpBody(f0).markup, Corrected);
  }

  /** The words of a line whose items are all pairs: the body shows them
      joined by spaces with a ',' after, and the corrected cut takes
      exactly that ','. */
  lemma BodyShows(f0: seq<string>)
    requires |f0| >= 2
    requires forall i :: 0 <= i < |Items(f0)| ==> IsPair(Items(f0)[i])
    ensures var m := LwcpBody(f0).markup;
      LwcpBody(f0).plain == Join(f0, " ") + "," &&
      |m| >= 1 && Cut(m, Corrected) == m[..|m| - 1]
  {
    if |f0| == 2 {
      TwoWordsNoPair(f0);
      assert false;
    }
    BodyPlain(f0);
    BodyEndsWithComma(f0);
    CutComma(LwcpBody(f0).markup);
  }

  lemma CutComma(m: string)
    requires |m| >= 1 && m[|m| - 1] == ','
    ensures Cut(m, Corrected) == m[..|m| - 1]
  {
  }

  /** Colorize: the line unchanged when colouring is off or in the address
      mode, else the dialect's colorizer. */
  function Colorize(cmd: string, colorize: bool, mode: Mode, b: Build): (r: string)
    ensures !colorize || mode == Lwaddr ==> r == cmd
    ensures colorize && mode == Lwrp ==> r == LwrpText(cmd, b)
    ensures colorize && mode == Lwcp ==> r == LwcpText(cmd, b)
  {
    if !colorize then cmd
    else
      match mode
      case Lwcp => LwcpText(cmd, b)
      case Lwrp => LwrpText(cmd, b)
      case Lwaddr => cmd
  }

  /** A line whose first word is ERROR is wrapped whole in red in both
      dialects. */
  lemma ErrorLineIsRed(cmd: string, b: Build)
    requires Words(cmd)[0] == "ERROR"
    ensures LwrpText(cmd, b) == ColorString(cmd, Red)
    ensures LwcpText(cmd, b) == ColorString(cmd, Red)
  {
  }
}
