/**
 * Line framing as the LiveWire tools do it on a TCP byte stream: bytes
 * collect in an accumulator, one end-of-line character hands the
 * accumulated line on (trimmed, for some readers) and empties the
 * accumulator, and one other character is dropped. The LWRP dump reads
 * LF-terminated lines dropping CR; the monitors read CR-terminated lines
 * dropping LF. Every line the tools send ends in CR LF.
 */
module Framing {
  import opened QtText

  /** s with every c removed. */
  function Without(s: string, c: char): (r: string)
    ensures c !in r && |r| <= |s|
    decreases |s|
  {
    if s == [] then []
    else
      var rest := Without(s[..|s| - 1], c);
      if s[|s| - 1] == c then rest else rest + [s[|s| - 1]]
  }

  /** How a reader finishes a line before handing it on. */
  function Finish(line: string, trim: bool): string
  {
    if trim then Trimmed(line) else line
  }

  /** The lines handed on, in order, and the accumulator left over. */
  datatype Framed = Framed(lines: seq<string>, accum: string)

  /** The reader's loop over data, starting from the accumulator accum. */
  function Frame(accum: string, data: string, eol: char, ignored: char, trim: bool): (r: Framed)
    ensures eol !in accum ==> eol !in r.accum
    decreases |data|
  {
    if data == [] then Framed([], accum)
    else
      var f := Frame(accum, data[..|data| - 1], eol, ignored, trim);
      var x := data[|data| - 1];
      if x == eol then Framed(f.lines + [Finish(f.accum, trim)], "")
      else if x == ignored then f
      else Framed(f.lines, f.accum + [x])
  }

  /** How a sender terminates a line. */
  function Terminated(line: string): string
  {
    line + "\r\n"
  }

  /** Lines sent one after another. */
  function Sent(lines: seq<string>): (r: string)
    decreases |lines|
  {
    if lines == [] then "" else Sent(lines[..|lines| - 1]) + Terminated(lines[|lines| - 1])
  }

  /** The reader hands on exactly the parts that splitting the kept bytes at
      the end-of-line character gives, all but the last; the last is what
      stays in the accumulator. */
  lemma {:induction false} FrameIsSplit(accum: string, data: string, eol: char, ignored: char, trim: bool)
    requires eol != ignored && eol !in accum
    ensures var p := Split(accum + Without(data, ignored), [eol]);
      var f := Frame(accum, data, eol, ignored, trim);
      |f.lines| == |p| - 1 && f.accum == p[|p| - 1] &&
      forall i :: 0 <= i < |f.lines| ==> f.lines[i] == Finish(p[i], trim)
    decreases |data|
  {
    if data == [] {
      SplitFromPlain(accum, eol, "");
      assert accum + Without(data, ignored) == accum && "" + accum == accum;
    } else {
      var d := data[..|data| - 1];
      var x := data[|data| - 1];
      var kept := accum + Without(d, ignored);
      var p0 := Split(kept, [eol]);
      var f0 := Frame(accum, d, eol, ignored, trim);
      assert Agrees(p0, f0, trim) by {
        FrameIsSplit(accum, d, eol, ignored, trim);
      }
      assert data == d + [x];
      if x == ignored {
        assert accum + Without(data, ignored) == kept;
      } else {
        assert accum + Without(data, ignored) == kept + [x];
        SplitSnoc(kept, eol, x);
        if x == eol {
          AgreesAtEnd(p0, f0, trim);
        } else {
          AgreesOnMore(p0, f0, trim, x);
        }
      }
    }
  }

  /** The parts p of the kept bytes and what a reader made of them agree:
      every part but the last handed on, finished; the last accumulated. */
  predicate Agrees(p: seq<string>, f: Framed, trim: bool)
  {
    |p| >= 1 && |f.lines| == |p| - 1 && f.accum == p[|p| - 1] &&
    forall i :: 0 <= i < |f.lines| ==> f.lines[i] == Finish(p[i], trim)
  }

  /** An end of line closes the last part and hands it on. */
  lemma AgreesAtEnd(p: seq<string>, f: Framed, trim: bool)
    requires Agrees(p, f, trim)
    ensures Agrees(p + [""], Framed(f.lines + [Finish(f.accum, trim)], ""), trim)
  {
    var lines := f.lines + [Finish(f.accum, trim)];
    forall i | 0 <= i < |lines|
      ensures lines[i] == Finish((p + [""])[i], trim)
    {
      if i < |f.lines| {
        assert lines[i] == f.lines[i];
      }
    }
  }

  /** Any other kept character extends the last part. */
  lemma AgreesOnMore(p: seq<string>, f: Framed, trim: bool, x: char)
    requires Agrees(p, f, trim)
    ensures Agrees(p[..|p| - 1] + [p[|p| - 1] + [x]], Framed(f.lines, f.accum + [x]), trim)
  {
    var q := p[..|p| - 1] + [p[|p| - 1] + [x]];
    forall i | 0 <= i < |f.lines|
      ensures f.lines[i] == Finish(q[i], trim)
    {
      assert q[i] == p[i];
    }
  }

  /** Reading on from where an earlier read stopped: the lines of a + b are
      those of a, then those of b read from the accumulator a left. */
  lemma {:induction false} FrameAppend(accum: string, a: string, b: string, eol: char, ignored: char, trim: bool)
    ensures var fa := Frame(accum, a, eol, ignored, trim);
      var fb := Frame(fa.accum, b, eol, ignored, trim);
      Frame(accum, a + b, eol, ignored, trim) == Framed(fa.lines + fb.lines, fb.accum)
    decreases |b|
  {
    if b == [] {
      assert a + b == a;
    } else {
      var b' := b[..|b| - 1];
      FrameAppend(accum, a, b', eol, ignored, trim);
      assert (a + b)[..|a + b| - 1] == a + b';
      assert (a + b)[|a + b| - 1] == b[|b| - 1];
      var fa := Frame(accum, a, eol, ignored, trim);
      var fb' := Frame(fa.accum, b', eol, ignored, trim);
      assert fa.lines + fb'.lines + [Finish(fb'.accum, trim)] == fa.lines + (fb'.lines + [Finish(fb'.accum, trim)]);
    }
  }

  /** A line sent with CR LF comes out of either reader whole, with the
      accumulator empty again, when it holds neither CR nor LF. */
  lemma TerminatedLineReadsBack(line: string, eol: char, ignored: char, trim: bool)
    requires (eol == '\n' && ignored == '\r') || (eol == '\r' && ignored == '\n')
    requires '\r' !in line && '\n' !in line
    ensures Frame("", Terminated(line), eol, ignored, trim) == Framed([Finish(line, trim)], "")
  {
    var t := Terminated(line);
    WithoutAbsent(line, ignored);
    assert t == line + [ignored, eol] || t == line + [eol, ignored];
    if eol == '\n' {
      assert t == line + ['\r'] + ['\n'];
      WithoutSnoc(line + ['\r'], '\r', '\n');
      WithoutSnoc(line, '\r', '\r');
      assert Without(t, ignored) == line + [eol];
    } else {
      assert t == line + ['\r'] + ['\n'];
      WithoutSnoc(line + ['\r'], '\n', '\n');
      WithoutSnoc(line, '\n', '\r');
      assert Without(t, ignored) == line + [eol];
    }
    FrameIsSplit("", t, eol, ignored, trim);
    assert "" + Without(t, ignored) == line + [eol] + "";
    SplitPair(line, "", [eol]);
  }

  lemma WithoutSnoc(s: string, c: char, x: char)
    ensures Without(s + [x], c) == if x == c then Without(s, c) else Without(s, c) + [x]
  {
    assert (s + [x])[..|s|] == s;
  }

  lemma {:induction false} WithoutAbsent(s: string, c: char)
    requires c !in s
    ensures Without(s, c) == s
    decreases |s|
  {
    if s != [] {
      WithoutAbsent(s[..|s| - 1], c);
    }
  }

  /** Each line finished as a reader finishes it. */
  function Finished(lines: seq<string>, trim: bool): (r: seq<string>)
    ensures |r| == |lines|
    ensures forall i :: 0 <= i < |lines| ==> r[i] == Finish(lines[i], trim)
    decreases |lines|
  {
    if lines == [] then []
    else Finished(lines[..|lines| - 1], trim) + [Finish(lines[|lines| - 1], trim)]
  }

  /** Lines sent one after another come out of either reader as those
      lines, in order, with nothing left over. */
  lemma {:induction false} SentLinesReadBack(lines: seq<string>, eol: char, ignored: char, trim: bool)
    requires (eol == '\n' && ignored == '\r') || (eol == '\r' && ignored == '\n')
    requires forall i :: 0 <= i < |lines| ==> '\r' !in lines[i] && '\n' !in lines[i]
    ensures Frame("", Sent(lines), eol, ignored, trim) == Framed(Finished(lines, trim), "")
    decreases |lines|
  {
    if lines != [] {
      var init := lines[..|lines| - 1];
      var last := lines[|lines| - 1];
      SentLinesReadBack(init, eol, ignored, trim);
      FrameAppend("", Sent(init), Terminated(last), eol, ignored, trim);
      TerminatedLineReadsBack(last, eol, ignored, trim);
      assert Sent(lines) == Sent(init) + Terminated(last);
    }
  }

  /** What a read of a prefix of the data hands on is a prefix of what a
      read of all of it hands on. */
  lemma FramePrefix(accum: string, data: string, j: nat, eol: char, ignored: char, trim: bool)
    requires j <= |data|
    ensures Frame(accum, data[..j], eol, ignored, trim).lines <= Frame(accum, data, eol, ignored, trim).lines
  {
    FrameAppend(accum, data[..j], data[j..], eol, ignored, trim);
    assert data[..j] + data[j..] == data;
  }

  /** One more byte: what the reader's loop does with data[i]. */
  lemma FrameStep(accum: string, data: string, i: nat, eol: char, ignored: char, trim: bool)
    requires i < |data|
    ensures var f := Frame(accum, data[..i], eol, ignored, trim);
      Frame(accum, data[..i + 1], eol, ignored, trim) ==
        if data[i] == eol then Framed(f.lines + [Finish(f.accum, trim)], "")
        else if data[i] == ignored then f
        else Framed(f.lines, f.accum + [data[i]])
  {
    assert data[..i + 1][..i] == data[..i];
  }

  // ---------------------------------------------------------------------
  // The first line a reader acts on
  // ---------------------------------------------------------------------

  /** The position of the first line satisfying p, or the number of lines
      when none does. */
  function FirstWhere(lines: seq<string>, p: string -> bool): (k: nat)
    ensures k <= |lines|
    ensures forall i :: 0 <= i < k ==> !p(lines[i])
    ensures k < |lines| ==> p(lines[k])
    decreases |lines|
  {
    if lines == [] then 0
    else if p(lines[0]) then 0
    else 1 + FirstWhere(lines[1..], p)
  }

  /** One more line after lines none of which satisfies p. */
  lemma FirstWhereSnoc(seen: seq<string>, line: string, p: string -> bool)
    requires FirstWhere(seen, p) == |seen|
    ensures FirstWhere(seen + [line], p) == if p(line) then |seen| else |seen| + 1
  {
    var s := seen + [line];
    assert s[|seen|] == line;
    forall i | 0 <= i < |seen|
      ensures s[i] == seen[i]
    {
    }
  }

  /** Lines none of which satisfies p only shift the first match. */
  lemma {:induction false} FirstWhereAfter(quiet: seq<string>, rest: seq<string>, p: string -> bool)
    requires forall i :: 0 <= i < |quiet| ==> !p(quiet[i])
    ensures FirstWhere(quiet + rest, p) == |quiet| + FirstWhere(rest, p)
    decreases |quiet|
  {
    if quiet != [] {
      var s := quiet + rest;
      assert s[0] == quiet[0] && !p(s[0]);
      assert s[1..] == quiet[1..] + rest;
      forall i | 0 <= i < |quiet| - 1
        ensures !p(quiet[1..][i])
      {
        assert quiet[1..][i] == quiet[i + 1];
      }
      FirstWhereAfter(quiet[1..], rest, p);
      assert FirstWhere(s, p) == 1 + FirstWhere(s[1..], p);
    } else {
      assert quiet + rest == rest;
    }
  }

  /** When the lines handled so far end with their first match, a longer
      run of lines has its first match at the same place. */
  lemma FirstWhereKept(seen: seq<string>, lines: seq<string>, p: string -> bool)
    requires seen <= lines && |seen| >= 1 && FirstWhere(seen, p) == |seen| - 1
    ensures FirstWhere(lines, p) == |seen| - 1
  {
    forall i | 0 <= i < |seen|
      ensures lines[i] == seen[i]
    {
    }
  }
}
