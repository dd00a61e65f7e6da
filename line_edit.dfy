/**
 * LineEdit: a one-line text field with command history. Enter records the
 * line, Up and Down walk the history, and the text being typed is kept
 * aside so that Down past the newest entry brings it back. The base text
 * field's own editing is modelled with the cursor at the end of the line.
 */
module LineEditor {
  import opened QtText

  /** The key events the field distinguishes. Typed(c) is a key producing
      the character c. */
  datatype Key = Enter | Return | Up | Down | Backspace | Typed(c: char) | OtherKey

  /** The editor's state: the history list, the history cursor, the text
      kept aside while browsing, and the text shown. */
  datatype Editor = Editor(history: seq<string>, current: int, saved: string, text: string)

  /** The history cursor points at an entry or just past the last one. */
  predicate InRange(ed: Editor)
  {
    0 <= ed.current <= |ed.history|
  }

  /** The keys with their own case for printable ASCII (Key_A .. Key_Z,
      Key_0 .. Key_9, Key_Space and the punctuation keys up to
      Key_AsciiTilde). */
  predicate Printable(c: char)
  {
    ' ' <= c <= '~'
  }

  /** What the base text field does with a key it is given. */
  function BaseEdit(text: string, k: Key): (r: string)
    ensures k.Typed? ==> r == text + [k.c]
    ensures k == Backspace && text != [] ==> r == text[..|text| - 1]
    ensures !k.Typed? && k != Backspace ==> r == text
  {
    match k
    case Typed(c) => text + [c]
    case Backspace => if text == [] then text else text[..|text| - 1]
    case _ => text
  }

  /** keyPressEvent: the new state, and whether the key went on to the base
      text field. */
  function Press(ed: Editor, k: Key): (r: (Editor, bool))
    requires InRange(ed)
    ensures InRange(r.0)
  {
    match k
    case Enter => PressEnter(ed)
    case Return => PressEnter(ed)
    case Up =>
      if ed.current > 0 then (ed.(current := ed.current - 1, text := ed.history[ed.current - 1]), false)
      else (ed, false)
    case Down =>
      if ed.current < |ed.history| - 1 then
        (ed.(current := ed.current + 1, text := ed.history[ed.current + 1]), false)
      else (ed.(text := ed.saved), false)
    case Backspace =>
      (ed.(saved := Left(ed.text, |ed.saved| - 1), text := BaseEdit(ed.text, k)), true)
    case Typed(c) =>
      if Printable(c) then (ed.(saved := ed.text + [c], text := BaseEdit(ed.text, k)), true)
      else (ed.(text := BaseEdit(ed.text, k)), true)
    case OtherKey => (ed, true)
  }

  function PressEnter(ed: Editor): (r: (Editor, bool))
    requires InRange(ed)
    ensures InRange(r.0)
  {
    if ed.text == [] then (ed, false)
    else
      var h := if |ed.history| == 0 || ed.history[|ed.history| - 1] != ed.text
               then ed.history + [ed.text] else ed.history;
      (ed.(history := h, current := |h|, saved := ""), true)
  }

  /** The history a file of lines loads: each line trimmed. */
  function LoadedHistory(lines: seq<string>): (r: seq<string>)
    ensures |r| == |lines|
  {
    seq(|lines|, i requires 0 <= i < |lines| => Trimmed(lines[i]))
  }

  class LineEdit {
    var history: seq<string>
    var current: int
    var saved: string
    var text: string

    function State(): Editor
      reads this
    {
      Editor(history, current, saved, text)
    }

    constructor ()
      ensures State() == Editor([], 0, "", "")
    {
      history, current, saved, text := [], 0, "", "";
    }

    /** keyPressEvent. */
    method KeyPress(k: Key) returns (forwarded: bool)
      requires InRange(State())
      modifies this
      ensures (State(), forwarded) == Press(old(State()), k)
    {
      match k {
        case Enter =>
          forwarded := Enter1();
        case Return =>
          forwarded := Enter1();
        case Up =>
          if current > 0 {
            current := current - 1;
            text := history[current];
          }
          forwarded := false;
        case Down =>
          if current < |history| - 1 {
            current := current + 1;
            text := history[current];
          } else {
            text := saved;
          }
          forwarded := false;
        case Backspace =>
          saved := Left(text, |saved| - 1);
          text := BaseEdit(text, k);
          forwarded := true;
        case Typed(c) =>
          if Printable(c) {
            saved := text + [c];
          }
          text := BaseEdit(text, k);
          forwarded := true;
        case OtherKey =>
          forwarded := true;
      }
    }

    method Enter1() returns (forwarded: bool)
      requires InRange(State())
      modifies this
      ensures (State(), forwarded) == PressEnter(old(State()))
    {
      forwarded := false;
      if text != [] {
        if |history| == 0 || history[|history| - 1] != text {
          history := history + [text];
        }
        current := |history|;
        saved := "";
        forwarded := true;
      }
    }

    /** loadHistory: clears the list and, when the file opens, pushes each
        line trimmed and puts the cursor past the end; when it does not
        open, the cursor is left where it was. */
    method LoadHistory(fileOpened: bool, lines: seq<string>)
      modifies this
      ensures history == (if fileOpened then LoadedHistory(lines) else [])
      ensures current == (if fileOpened then |lines| else old(current))
      ensures saved == old(saved) && text == old(text)
    {
      var h: seq<string> := [];
      if fileOpened {
        var i := 0;
        while i < |lines|
          invariant 0 <= i <= |lines|
          invariant |h| == i && forall j :: 0 <= j < i ==> h[j] == Trimmed(lines[j])
        {
          h := h + [Trimmed(lines[i])];
          i := i + 1;
        }
        assert h == LoadedHistory(lines);
        current := |h|;
      }
      history := h;
    }
  }

  // -----------------------------------------------------------------------
  // Properties of the history
  // -----------------------------------------------------------------------

  /** Enter on a non-empty line records it unless it repeats the newest
      entry, puts the cursor past the end and forgets the kept text; on an
      empty line nothing changes and the key is swallowed. */
  lemma EnterRecords(ed: Editor, k: Key)
    requires InRange(ed) && (k == Enter || k == Return)
    ensures ed.text == [] ==> Press(ed, k) == (ed, false)
    ensures ed.text != [] ==> (
      var r := Press(ed, k).0;
      Press(ed, k).1 &&
      (|ed.history| > 0 && ed.history[|ed.history| - 1] == ed.text ==> r.history == ed.history) &&
      (|ed.history| == 0 || ed.history[|ed.history| - 1] != ed.text ==> r.history == ed.history + [ed.text]) &&
      r.current == |r.history| && r.saved == "" && r.text == ed.text &&
      r.history[|r.history| - 1] == ed.text)
  {
  }

  /** No two neighbouring history entries are equal. */
  predicate NoRepeats(h: seq<string>)
  {
    forall i :: 0 < i < |h| ==> h[i - 1] != h[i]
  }

  /** Key handling never records a line twice in a row. */
  lemma PressKeepsNoRepeats(ed: Editor, k: Key)
    requires InRange(ed) && NoRepeats(ed.history)
    ensures NoRepeats(Press(ed, k).0.history)
  {
    if (k == Enter || k == Return) && ed.text != [] {
      var h := Press(ed, k).0.history;
      if |ed.history| == 0 || ed.history[|ed.history| - 1] != ed.text {
        assert h == ed.history + [ed.text];
        forall i | 0 < i < |h|
          ensures h[i - 1] != h[i]
        {
          if i < |ed.history| {
            assert h[i - 1] == ed.history[i - 1] && h[i] == ed.history[i];
          }
        }
      }
    }
  }

  /** Up moves to the previous entry and shows it; at the oldest entry it
      does nothing. */
  lemma UpShowsPrevious(ed: Editor)
    requires InRange(ed)
    ensures ed.current > 0 ==>
      (Press(ed, Up).0 == ed.(current := ed.current - 1, text := ed.history[ed.current - 1]))
    ensures ed.current == 0 ==> Press(ed, Up).0 == ed
  {
  }

  /** Down from the newest entry or past it brings back the kept text. */
  lemma DownRestoresKeptText(ed: Editor)
    requires InRange(ed) && ed.current >= |ed.history| - 1
    ensures Press(ed, Down).0 == ed.(text := ed.saved)
  {
  }

  /** Up then Down returns to the same entry, as long as there is one below
      the cursor. */
  lemma UpThenDown(ed: Editor)
    requires InRange(ed) && 0 < ed.current < |ed.history|
    ensures var r := Press(Press(ed, Up).0, Down).0;
      r.current == ed.current && r.text == ed.history[ed.current] &&
      r.history == ed.history && r.saved == ed.saved
  {
  }

  /** A typed character is kept aside as the shown text plus that
      character; Backspace keeps aside the shown text cut to one less than
      the kept length, and with nothing kept the whole shown text. */
  lemma TypingKeepsText(ed: Editor, c: char)
    requires InRange(ed)
    ensures Printable(c) ==> Press(ed, Typed(c)).0.saved == ed.text + [c]
    ensures ed.saved == [] ==> Press(ed, Backspace).0.saved == ed.text
    ensures 1 <= |ed.saved| <= |ed.text| ==> Press(ed, Backspace).0.saved == ed.text[..|ed.saved| - 1]
  {
  }

  /** A history loaded right after construction (cursor 0) leaves the cursor
      in range whether or not the file fileOpened. */
  lemma LoadAfterConstruction(fileOpened: bool, lines: seq<string>)
    ensures var h := if fileOpened then LoadedHistory(lines) else [];
      InRange(Editor(h, if fileOpened then |lines| else 0, "", ""))
  {
  }
}
