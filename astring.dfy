/**
 * AString::split(sep, esc): splits a line on a separator, except inside
 * quotes. Each occurrence of the quote character (the first character of
 * esc) toggles the quoted state and is kept in the current element (as the
 * whole esc string). A separator outside quotes starts a new element and is
 * dropped. Because a character is compared with the separator through
 * `mid(i, 1)`, only a one-character separator can ever match.
 */
module AString {
  import opened QtText

  /** The splitter's working state: the list built so far (never empty) and
      whether the scan is inside quotes. */
  datatype ScanState = ScanState(parts: seq<string>, quoted: bool)

  /** The list with x added to its last element (list.back() += x). */
  function AppendLast(parts: seq<string>, x: string): (r: seq<string>)
    requires |parts| >= 1
    ensures |r| == |parts| && r[..|r| - 1] == parts[..|parts| - 1]
    ensures r[|r| - 1] == parts[|parts| - 1] + x
  {
    parts[..|parts| - 1] + [parts[|parts| - 1] + x]
  }

  /** What scanning one character c does to the state. */
  function Step(st: ScanState, c: char, sep: string, esc: string): (r: ScanState)
    requires esc != [] && |st.parts| >= 1
    ensures |r.parts| >= 1
  {
    if c == esc[0] then ScanState(AppendLast(st.parts, esc), !st.quoted)
    else if !st.quoted && [c] == sep then ScanState(st.parts + [""], st.quoted)
    else ScanState(AppendLast(st.parts, [c]), st.quoted)
  }

  /** The state after scanning s, one character at a time from the left. */
  function Scan(s: string, sep: string, esc: string): (st: ScanState)
    requires esc != []
    ensures |st.parts| >= 1
    decreases |s|
  {
    if s == [] then ScanState([""], false)
    else Step(Scan(s[..|s| - 1], sep, esc), s[|s| - 1], sep, esc)
  }

  /** AString::split(sep, esc): with an empty esc, QString::split(sep). */
  function SplitQuoted(s: string, sep: string, esc: string): (r: seq<string>)
    ensures |r| >= 1
    ensures esc != [] && s == [] ==> r == [""]
  {
    if esc == [] then Split(s, sep) else Scan(s, sep, esc).parts
  }

  /** The loop of AString::split: walks the string, toggling the quoted
      flag and appending to the last element in place. */
  method SplitLoop(s: string, sep: string, esc: string) returns (list: seq<string>)
    ensures list == SplitQuoted(s, sep, esc)
  {
    if esc == [] {
      return Split(s, sep);
    }
    var escape := false;
    var e := esc[0];
    list := [""];
    var i := 0;
    while i < |s|
      invariant 0 <= i <= |s|
      invariant ScanState(list, escape) == Scan(s[..i], sep, esc)
    {
      assert s[..i + 1][..i] == s[..i];
      if s[i] == e {
        escape := !escape;
        list := list[..|list| - 1] + [list[|list| - 1] + esc];
      } else if !escape && [s[i]] == sep {
        list := list + [""];
      } else {
        list := list[..|list| - 1] + [list[|list| - 1] + [s[i]]];
      }
      i := i + 1;
    }
    assert s[..i] == s;
  }

  /** s with every quote character written as the whole esc string. */
  function Expand(s: string, esc: string): (r: string)
    requires esc != []
    ensures |esc| == 1 ==> r == s
    decreases |s|
  {
    if s == [] then []
    else
      var rest := Expand(s[..|s| - 1], esc);
      if s[|s| - 1] == esc[0] then rest + esc else rest + [s[|s| - 1]]
  }

  /** The number of separator characters that stand outside quotes: a
      position counts when the quote characters before it are even in
      number. */
  function UnquotedSeparators(s: string, sepChar: char, quote: char): nat
    decreases |s|
  {
    if s == [] then 0
    else
      var p := s[..|s| - 1];
      var c := s[|s| - 1];
      UnquotedSeparators(p, sepChar, quote) +
        (if c == sepChar && c != quote && Count(p, quote) % 2 == 0 then 1 else 0)
  }

  /** The quoted flag after a scan is the parity of the quote characters. */
  lemma {:induction false} QuotedIsParity(s: string, sep: string, esc: string)
    requires esc != []
    ensures Scan(s, sep, esc).quoted <==> Count(s, esc[0]) % 2 == 1
    decreases |s|
  {
    if s != [] {
      var p := s[..|s| - 1];
      var x := s[|s| - 1];
      QuotedIsParity(p, sep, esc);
      QuotedSnoc(p, x, sep, esc);
      assert p + [x] == s;
    }
  }

  /** The parity step: one more character keeps the flag and the count's
      parity in step. */
  lemma QuotedSnoc(p: string, x: char, sep: string, esc: string)
    requires esc != []
    requires Scan(p, sep, esc).quoted <==> Count(p, esc[0]) % 2 == 1
    ensures Scan(p + [x], sep, esc).quoted <==> Count(p + [x], esc[0]) % 2 == 1
  {
    CountSnoc(p, esc[0], x);
    ScanQuotedStep(p + [x], sep, esc);
    assert (p + [x])[..|p|] == p;
    var n := Count(p, esc[0]);
    if x == esc[0] {
      ParityStep(n);
    }
  }

  lemma ParityStep(n: nat)
    ensures (n + 1) % 2 == 1 <==> n % 2 == 0
  {
  }

  /** One more character toggles the quoted flag exactly when it is the
      quote character. */
  lemma ScanQuotedStep(s: string, sep: string, esc: string)
    requires esc != [] && s != []
    ensures Scan(s, sep, esc).quoted <==> (Scan(s[..|s| - 1], sep, esc).quoted != (s[|s| - 1] == esc[0]))
  {
  }

  /** With a one-character separator, there is one element more than there
      are separators outside quotes. */
  lemma {:induction false} ElementCount(s: string, sepChar: char, esc: string)
    requires esc != []
    ensures |SplitQuoted(s, [sepChar], esc)| == 1 + UnquotedSeparators(s, sepChar, esc[0])
    decreases |s|
  {
    if s != [] {
      var p := s[..|s| - 1];
      ElementCount(p, sepChar, esc);
      QuotedIsParity(p, [sepChar], esc);
    }
  }

  /** With one-character separator and quote, joining the elements with the
      separator gives the input back: nothing is lost or added. */
  lemma {:induction false} JoinRestores(s: string, sep: string, esc: string)
    requires |sep| == 1 && |esc| == 1
    ensures Join(SplitQuoted(s, sep, esc), sep) == s
    decreases |s|
  {
    if s != [] {
      var p := s[..|s| - 1];
      var c := s[|s| - 1];
      var st := Scan(p, sep, esc);
      assert Scan(s, sep, esc) == Step(st, c, sep, esc);
      calc {
        Join(SplitQuoted(s, sep, esc), sep);
        Join(Step(st, c, sep, esc).parts, sep);
        { JoinStep(st, c, sep, esc); }
        Join(st.parts, sep) + [c];
        { JoinRestores(p, sep, esc); }
        p + [c];
        s;
      }
    }
  }

  /** The step of JoinRestores: scanning one more character adds that
      character to the join. */
  lemma JoinStep(st: ScanState, c: char, sep: string, esc: string)
    requires |sep| == 1 && |esc| == 1 && |st.parts| >= 1
    ensures Join(Step(st, c, sep, esc).parts, sep) == Join(st.parts, sep) + [c]
  {
    if !(c == esc[0]) && !st.quoted && [c] == sep {
      JoinPushEmpty(st.parts, sep);
    } else {
      JoinStepAppends(st, c, sep, esc);
    }
  }

  /** A quote character, or a character that does not split, is added to
      the last element. */
  lemma JoinStepAppends(st: ScanState, c: char, sep: string, esc: string)
    requires |sep| == 1 && |esc| == 1 && |st.parts| >= 1
    requires c == esc[0] || st.quoted || [c] != sep
    ensures Join(Step(st, c, sep, esc).parts, sep) == Join(st.parts, sep) + [c]
  {
    assert c == esc[0] ==> esc == [c];
    assert Step(st, c, sep, esc).parts == AppendLast(st.parts, [c]);
    JoinAfterAppendLast(st.parts, sep, [c]);
  }

  lemma JoinAfterAppendLast(parts: seq<string>, sep: string, x: string)
    requires |parts| >= 1
    ensures Join(AppendLast(parts, x), sep) == Join(parts, sep) + x
  {
    JoinAppendLast(parts, sep, x);
  }

  /** A separator of any length other than one never matches: the result is
      the whole input as one element, quotes expanded to esc. */
  lemma {:induction false} LongSeparatorNeverMatches(s: string, sep: string, esc: string)
    requires esc != [] && |sep| != 1
    ensures SplitQuoted(s, sep, esc) == [Expand(s, esc)]
    decreases |s|
  {
    if s != [] {
      LongSeparatorNeverMatches(s[..|s| - 1], sep, esc);
    }
  }

  /** A separator inside quotes is kept as content: when s opens a quote
      and holds no further quote, s split alone is one element. */
  lemma QuotedSeparatorKept(s: string, sep: string, esc: string)
    requires |esc| == 1 && |s| >= 1 && s[0] == esc[0]
    requires forall k :: 1 <= k < |s| ==> s[k] != esc[0]
    ensures SplitQuoted(s, sep, esc) == [s] && Scan(s, sep, esc).quoted
  {
    QuotedScan(s, sep, esc);
  }

  lemma {:induction false} QuotedScan(s: string, sep: string, esc: string)
    requires |esc| == 1 && |s| >= 1 && s[0] == esc[0]
    requires forall k :: 1 <= k < |s| ==> s[k] != esc[0]
    ensures Scan(s, sep, esc) == ScanState([s], true)
    decreases |s|
  {
    var p := s[..|s| - 1];
    if |s| == 1 {
      assert s == esc;
      QuoteAlone(esc, sep);
    } else {
      var c := s[|s| - 1];
      assert Scan(s, sep, esc) == Step(Scan(p, sep, esc), c, sep, esc);
      assert forall k :: 1 <= k < |p| ==> p[k] == s[k];
      QuotedScan(p, sep, esc);
      KeepInside(p, c, sep, esc);
      LastRestores(s);
    }
  }

  lemma LastRestores(s: string)
    requires |s| >= 1
    ensures s[..|s| - 1] + [s[|s| - 1]] == s
  {
  }

  /** The quote character alone opens quotes and is the one element. */
  lemma QuoteAlone(esc: string, sep: string)
    requires |esc| == 1
    ensures Scan(esc, sep, esc) == ScanState([esc], true)
  {
    assert esc[..0] == [];
    assert "" + esc == esc;
    assert AppendLast([""], esc) == [esc];
  }

  /** Inside quotes, a character other than the quote extends the one
      element. */
  lemma KeepInside(p: string, c: char, sep: string, esc: string)
    requires esc != [] && c != esc[0]
    ensures Step(ScanState([p], true), c, sep, esc) == ScanState([p + [c]], true)
  {
    assert AppendLast([p], [c]) == [p + [c]];
  }

  /** Without quote characters, no element holds the separator and the
      scan never ends inside quotes. */
  lemma {:induction false} QuoteFreePartsHaveNoSeparator(s: string, c: char, q: char)
    requires q !in s
    ensures !Scan(s, [c], [q]).quoted
    ensures forall i :: 0 <= i < |Scan(s, [c], [q]).parts| ==> c !in Scan(s, [c], [q]).parts[i]
    decreases |s|
  {
    if s != [] {
      var p := s[..|s| - 1];
      assert forall k :: 0 <= k < |p| ==> p[k] == s[k];
      QuoteFreePartsHaveNoSeparator(p, c, q);
      var st := Scan(p, [c], [q]);
      var x := s[|s| - 1];
      assert x != q;
      if x != c {
        var r := AppendLast(st.parts, [x]);
        assert Scan(s, [c], [q]).parts == r;
        forall i | 0 <= i < |r|
          ensures c !in r[i]
        {
          if i < |r| - 1 {
            assert r[i] == st.parts[i];
          }
        }
      }
    }
  }

  /** Without quote characters the quote-aware split is the plain split. */
  lemma QuoteFreeSplitIsPlain(s: string, c: char, q: char)
    requires q !in s
    ensures SplitQuoted(s, [c], [q]) == Split(s, [c])
  {
    QuoteFreePartsHaveNoSeparator(s, c, q);
    JoinRestores(s, [c], [q]);
    SplitJoin(Scan(s, [c], [q]).parts, c);
  }

  /** A word free of the quote and of the separator scans as one element,
      outside quotes. */
  lemma {:induction false} PlainScan(w: string, c: char, q: char)
    requires q !in w && c !in w
    ensures Scan(w, [c], [q]) == ScanState([w], false)
    decreases |w|
  {
    if w != [] {
      var p := w[..|w| - 1];
      var x := w[|w| - 1];
      assert w == p + [x];
      PlainScan(p, c, q);
      PlainStep(p, x, c, q);
    }
  }

  /** Outside quotes, a character that is neither the quote nor the
      separator extends the one element. */
  lemma PlainStep(p: string, x: char, c: char, q: char)
    requires x != q && x != c
    ensures Step(ScanState([p], false), x, [c], [q]) == ScanState([p + [x]], false)
  {
    assert AppendLast([p], [x]) == [p + [x]];
  }

  /** Scanning after a closed first element works on the rest alone. */
  lemma StepUnderWord(w: string, st: ScanState, x: char, sep: string, esc: string)
    requires esc != [] && |st.parts| >= 1
    ensures Step(ScanState([w] + st.parts, st.quoted), x, sep, esc) ==
      ScanState([w] + Step(st, x, sep, esc).parts, Step(st, x, sep, esc).quoted)
  {
    var p := st.parts;
    assert ([w] + p)[..|[w] + p| - 1] == [w] + p[..|p| - 1];
    assert ([w] + p)[|[w] + p| - 1] == p[|p| - 1];
    assert ([w] + p) + [""] == [w] + (p + [""]);
  }

  /** A word free of the quote and of the separator, then a separator:
      the word is the first element and the rest splits on its own. */
  lemma {:induction false} ScanAfterWord(w: string, c: char, q: char, t: string)
    requires q !in w && c !in w && c != q
    ensures Scan(w + [c] + t, [c], [q]) ==
      ScanState([w] + Scan(t, [c], [q]).parts, Scan(t, [c], [q]).quoted)
    decreases |t|
  {
    if t == [] {
      PlainScan(w, c, q);
      assert w + [c] + t == w + [c];
      assert (w + [c])[..|w|] == w;
      assert Scan(t, [c], [q]) == ScanState([""], false);
    } else {
      var p := t[..|t| - 1];
      var x := t[|t| - 1];
      ScanAfterWord(w, c, q, p);
      StepUnderWord(w, Scan(p, [c], [q]), x, [c], [q]);
      assert (w + [c] + t)[..|w + [c] + t| - 1] == w + [c] + p;
      assert (w + [c] + t)[|w + [c] + t| - 1] == x;
    }
  }

  /** The first element of `w`, a separator and anything after it is `w`,
      when `w` holds neither the separator nor the quote. */
  lemma FirstPartKept(w: string, c: char, q: char, t: string)
    requires q !in w && c !in w && c != q
    ensures SplitQuoted(w + [c] + t, [c], [q]) == [w] + SplitQuoted(t, [c], [q])
  {
    ScanAfterWord(w, c, q, t);
  }

  /** The first quote-aware blank-separated token of a line (the
      `split(" ","\"").first()` the LiveWire tools read a command word
      with). */
  function FirstToken(line: string): string
  {
    SplitQuoted(line, " ", "\"")[0]
  }

  /** A line that starts with a word free of blanks and quotes, then a
      blank, has that word as its first token, whatever follows. */
  lemma LeadingToken(word: string, rest: string)
    requires '"' !in word && ' ' !in word
    ensures FirstToken(word + " " + rest) == word
  {
    FirstPartKept(word, ' ', '"', rest);
    assert word + " " + rest == word + [' '] + rest;
    assert (" ", "\"") == ([' '], ['"']);
  }
}
