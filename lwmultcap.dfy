/**
 * lwmultcap: joins a multicast group and prints every datagram received
 * as a hex dump, 16 bytes a row, each row giving its offset, the bytes in
 * hex and the printable ones as text. A first and a last offset restrict
 * which rows are shown. The options come from the CmdSwitch tokenizer; the
 * datagrams, the bind and the subscription are parameters or left out.
 */
module Lwmultcap {
  import opened QtText
  import HostAddress

  // -----------------------------------------------------------------------
  // Options
  // -----------------------------------------------------------------------

  datatype Config = Config(iface: Option<nat>, mcast: Option<nat>, port: nat,
                           showRuler: bool, firstOffset: int, lastOffset: int)

  /** The options, or the message the program exits with (status 1). */
  datatype Setup = Ready(cfg: Config) | Refused(message: string)

  function Defaults(): Config
  {
    Config(None, None, 0, false, -1, -1)
  }

  /** --first-offset / --last-offset: hex after a "0x" or "0X" prefix,
      otherwise decimal; either may carry a minus sign. */
  function ParseOffset(v: string): (r: Option<int>)
    ensures r.Some? ==> -0x8000_0000 <= r.value < 0x8000_0000
  {
    if ToLower(Left(v, 2)) == "0x" then ToInt(Right(v, |v| - 2), 16)
    else ToInt(v, 10)
  }

  /** --port: an unsigned number no greater than 0xFFFF. */
  function ParsePort(v: string): (r: Option<nat>)
    ensures r.Some? ==> r.value <= 0xFFFF
  {
    match ToUInt(v, 10)
    case Some(p) => if p > 0xFFFF then None else Some(p)
    case None => None
  }

  /** One pass of the option loop. */
  function ApplySwitch(c: Config, key: string, value: string): (r: Setup)
  {
    if key == "--first-offset" then
      match ParseOffset(value)
      case Some(n) => Ready(c.(firstOffset := n))
      case None => Refused("lwmultcap: invalid offset\n")
    else if key == "--iface-address" then
      match HostAddress.Parse(value)
      case Some(a) => Ready(c.(iface := Some(a)))
      case None => Refused("lwmultcap: invalid interface address\n")
    else if key == "--last-offset" then
      match ParseOffset(value)
      case Some(n) => Ready(c.(lastOffset := n))
      case None => Refused("lwmultcap: invalid offset\n")
    else if key == "--port" then
      match ParsePort(value)
      case Some(p) => Ready(c.(port := p))
      case None => Refused("lwmultcap: invalid port\n")
    else if key == "--mcast-address" then
      match HostAddress.Parse(value)
      case Some(a) => Ready(c.(mcast := Some(a)))
      case None => Refused("lwmultcap: invalid multicast address\n")
    else if key == "--show-ruler" then Ready(c.(showRuler := true))
    else Refused("lwmultcap: unknown option \"" + key + "\"\n")
  }

  function ApplyAll(keys: seq<string>, values: seq<string>, n: nat): (r: Setup)
    requires n <= |keys| == |values|
    ensures r.Ready? ==> r.cfg.port <= 0xFFFF
  {
    if n == 0 then Ready(Defaults())
    else
      match ApplyAll(keys, values, n - 1)
      case Refused(m) => Refused(m)
      case Ready(c) => ApplySwitch(c, keys[n - 1], values[n - 1])
  }

  /** The constructor's option loop and its sanity checks. */
  function Configure(keys: seq<string>, values: seq<string>): (r: Setup)
    requires |keys| == |values|
    ensures r.Ready? ==> (r.cfg.iface.Some? && r.cfg.mcast.Some? && 0 < r.cfg.port <= 0xFFFF)
  {
    match ApplyAll(keys, values, |keys|)
    case Refused(m) => Refused(m)
    case Ready(c) =>
      if c.iface.None? then Refused("lwmultcap: you must specify \"--iface-address\"\n")
      else if c.mcast.None? then Refused("lwmultcap: you must specify \"--mcast-address\"\n")
      else if c.port == 0 then Refused("lwmultcap: you must specify \"--port\"\n")
      else Ready(c)
  }

  /** An offset written in hex after a 0x or 0X prefix, or in decimal,
      reads back as the number written. */
  lemma OffsetRoundTripLower(n: nat, w: nat)
    requires n < 0x8000_0000
    ensures ParseOffset("0x" + HexLower(n, w)) == Some(n)
  {
    HexLowerRoundTrip(n, w);
    var h := HexLower(n, w);
    var a := "0x" + h;
    assert Left(a, 2) == "0x" && Right(a, |a| - 2) == h;
    assert DigitValue(h[0]).Some?;
    assert ToInt(h, 16) == Some(n);
  }

  lemma OffsetRoundTripUpper(n: nat, w: nat)
    requires n < 0x8000_0000
    ensures ParseOffset("0X" + HexUpper(n, w)) == Some(n)
  {
    HexUpperRoundTrip(n, w);
    var h := HexUpper(n, w);
    var b := "0X" + h;
    assert Left(b, 2) == "0X" && Right(b, |b| - 2) == h;
    assert ToLower("0X") == "0x";
    UpperDigitsNoSign(n, w);
    assert ToInt(h, 16) == Some(n);
  }

  lemma OffsetRoundTripDecimal(n: nat)
    requires n < 0x8000_0000
    ensures ParseOffset(Decimal(n)) == Some(n)
  {
    DecimalRoundTrip(n);
    var d := Decimal(n);
    assert '0' <= d[0] <= '9';
    if |d| >= 2 {
      assert '0' <= d[1] <= '9';
      assert Left(d, 2) == d[..2];
      assert ToLower(d[..2])[1] != 'x';
    } else {
      assert Left(d, 2) == d;
      assert |ToLower(d)| == 1;
    }
    assert ToInt(d, 10) == Some(n);
  }

  lemma UpperDigitsNoSign(n: nat, w: nat)
    ensures HexUpper(n, w)[0] != '-'
  {
    HexUpperRoundTrip(n, w);
    var s := HexUpper(n, w);
    if s[0] == '-' {
      NonDigitDoesNotParse(s, 16, 0);
    }
  }

  // -----------------------------------------------------------------------
  // dumpToHex
  // -----------------------------------------------------------------------

  const Ruler: string := "        0- 1- 2- 3- 4- 5- 6- 7- 8- 9- A- B- C- D- E- F-\n"

  /** The text column shows '!'..'~' as themselves and anything else as a
      dot. */
  function Visible(b: byte): (c: char)
    ensures c == '.' || '!' <= c <= '~'
  {
    if 33 <= b <= 126 then b as char else '.'
  }

  /** A byte in two upper-case hex digits. */
  function HexByte(b: byte): (r: string)
    ensures |r| == 2
  {
    assert Pow16(2) == 16 * Pow16(1);
    HexUpperLength(b, 2);
    HexUpper(b, 2)
  }

  /** The hex column of the row at i, for its first j positions: a byte
      and a blank, or three blanks past the end of the data. */
  function HexCols(data: seq<byte>, i: nat, j: nat): (r: string)
    ensures |r| == 3 * j
  {
    if j == 0 then ""
    else HexCols(data, i, j - 1) + (if i + j - 1 < |data| then HexByte(data[i + j - 1]) + " " else "   ")
  }

  /** The text column of the row at i, for its first j positions. */
  function TextCols(data: seq<byte>, i: nat, j: nat): (r: string)
    ensures |r| == j
  {
    if j == 0 then ""
    else TextCols(data, i, j - 1) + [if i + j - 1 < |data| then Visible(data[i + j - 1]) else ' ']
  }

  /** The line printed for the row at offset i. */
  function Row(data: seq<byte>, i: nat): string
  {
    "0x" + HexUpper(i, 4) + ": " + HexCols(data, i, 16) + " | " + TextCols(data, i, 16) + " |\n"
  }

  /** Whether the row at offset i lies within the first and last offsets
      (a negative one does not restrict). */
  predicate Shown(first: int, last: int, i: int)
  {
    (first < 0 || first <= i) && (last < 0 || last >= i)
  }

  /** The offsets of the rows shown, from offset i on in steps of 16. */
  function Offsets(data: seq<byte>, first: int, last: int, i: nat): (r: seq<nat>)
    decreases |data| - i
  {
    if i >= |data| then []
    else (if Shown(first, last, i) then [i] else []) + Offsets(data, first, last, i + 16)
  }

  function RowsOf(data: seq<byte>, offs: seq<nat>): (r: seq<string>)
    ensures |r| == |offs|
  {
    if offs == [] then [] else [Row(data, offs[0])] + RowsOf(data, offs[1..])
  }

  /** Everything one datagram prints. */
  function Dump(data: seq<byte>, showRuler: bool, first: int, last: int): (r: seq<string>)
    ensures |r| == |Offsets(data, first, last, 0)| + if showRuler then 2 else 0
    ensures showRuler ==> r[0] == Ruler && r[|r| - 1] == "\n"
    ensures !showRuler ==> r == RowsOf(data, Offsets(data, first, last, 0))
  {
    (if showRuler then [Ruler] else []) + RowsOf(data, Offsets(data, first, last, 0)) +
      (if showRuler then ["\n"] else [])
  }

  /** The inner loop: one row's hex and text columns. */
  method RowLine(data: seq<byte>, i: nat) returns (line: string)
    ensures line == Row(data, i)
  {
    var hex := "";
    var str := "";
    for j := 0 to 16
      invariant hex == HexCols(data, i, j) && str == TextCols(data, i, j)
    {
      if i + j < |data| {
        hex := hex + HexByte(data[i + j]) + " ";
        str := str + [Visible(data[i + j])];
      } else {
        hex := hex + "   ";
        str := str + [' '];
      }
    }
    line := "0x" + HexUpper(i, 4) + ": " + hex + " | " + str + " |\n";
  }

  /** The outer loop over rows, from offset 0 in steps of 16. */
  method RowLines(data: seq<byte>, first: int, last: int) returns (lines: seq<string>)
    ensures lines == RowsOf(data, Offsets(data, first, last, 0))
  {
    lines := [];
    var i := 0;
    while i < |data|
      invariant lines + RowsOf(data, Offsets(data, first, last, i)) == RowsOf(data, Offsets(data, first, last, 0))
      decreases |data| - i
    {
      lines := AddRow(lines, RowsOf(data, Offsets(data, first, last, 0)), data, first, last, i);
      i := i + 16;
    }
    assert Offsets(data, first, last, i) == [];
    assert lines + [] == lines;
  }

  /** One pass of the outer loop: the row at i is added when shown. */
  method AddRow(lines: seq<string>, ghost whole: seq<string>, data: seq<byte>, first: int, last: int, i: nat)
    returns (more: seq<string>)
    requires i < |data|
    requires lines + RowsOf(data, Offsets(data, first, last, i)) == whole
    ensures more + RowsOf(data, Offsets(data, first, last, i + 16)) == whole
  {
    ghost var rest := RowsOf(data, Offsets(data, first, last, i + 16));
    RowsStep(data, first, last, i);
    if Shown(first, last, i) {
      var line := RowLine(data, i);
      assert lines + ([line] + rest) == (lines + [line]) + rest;
      more := lines + [line];
    } else {
      assert [] + rest == rest;
      more := lines;
    }
  }

  /** dumpToHex: the optional ruler, the rows shown, and a blank line after
      them when the ruler is on. */
  method DumpToHex(data: seq<byte>, showRuler: bool, first: int, last: int) returns (lines: seq<string>)
    ensures lines == Dump(data, showRuler, first, last)
  {
    lines := [];
    if showRuler {
      lines := lines + [Ruler];
    }
    var rows := RowLines(data, first, last);
    lines := lines + rows;
    if showRuler {
      lines := lines + ["\n"];
    }
  }

  /** One step of the outer loop: the row at i, if shown, then the rest. */
  lemma RowsStep(data: seq<byte>, first: int, last: int, i: nat)
    requires i < |data|
    ensures RowsOf(data, Offsets(data, first, last, i)) ==
      (if Shown(first, last, i) then [Row(data, i)] else []) + RowsOf(data, Offsets(data, first, last, i + 16))
  {
    var offs := Offsets(data, first, last, i + 16);
    if Shown(first, last, i) {
      assert Offsets(data, first, last, i) == [i] + offs;
      assert ([i] + offs)[1..] == offs;
    } else {
      assert Offsets(data, first, last, i) == offs;
    }
  }

  // -----------------------------------------------------------------------
  // Properties of the dump
  // -----------------------------------------------------------------------

  /** Every row starts at a multiple of 16 within the data, and a row is
      printed exactly when its offset lies within the first and last
      offsets; the rows come in increasing order. */
  lemma {:induction false} OffsetsAre(data: seq<byte>, first: int, last: int, i: nat, o: nat)
    requires i % 16 == 0
    ensures o in Offsets(data, first, last, i) <==>
      (i <= o < |data| && o % 16 == 0 && Shown(first, last, o))
    ensures forall k :: 0 <= k < |Offsets(data, first, last, i)| ==> Offsets(data, first, last, i)[k] >= i
    decreases |data| - i
  {
    if i < |data| {
      OffsetsAre(data, first, last, i + 16, o);
      var rest := Offsets(data, first, last, i + 16);
      if Shown(first, last, i) {
        assert Offsets(data, first, last, i) == [i] + rest;
      } else {
        assert Offsets(data, first, last, i) == rest;
      }
    }
  }

  /** With no limits, one row per started 16 bytes. */
  lemma {:induction false} RowCount(data: seq<byte>, i: nat)
    ensures |Offsets(data, -1, -1, i)| == if i >= |data| then 0 else (|data| - i + 15) / 16
    decreases |data| - i
  {
    if i < |data| {
      RowCount(data, i + 16);
    }
  }

  /** Position j of a row: the text column shows the byte's visible form
      (a blank past the end) and the hex column its two digits (three
      blanks past the end), which read back as the byte. */
  lemma RowColumns(data: seq<byte>, i: nat, n: nat, j: nat)
    requires j < n <= 16
    ensures TextCols(data, i, n)[j] == if i + j < |data| then Visible(data[i + j]) else ' '
    ensures i + j < |data| ==> (HexCols(data, i, n)[3 * j..3 * j + 3] == HexByte(data[i + j]) + " " &&
      ParseNat(HexCols(data, i, n)[3 * j..3 * j + 2], 16) == Some(data[i + j] as nat))
    ensures i + j >= |data| ==> HexCols(data, i, n)[3 * j..3 * j + 3] == "   "
  {
    TextColumn(data, i, n, j);
    HexColumn(data, i, n, j);
    if i + j < |data| {
      var cell := HexCols(data, i, n)[3 * j..3 * j + 3];
      HexUpperRoundTrip(data[i + j], 2);
      assert HexCols(data, i, n)[3 * j..3 * j + 2] == cell[..2];
    }
  }

  lemma {:induction false} TextColumn(data: seq<byte>, i: nat, n: nat, j: nat)
    requires j < n <= 16
    ensures TextCols(data, i, n)[j] == if i + j < |data| then Visible(data[i + j]) else ' '
    decreases n
  {
    if j < n - 1 {
      TextColumn(data, i, n - 1, j);
    }
  }

  lemma {:induction false} HexColumn(data: seq<byte>, i: nat, n: nat, j: nat)
    requires j < n <= 16
    ensures HexCols(data, i, n)[3 * j..3 * j + 3] ==
      if i + j < |data| then HexByte(data[i + j]) + " " else "   "
    decreases n
  {
    if j < n - 1 {
      HexColumn(data, i, n - 1, j);
      assert HexCols(data, i, n)[3 * j..3 * j + 3] == HexCols(data, i, n - 1)[3 * j..3 * j + 3];
    }
  }
}
