/** The parts of Qt's QString/QStringList behaviour (and of printf number
    formatting) that every tool in the repository leans on: splitting with
    empty parts kept, joining, trimming, left/right, ASCII case mapping,
    unsigned/signed number parsing and decimal/hex rendering. */
module QtText {

  /** One octet of a network frame, datagram or byte stream. */
  type byte = x: int | 0 <= x < 256

  datatype Option<T> = None | Some(value: T)

  // ---------------------------------------------------------------------
  // QString::split(sep) with Qt::KeepEmptyParts, and QStringList::join
  // ---------------------------------------------------------------------

  /** The one-character strings of s, in order. */
  function Chars(s: string): (r: seq<string>)
    ensures |r| == |s|
  {
    seq(|s|, i requires 0 <= i < |s| => [s[i]])
  }

  /** QString::split(sep): an empty separator yields "", every character,
      then ""; otherwise the string is cut at each leftmost, non-overlapping
      occurrence of sep. Empty parts are kept. */
  function Split(s: string, sep: string): (r: seq<string>)
    ensures |r| >= 1
  {
    if sep == [] then [""] + Chars(s) + [""] else SplitFrom(s, sep, "")
  }

  /** Scans s left to right; cur is the part being accumulated. */
  function SplitFrom(s: string, sep: string, cur: string): (r: seq<string>)
    requires sep != []
    ensures |r| >= 1
    decreases |s|
  {
    if |s| < |sep| then [cur + s]
    else if s[..|sep|] == sep then [cur] + SplitFrom(s[|sep|..], sep, "")
    else SplitFrom(s[1..], sep, cur + [s[0]])
  }

  /** QStringList::join(sep). */
  function Join(parts: seq<string>, sep: string): string
  {
    if |parts| == 0 then ""
    else if |parts| == 1 then parts[0]
    else parts[0] + sep + Join(parts[1..], sep)
  }

  lemma {:induction false} CountSnoc(s: string, c: char, x: char)
    ensures Count(s + [x], c) == Count(s, c) + (if x == c then 1 else 0)
    decreases |s|
  {
    if s != [] {
      assert (s + [x])[1..] == s[1..] + [x];
      CountSnoc(s[1..], c, x);
    }
  }

  /** Joining after extending the last part extends the join. */
  lemma {:induction false} JoinAppendLast(parts: seq<string>, sep: string, x: string)
    requires |parts| >= 1
    ensures Join(parts[..|parts| - 1] + [parts[|parts| - 1] + x], sep) == Join(parts, sep) + x
    decreases |parts|
  {
    var q := parts[..|parts| - 1] + [parts[|parts| - 1] + x];
    if |parts| > 1 {
      assert q[1..] == parts[1..][..|parts[1..]| - 1] + [parts[1..][|parts[1..]| - 1] + x];
      JoinAppendLast(parts[1..], sep, x);
    }
  }

  /** Joining after adding an empty part adds one separator. */
  lemma {:induction false} JoinPushEmpty(parts: seq<string>, sep: string)
    requires |parts| >= 1
    ensures Join(parts + [""], sep) == Join(parts, sep) + sep
    decreases |parts|
  {
    if |parts| > 1 {
      assert (parts + [""])[1..] == parts[1..] + [""];
      JoinPushEmpty(parts[1..], sep);
    } else {
      assert (parts + [""])[1..] == [""];
    }
  }

  /** Joining one more part adds the separator and that part at the end. */
  lemma JoinSnoc(parts: seq<string>, sep: string, x: string)
    requires |parts| >= 1
    ensures Join(parts + [x], sep) == Join(parts, sep) + sep + x
  {
    JoinPushEmpty(parts, sep);
    var q := parts + [""];
    JoinAppendLast(q, sep, x);
    assert q[..|q| - 1] == parts && q[|q| - 1] + x == x;
  }

  /** Joining two parts or more: the join of all but the last, the
      separator, and the last. */
  lemma JoinFront(parts: seq<string>, sep: string)
    requires |parts| >= 2
    ensures Join(parts, sep) == Join(parts[..|parts| - 1], sep) + sep + parts[|parts| - 1]
  {
    var front := parts[..|parts| - 1];
    assert front + [parts[|parts| - 1]] == parts;
    JoinSnoc(front, sep, parts[|parts| - 1]);
  }

  /** Joining three parts or more, the first two one by one. */
  lemma JoinHeadTwo(parts: seq<string>, sep: string)
    requires |parts| >= 3
    ensures Join(parts, sep) == parts[0] + sep + parts[1] + sep + Join(parts[2..], sep)
  {
    assert parts[1..][1..] == parts[2..];
    assert Join(parts[1..], sep) == parts[1] + sep + Join(parts[2..], sep);
  }

  /** Two words, each followed by a separator, then a tail: the same text
      however it is grouped. */
  lemma Regroup(a: string, b: string, c: string, d: string, e: string)
    ensures ((a + b) + (c + b)) + (d + e) == a + b + c + b + d + e
  {
  }

  /** A prefix of the parts one longer: the separator and the next part
      added at the end. */
  lemma JoinTakeSnoc(parts: seq<string>, hi: nat, sep: string)
    requires 1 <= hi < |parts|
    ensures Join(parts[..hi + 1], sep) == Join(parts[..hi], sep) + sep + parts[hi]
  {
    assert parts[..hi + 1] == parts[..hi] + [parts[hi]];
    JoinSnoc(parts[..hi], sep, parts[hi]);
  }

  /** A middle part and its separator, regrouped. */
  lemma RegroupMiddle(a: string, s: string, m: string, x: string, y: string)
    ensures a + s + (m + (x + s)) + y == a + s + m + x + s + y
  {
  }

  /** The last part and what follows it, regrouped. */
  lemma RegroupLast(p: string, m: string, x: string, e: string)
    ensures (p + m) + (x + e) == p + m + x + e
  {
  }

  /** The last k characters of a + b are those of b. */
  lemma SuffixOf(a: string, b: string, k: nat)
    requires k <= |b|
    ensures (a + b)[|a + b| - k..] == b[|b| - k..]
  {
  }

  /** A character found in no part and not in the separator is not in the
      join. */
  lemma {:induction false} JoinHasNo(parts: seq<string>, sep: string, c: char)
    requires c !in sep && forall i :: 0 <= i < |parts| ==> c !in parts[i]
    ensures c !in Join(parts, sep)
    decreases |parts|
  {
    if |parts| > 1 {
      JoinHasNo(parts[1..], sep, c);
    }
  }

  /** Number of occurrences of c in s. */
  function Count(s: string, c: char): nat
  {
    if s == [] then 0 else (if s[0] == c then 1 else 0) + Count(s[1..], c)
  }

  lemma {:induction false} JoinSplitFrom(s: string, sep: string, cur: string)
    requires sep != []
    ensures Join(SplitFrom(s, sep, cur), sep) == cur + s
    decreases |s|
  {
    if |s| < |sep| {
    } else if s[..|sep|] == sep {
      var rest := SplitFrom(s[|sep|..], sep, "");
      JoinSplitFrom(s[|sep|..], sep, "");
      assert s == sep + s[|sep|..];
    } else {
      JoinSplitFrom(s[1..], sep, cur + [s[0]]);
      assert cur + [s[0]] + s[1..] == cur + s;
    }
  }

  lemma {:induction false} JoinChars(s: string)
    ensures Join(Chars(s) + [""], "") == s
    decreases |s|
  {
    if s != [] {
      JoinChars(s[1..]);
      assert Chars(s) + [""] == [[s[0]]] + (Chars(s[1..]) + [""]);
    }
  }

  /** Joining the parts of a split with the same separator gives back the
      original string. */
  lemma JoinSplit(s: string, sep: string)
    ensures Join(Split(s, sep), sep) == s
  {
    if sep == [] {
      JoinChars(s);
      assert [""] + Chars(s) + [""] == [""] + (Chars(s) + [""]);
    } else {
      JoinSplitFrom(s, sep, "");
    }
  }

  lemma {:induction false} SplitFromCount(s: string, c: char, cur: string)
    ensures |SplitFrom(s, [c], cur)| == 1 + Count(s, c)
    decreases |s|
  {
    if s != [] {
      assert s[..1] == [s[0]];
      if s[0] == c {
        SplitFromCount(s[1..], c, "");
      } else {
        SplitFromCount(s[1..], c, cur + [s[0]]);
      }
    }
  }

  /** With a one-character separator the number of parts is one more than
      the number of separator characters. */
  lemma SplitCount(s: string, c: char)
    ensures |Split(s, [c])| == 1 + Count(s, c)
  {
    SplitFromCount(s, c, "");
  }

  lemma {:induction false} SplitFromPlain(s: string, c: char, cur: string)
    requires c !in s
    ensures SplitFrom(s, [c], cur) == [cur + s]
    decreases |s|
  {
    if s != [] {
      assert s[..1] == [s[0]];
      SplitFromPlain(s[1..], c, cur + [s[0]]);
      assert cur + [s[0]] + s[1..] == cur + s;
    }
  }

  /** Gluing the parts of a split on one character back together keeps
      every other character. */
  lemma {:induction false} SplitFromKeeps(s: string, c: char, cur: string, x: char)
    requires x != c && x in cur + s
    ensures x in Join(SplitFrom(s, [c], cur), "")
    decreases |s|
  {
    if s == [] {
      assert cur + s == cur;
    } else if s[..1] == [c] {
      var rest := SplitFrom(s[1..], [c], "");
      assert SplitFrom(s, [c], cur) == [cur] + rest;
      assert ([cur] + rest)[1..] == rest;
      assert Join([cur] + rest, "") == cur + Join(rest, "");
      if x !in cur {
        assert s == [s[0]] + s[1..];
        SplitFromKeeps(s[1..], c, "", x);
      }
    } else {
      assert cur + s == (cur + [s[0]]) + s[1..];
      SplitFromKeeps(s[1..], c, cur + [s[0]], x);
    }
  }

  /** Splitting on a one-character separator, one character at a time: the
      separator starts a new empty part, anything else extends the last. */
  lemma {:induction false} SplitFromSnoc(s: string, c: char, cur: string, x: char)
    ensures var l := SplitFrom(s, [c], cur);
      SplitFrom(s + [x], [c], cur) ==
        if x == c then l + [""] else l[..|l| - 1] + [l[|l| - 1] + [x]]
    decreases |s|
  {
    if s == [] {
      assert s + [x] == [x] && [x][..1] == [x] && [x][1..] == [];
      assert cur + [] == cur && "" + [] == "" && cur + [x] + [] == cur + [x];
      assert SplitFrom(s, [c], cur) == [cur];
      if x == c {
        assert SplitFrom([x], [c], cur) == [cur] + SplitFrom([], [c], "");
      } else {
        assert SplitFrom([x], [c], cur) == SplitFrom([], [c], cur + [x]);
      }
    } else {
      var t := s + [x];
      assert t[..1] == s[..1] == [s[0]] && t[1..] == s[1..] + [x];
      if s[0] == c {
        SplitFromSnoc(s[1..], c, "", x);
      } else {
        SplitFromSnoc(s[1..], c, cur + [s[0]], x);
      }
    }
  }

  lemma SplitSnoc(s: string, c: char, x: char)
    ensures var l := Split(s, [c]);
      Split(s + [x], [c]) == if x == c then l + [""] else l[..|l| - 1] + [l[|l| - 1] + [x]]
  {
    SplitFromSnoc(s, c, "", x);
  }

  lemma {:induction false} SplitFromSkip(a: string, rest: string, sep: string, cur: string)
    requires sep != [] && sep[0] !in a && |rest| >= |sep|
    ensures SplitFrom(a + rest, sep, cur) == SplitFrom(rest, sep, cur + a)
    decreases |a|
  {
    if a != [] {
      var s := a + rest;
      assert s[0] == a[0] && s[..|sep|][0] == s[0];
      assert s[1..] == a[1..] + rest;
      SplitFromSkip(a[1..], rest, sep, cur + [a[0]]);
      assert cur + [a[0]] + a[1..] == cur + a;
    } else {
      assert a + rest == rest && cur + a == cur;
    }
  }

  /** A string made of two pieces free of the separator's first character,
      glued by the separator, splits back into those two pieces. */
  lemma SplitPair(a: string, b: string, sep: string)
    requires sep != [] && sep[0] !in a && sep[0] !in b
    ensures Split(a + sep + b, sep) == [a, b]
  {
    SplitFromSkip(a, sep + b, sep, "");
    assert a + sep + b == a + (sep + b);
    assert (sep + b)[..|sep|] == sep && (sep + b)[|sep|..] == b;
    SplitFromNoSep(b, sep, "");
    assert "" + a == a && "" + b == b;
  }

  lemma {:induction false} SplitFromNoSep(s: string, sep: string, cur: string)
    requires sep != [] && sep[0] !in s
    ensures SplitFrom(s, sep, cur) == [cur + s]
    decreases |s|
  {
    if |s| >= |sep| {
      assert s[..|sep|][0] == s[0];
      SplitFromNoSep(s[1..], sep, cur + [s[0]]);
      assert cur + [s[0]] + s[1..] == cur + s;
    }
  }

  /** Splitting a join of separator-free parts on a one-character separator
      gives the parts back. */
  lemma {:induction false} SplitJoin(parts: seq<string>, c: char)
    requires |parts| >= 1
    requires forall i :: 0 <= i < |parts| ==> c !in parts[i]
    ensures Split(Join(parts, [c]), [c]) == parts
    decreases |parts|
  {
    if |parts| == 1 {
      SplitFromPlain(parts[0], c, "");
      assert "" + parts[0] == parts[0];
    } else {
      SplitJoin(parts[1..], c);
      var rest := Join(parts[1..], [c]);
      SplitFromSkip(parts[0], [c] + rest, [c], "");
      assert parts[0] + [c] + rest == parts[0] + ([c] + rest);
      assert ([c] + rest)[..1] == [c] && ([c] + rest)[1..] == rest;
      assert "" + parts[0] == parts[0];
      assert parts == [parts[0]] + parts[1..];
    }
  }

  // ---------------------------------------------------------------------
  // trimmed, left, right, case mapping
  // ---------------------------------------------------------------------

  /** The whitespace QString::trimmed removes (ASCII range: space, \t, \n,
      \v, \f, \r). */
  predicate IsSpace(c: char)
  {
    c == ' ' || 9 <= c as int <= 13
  }

  function TrimStart(s: string): (r: string)
    ensures |r| <= |s|
    ensures r != [] ==> !IsSpace(r[0])
  {
    if s != [] && IsSpace(s[0]) then TrimStart(s[1..]) else s
  }

  function TrimEnd(s: string): (r: string)
    ensures |r| <= |s|
    ensures r != [] ==> !IsSpace(r[|r| - 1])
  {
    if s != [] && IsSpace(s[|s| - 1]) then TrimEnd(s[..|s| - 1]) else s
  }

  /** QString::trimmed. */
  function Trimmed(s: string): string
  {
    TrimEnd(TrimStart(s))
  }

  /** Trimming only removes characters. */
  lemma {:induction false} TrimStartAbsent(s: string, c: char)
    requires c !in s
    ensures c !in TrimStart(s)
    decreases |s|
  {
    if s != [] && IsSpace(s[0]) {
      assert s == [s[0]] + s[1..];
      TrimStartAbsent(s[1..], c);
    }
  }

  lemma {:induction false} TrimEndAbsent(s: string, c: char)
    requires c !in s
    ensures c !in TrimEnd(s)
    decreases |s|
  {
    if s != [] && IsSpace(s[|s| - 1]) {
      assert s == s[..|s| - 1] + [s[|s| - 1]];
      TrimEndAbsent(s[..|s| - 1], c);
    }
  }

  lemma TrimmedAbsent(s: string, c: char)
    requires c !in s
    ensures c !in Trimmed(s)
  {
    TrimStartAbsent(s, c);
    TrimEndAbsent(TrimStart(s), c);
  }

  /** A string with no blank at either end is its own trimmed form. */
  lemma TrimmedKeeps(s: string)
    requires s != [] && !IsSpace(s[0]) && !IsSpace(s[|s| - 1])
    ensures Trimmed(s) == s
  {
  }

  /** QString::left(n): the whole string when n is negative or not less than
      the length. */
  function Left(s: string, n: int): string
  {
    if n < 0 || n >= |s| then s else s[..n]
  }

  /** QString::right(n), with the same rule for out-of-range n. */
  function Right(s: string, n: int): string
  {
    if n < 0 || n >= |s| then s else s[|s| - n..]
  }

  function UpperChar(c: char): char
  {
    if 'a' <= c <= 'z' then (c as int - 32) as char else c
  }

  function LowerChar(c: char): char
  {
    if 'A' <= c <= 'Z' then (c as int + 32) as char else c
  }

  /** QString::toUpper on the ASCII range. */
  function ToUpper(s: string): (r: string)
    ensures |r| == |s|
  {
    seq(|s|, i requires 0 <= i < |s| => UpperChar(s[i]))
  }

  /** QString::toLower on the ASCII range. */
  function ToLower(s: string): (r: string)
    ensures |r| == |s|
  {
    seq(|s|, i requires 0 <= i < |s| => LowerChar(s[i]))
  }

  // ---------------------------------------------------------------------
  // Number parsing (QString::toUInt / toULongLong / toInt)
  // ---------------------------------------------------------------------

  /** The value of one digit in bases up to 16, either letter case. */
  function DigitValue(c: char): Option<nat>
  {
    if '0' <= c <= '9' then Some(c as int - '0' as int)
    else if 'a' <= c <= 'f' then Some(c as int - 'a' as int + 10)
    else if 'A' <= c <= 'F' then Some(c as int - 'A' as int + 10)
    else None
  }

  /** The value of a digit string in the given base (None when a character
      is not a digit of that base); the empty string has value 0. */
  function DigitsValue(s: string, base: nat): Option<nat>
    decreases |s|
  {
    if s == [] then Some(0)
    else
      match (DigitsValue(s[..|s| - 1], base), DigitValue(s[|s| - 1]))
      case (Some(v), Some(d)) => if d < base then Some(v * base + d) else None
      case _ => None
  }

  /** A non-empty string of digits of the base. */
  function ParseNat(s: string, base: nat): Option<nat>
  {
    if s == [] then None else DigitsValue(s, base)
  }

  /** QString::toUInt(&ok, base): ok only for a value that fits 32 bits. */
  function ToUInt(s: string, base: nat): Option<nat>
  {
    match ParseNat(s, base)
    case Some(v) => if v < 0x1_0000_0000 then Some(v) else None
    case None => None
  }

  /** QString::toULongLong(&ok, base): ok only for a value that fits 64 bits. */
  function ToULongLong(s: string, base: nat): Option<nat>
  {
    match ParseNat(s, base)
    case Some(v) => if v < 0x1_0000_0000_0000_0000 then Some(v) else None
    case None => None
  }

  /** QString::toInt(&ok, base): an optional minus sign, then digits; ok
      only for a value that fits a signed 32-bit int. */
  function ToInt(s: string, base: nat): Option<int>
  {
    var neg := s != [] && s[0] == '-';
    var mag := ParseNat(if neg then s[1..] else s, base);
    match mag
    case Some(v) =>
      var x: int := if neg then 0 - (v as int) else v as int;
      if -0x8000_0000 <= x < 0x8000_0000 then Some(x) else None
    case None => None
  }

  // ---------------------------------------------------------------------
  // Rendering (printf %u / %d / %x / %X, QHostAddress::toString)
  // ---------------------------------------------------------------------

  function DecimalDigit(d: nat): char
    requires d < 10
  {
    ('0' as int + d) as char
  }

  /** printf("%u"): the shortest decimal representation. */
  function Decimal(n: nat): (r: string)
    ensures |r| >= 1
  {
    if n < 10 then [DecimalDigit(n)] else Decimal(n / 10) + [DecimalDigit(n % 10)]
  }

  function HexDigitLower(d: nat): char
    requires d < 16
  {
    if d < 10 then DecimalDigit(d) else ('a' as int + d - 10) as char
  }

  function HexDigitUpper(d: nat): char
    requires d < 16
  {
    if d < 10 then DecimalDigit(d) else ('A' as int + d - 10) as char
  }

  /** printf("%0<w>x"): lower-case hex, zero-padded to at least w digits. */
  function HexLower(n: nat, w: nat): (r: string)
    ensures |r| >= 1
    decreases n + w
  {
    if n < 16 && w <= 1 then [HexDigitLower(n)]
    else HexLower(n / 16, if w > 0 then w - 1 else 0) + [HexDigitLower(n % 16)]
  }

  /** printf("%0<w>X"): upper-case hex, zero-padded to at least w digits. */
  function HexUpper(n: nat, w: nat): (r: string)
    ensures |r| >= 1
    decreases n + w
  {
    if n < 16 && w <= 1 then [HexDigitUpper(n)]
    else HexUpper(n / 16, if w > 0 then w - 1 else 0) + [HexDigitUpper(n % 16)]
  }

  /** A dotted quad as inet_ntop and QHostAddress::toString print it. */
  function DottedQuad(a: nat, b: nat, c: nat, d: nat): string
  {
    Join([Decimal(a), Decimal(b), Decimal(c), Decimal(d)], ".")
  }

  lemma {:induction false} DecimalRoundTrip(n: nat)
    ensures ParseNat(Decimal(n), 10) == Some(n)
    ensures DigitsValue(Decimal(n), 10) == Some(n)
    ensures forall i :: 0 <= i < |Decimal(n)| ==> '0' <= Decimal(n)[i] <= '9'
  {
    if n < 10 {
      assert Decimal(n)[..0] == [];
    } else {
      DecimalRoundTrip(n / 10);
      var s := Decimal(n);
      assert s[..|s| - 1] == Decimal(n / 10);
    }
  }

  lemma {:induction false} HexLowerRoundTrip(n: nat, w: nat)
    ensures ParseNat(HexLower(n, w), 16) == Some(n)
    ensures DigitsValue(HexLower(n, w), 16) == Some(n)
    ensures forall i :: 0 <= i < |HexLower(n, w)| ==> DigitValue(HexLower(n, w)[i]).Some?
    decreases n + w
  {
    var s := HexLower(n, w);
    if n < 16 && w <= 1 {
      assert DigitValue(HexDigitLower(n)) == Some(n);
      assert s[..0] == [];
    } else {
      var w' := if w > 0 then w - 1 else 0;
      HexLowerRoundTrip(n / 16, w');
      var p := HexLower(n / 16, w');
      assert s == p + [HexDigitLower(n % 16)];
      assert s[..|s| - 1] == p;
      assert DigitValue(s[|s| - 1]) == Some(n % 16);
      assert DigitsValue(s, 16) == Some((n / 16) * 16 + n % 16);
      forall i | 0 <= i < |s|
        ensures DigitValue(s[i]).Some?
      {
        if i < |s| - 1 {
          assert s[i] == p[i];
        }
      }
    }
  }

  lemma {:induction false} HexUpperRoundTrip(n: nat, w: nat)
    ensures ParseNat(HexUpper(n, w), 16) == Some(n)
    ensures DigitsValue(HexUpper(n, w), 16) == Some(n)
    decreases n + w
  {
    var s := HexUpper(n, w);
    if n < 16 && w <= 1 {
      assert DigitValue(HexDigitUpper(n)) == Some(n);
      assert s[..0] == [];
    } else {
      var w' := if w > 0 then w - 1 else 0;
      HexUpperRoundTrip(n / 16, w');
      var p := HexUpper(n / 16, w');
      assert s == p + [HexDigitUpper(n % 16)];
      assert s[..|s| - 1] == p;
      assert DigitValue(s[|s| - 1]) == Some(n % 16);
      assert DigitsValue(s, 16) == Some((n / 16) * 16 + n % 16);
    }
  }

  /** A value below 16^w is printed in exactly w hex digits. */
  lemma {:induction false} HexLowerLength(n: nat, w: nat)
    requires w >= 1 && n < Pow16(w)
    ensures |HexLower(n, w)| == w
    decreases w
  {
    if w > 1 {
      HexLowerLength(n / 16, w - 1);
    }
  }

  lemma {:induction false} HexUpperLength(n: nat, w: nat)
    requires w >= 1 && n < Pow16(w)
    ensures |HexUpper(n, w)| == w
    decreases w
  {
    if w > 1 {
      HexUpperLength(n / 16, w - 1);
    }
  }

  function Pow16(w: nat): nat
  {
    if w == 0 then 1 else 16 * Pow16(w - 1)
  }

  /** A string holding a character that is not a digit of the base does not
      parse. */
  lemma {:induction false} NonDigitDoesNotParse(s: string, base: nat, i: nat)
    requires i < |s| && DigitValue(s[i]).None?
    ensures DigitsValue(s, base).None?
    decreases |s|
  {
    if i < |s| - 1 {
      NonDigitDoesNotParse(s[..|s| - 1], base, i);
    }
  }

  /** The value of a concatenation of hex digit strings. */
  lemma {:induction false} HexDigitsAppend(a: string, b: string, x: nat, y: nat)
    requires DigitsValue(a, 16) == Some(x) && DigitsValue(b, 16) == Some(y)
    ensures DigitsValue(a + b, 16) == Some(x * Pow16(|b|) + y)
    decreases |b|
  {
    if b == [] {
      assert a + b == a;
    } else {
      var b' := b[..|b| - 1];
      var d := DigitValue(b[|b| - 1]).value;
      var y' := DigitsValue(b', 16).value;
      HexDigitsAppend(a, b', x, y');
      assert (a + b)[..|a + b| - 1] == a + b';
      assert (a + b)[|a + b| - 1] == b[|b| - 1];
      assert y == y' * 16 + d;
      ShiftDigit(x, Pow16(|b'|), y', d);
    }
  }

  lemma ShiftDigit(x: nat, p: nat, y: nat, d: nat)
    ensures (x * p + y) * 16 + d == x * (16 * p) + (y * 16 + d)
  {
  }

  /** C's truncating integer division (toward zero), as in `bytes/6`. */
  function CDiv(a: int, b: int): int
    requires b > 0
  {
    if a >= 0 then a / b else -((-a) / b)
  }

  /** A dotted quad splits on '.' into its four decimal fields and holds
      no ':', '-' or blank. */
  lemma DottedQuadSplits(a: nat, c: nat, x: nat, y: nat)
    ensures var text := DottedQuad(a, c, x, y);
      Split(text, ".") == [Decimal(a), Decimal(c), Decimal(x), Decimal(y)] &&
      '.' in text && ':' !in text && '-' !in text && ' ' !in text
  {
    var parts := [Decimal(a), Decimal(c), Decimal(x), Decimal(y)];
    var text := DottedQuad(a, c, x, y);
    forall k | 0 <= k < 4
      ensures '.' !in parts[k] && ':' !in parts[k] && '-' !in parts[k] && ' ' !in parts[k]
    {
      DecimalRoundTrip([a, c, x, y][k]);
    }
    SplitJoin(parts, '.');
    JoinHasNo(parts, ".", ':');
    JoinHasNo(parts, ".", '-');
    JoinHasNo(parts, ".", ' ');
    assert text == parts[0] + "." + Join(parts[1..], ".");
    assert text[|parts[0]|] == '.';
  }
}
