/**
 * The LiveWire address codec behind `lwaddr` (lwmon's third mode): one
 * argument, which is a stream ID, a multicast MAC address, a source number
 * or a multicast IPv4 address, is decoded to a LiveWire source number and
 * signal type or to one of four special channels. Then the matching listing
 * is printed, or "invalid argument" is reported.
 *
 * `Decode(arg, AsWritten)` (= `Parse`) follows the code as written,
 * including two slips that are kept on purpose: line 498 assigns where it
 * means to compare, and the stream-ID prefixes 0xefc1 and 0xefc4 are given
 * each other's signal type. `Decode(arg, Corrected)` is the same decoder
 * with both slips fixed.
 */
module AddressCodec {
  import opened QtText
  import opened Variant

  /** MainWidget::SignalType; `NoSignal` is the enum's `None` (value 0). */
  datatype SignalType = NoSignal | Stereo | Surround | Backfeed

  /** The special channels at 239.192.255.1 to 239.192.255.4. */
  datatype SpecialChannel = LivestreamClock | StandardStreamClock | AdvertisementChannel | GpioChannel

  /** What a successful lookup prints a listing for. */
  datatype Report = Source(src: nat, signal: SignalType) | Special(channel: SpecialChannel)

  datatype Outcome = Reported(report: Report) | InvalidArgument

  /** The last octet of each special channel's address. */
  function ChannelOctet(ch: SpecialChannel): (n: nat)
    ensures 1 <= n <= 4
  {
    match ch
    case LivestreamClock => 1
    case StandardStreamClock => 2
    case AdvertisementChannel => 3
    case GpioChannel => 4
  }

  /** PrintSpecialChannel's switch: codes 1 to 4 name a channel; for any
      other code nothing is printed and the caller carries on. */
  function ChannelOf(code: nat): (r: Option<SpecialChannel>)
    ensures r.Some? <==> 1 <= code <= 4
    ensures r.Some? ==> ChannelOctet(r.value) == code
  {
    if code == 1 then Some(LivestreamClock)
    else if code == 2 then Some(StandardStreamClock)
    else if code == 3 then Some(AdvertisementChannel)
    else if code == 4 then Some(GpioChannel)
    else None
  }

  function SpecialReport(code: nat): Option<Report>
  {
    match ChannelOf(code)
    case Some(ch) => Some(Special(ch))
    case None => None
  }

  // ---------------------------------------------------------------------
  // The four decoding paths, tried in order; a path that finds nothing
  // falls through to the next one.
  // ---------------------------------------------------------------------

  /** A 32-bit stream ID: 0xefc0 is stereo (or a special channel when the
      third byte is 0xff). As written, 0xefc4 (the first half of 239.196, the
      surround range) is read as backfeed with a 16-bit source, and 0xefc1
      (239.193, the backfeed range) as surround with a 15-bit source. */
  function StreamIdReport(addr: nat, b: Build): (r: Option<Report>)
    ensures r.Some? ==> addr / 0x1_0000 % 0x1_0000 in {0xefc0, 0xefc1, 0xefc4}
    ensures r.Some? && r.value.Source? ==>
      r.value.signal != NoSignal && r.value.src < 0x1_0000 && (r.value.signal == Surround ==> r.value.src < 0x8000)
    ensures r.Some? && r.value.Special? ==>
      addr / 0x1_0000 % 0x1_0000 == 0xefc0 && addr % 0x100 == ChannelOctet(r.value.channel)
  {
    var prefix := addr / 0x1_0000 % 0x1_0000;
    if prefix == 0xefc0 then
      if addr / 0x100 % 0x100 == 0xff then SpecialReport(addr % 0x100)
      else Some(Source(addr % 0x1_0000, Stereo))
    else if b == AsWritten then
      if prefix == 0xefc4 then Some(Source(addr % 0x1_0000, Backfeed))
      else if prefix == 0xefc1 then Some(Source(addr % 0x8000, Surround))
      else None
    else
      if prefix == 0xefc1 then Some(Source(addr % 0x1_0000, Backfeed))
      else if prefix == 0xefc4 then Some(Source(addr % 0x8000, Surround))
      else None
  }

  /** The stream-ID path: eight characters that parse as a hex number. */
  function ParseStreamId(arg: string, b: Build): (r: Option<Report>)
    ensures r.Some? ==> |arg| == 8 && ToUInt(arg, 16).Some?
    ensures r.Some? && r.value.Source? ==> r.value.signal != NoSignal && r.value.src < 0x1_0000
  {
    if |arg| == 8 then
      match ToUInt(arg, 16)
      case Some(addr) => StreamIdReport(addr, b)
      case None => None
    else None
  }

  /** PrintMacAddr on a 48-bit value: 01:00:5e:00 is stereo (or a special
      channel when the fifth byte is 0xff), 01:00:5e:01 backfeed and
      01:00:5e:04 surround. */
  function MacReport(mac: nat): (r: Option<Report>)
    ensures r.Some? ==> mac / 0x1_0000 % 0x1_0000_0000 in {0x0100_5e00, 0x0100_5e01, 0x0100_5e04}
    ensures r.Some? && r.value.Source? ==>
      r.value.signal != NoSignal && r.value.src < 0x1_0000 && (r.value.signal == Surround ==> r.value.src < 0x8000)
    ensures r.Some? && r.value.Special? ==>
      mac / 0x1_0000 % 0x1_0000_0000 == 0x0100_5e00 && mac % 0x100 == ChannelOctet(r.value.channel)
  {
    var prefix := mac / 0x1_0000 % 0x1_0000_0000;
    if prefix == 0x0100_5e00 then
      if mac / 0x100 % 0x100 == 0xff then SpecialReport(mac % 0x100)
      else Some(Source(mac % 0x1_0000, Stereo))
    else if prefix == 0x0100_5e01 then Some(Source(mac % 0x1_0000, Backfeed))
    else if prefix == 0x0100_5e04 then Some(Source(mac % 0x8000, Surround))
    else None
  }

  function PrintMac(hex: string): Option<Report>
  {
    match ToULongLong(hex, 16)
    case Some(mac) => MacReport(mac)
    case None => None
  }

  /** The MAC path: twelve hex characters, or six groups separated by ':'
      or by '-', the groups glued together. */
  function ParseMac(arg: string): (r: Option<Report>)
    ensures r.Some? ==> |arg| == 12 || |Split(arg, ":")| == 6 || |Split(arg, "-")| == 6
    ensures r.Some? && r.value.Source? ==> r.value.signal != NoSignal && r.value.src < 0x1_0000
  {
    var plain := if |arg| == 12 then PrintMac(arg) else None;
    var colon := Split(arg, ":");
    var dash := Split(arg, "-");
    if plain.Some? then plain
    else if |colon| == 6 && PrintMac(Join(colon, "")).Some? then PrintMac(Join(colon, ""))
    else if |dash| == 6 then PrintMac(Join(dash, ""))
    else None
  }

  /** The source-number path: a decimal number from 1 to 32767. */
  function ParseSourceNumber(arg: string): (r: Option<Report>)
    ensures r.Some? ==>
      r.value.Source? && r.value.signal == NoSignal && 0 < r.value.src < 32768 && ToUInt(arg, 10) == Some(r.value.src)
  {
    match ToUInt(arg, 10)
    case Some(src) => if 0 < src < 32768 then Some(Source(src, NoSignal)) else None
    case None => None
  }

  /** One field of a dotted address: a decimal number not above 255. */
  function OctetOf(field: string): Option<nat>
  {
    match ToUInt(field, 10)
    case Some(v) => if v <= 255 then Some(v) else None
    case None => None
  }

  /** All fields as octets, or None as soon as one is not an octet. */
  function OctetsOf(fields: seq<string>): Option<seq<nat>>
  {
    if forall i :: 0 <= i < |fields| ==> OctetOf(fields[i]).Some? then
      Some(seq(|fields|, i requires 0 <= i < |fields| => OctetOf(fields[i]).value))
    else None
  }

  /** The octet loop: reads the four fields into an array and gives up at
      the first one that is not an octet. */
  method ReadOctets(fields: seq<string>) returns (octets: Option<seq<nat>>)
    requires |fields| == 4
    ensures octets == OctetsOf(fields)
    ensures octets.Some? ==> |octets.value| == 4 && forall i :: 0 <= i < 4 ==> octets.value[i] <= 255
  {
    var a := new nat[4](_ => 0);
    for i := 0 to 4
      invariant forall j :: 0 <= j < i ==> OctetOf(fields[j]).Some? && a[j] == OctetOf(fields[j]).value
    {
      var v := ToUInt(fields[i], 10);
      if v.None? || v.value > 255 {
        assert OctetOf(fields[i]).None?;
        return None;
      }
      a[i] := v.value;
    }
    assert forall i :: 0 <= i < |fields| ==> OctetOf(fields[i]).Some?;
    assert a[..] == seq(|fields|, i requires 0 <= i < |fields| => OctetOf(fields[i]).value);
    octets := Some(a[..]);
  }

  /** The multicast ranges of a dotted address. As written, the special
      channel test on line 498 assigns 255 to the third octet instead of
      comparing, so every 239.192.x.y with x >= 128 goes to the special
      channels; corrected, only 239.192.255.y does. */
  function IpReport(o: seq<nat>, b: Build): (r: Option<Report>)
    requires |o| == 4
    ensures o[0] != 239 ==> r.None?
    ensures r.Some? && r.value.Source? && o[2] < 256 && o[3] < 256 ==>
      r.value.signal != NoSignal && r.value.src < 0x8000 && IpOctets(r.value.src, r.value.signal) == o
    ensures r.Some? && r.value.Special? ==> o[1] == 192 && o[2] >= 128 && o[3] == ChannelOctet(r.value.channel)
  {
    if o[0] != 239 then None
    else if o[1] == 192 && o[2] < 128 then Some(Source(256 * o[2] + o[3], Stereo))
    else if o[1] == 193 && o[2] < 128 then Some(Source(256 * o[2] + o[3], Backfeed))
    else if o[1] == 196 && o[2] >= 128 then Some(Source(256 * (o[2] - 128) + o[3], Surround))
    else if o[1] == 192 && (b == AsWritten || o[2] == 255) then SpecialReport(o[3])
    else None
  }

  /** The IP path, which comes last: four dotted fields. A field that is not
      an octet ends the run with "invalid argument" at once. */
  function ParseIp(arg: string, b: Build): (r: Outcome)
    ensures |Split(arg, ".")| != 4 || OctetsOf(Split(arg, ".")).None? ==> r == InvalidArgument
    ensures r.Reported? && r.report.Source? ==>
      r.report.signal != NoSignal && r.report.src < 0x8000 &&
      OctetsOf(Split(arg, ".")).Some? && IpOctets(r.report.src, r.report.signal) == OctetsOf(Split(arg, ".")).value
  {
    var fields := Split(arg, ".");
    if |fields| == 4 then
      match OctetsOf(fields)
      case Some(o) =>
        (match IpReport(o, b)
         case Some(r) => Reported(r)
         case None => InvalidArgument)
      case None => InvalidArgument
    else InvalidArgument
  }

  /** MainWidget::PrintAddr(const QString &): the four paths in order. */
  function Decode(arg: string, b: Build): (r: Outcome)
    ensures r.Reported? && r.report.Source? ==> r.report.src < 0x1_0000
    ensures r.Reported? && r.report.Source? && r.report.signal == NoSignal ==> 0 < r.report.src < 32768
  {
    match ParseStreamId(arg, b)
    case Some(r) => Reported(r)
    case None =>
      match ParseMac(arg)
      case Some(r) => Reported(r)
      case None =>
        match ParseSourceNumber(arg)
        case Some(r) => Reported(r)
        case None => ParseIp(arg, b)
  }

  /** The decoder as written. */
  function Parse(arg: string): Outcome
  {
    Decode(arg, AsWritten)
  }

  // ---------------------------------------------------------------------
  // The addresses of a source, and the listing PrintAddr prints
  // ---------------------------------------------------------------------

  /** The IPv4 address of a source number in one family (stereo for
      NoSignal). Surround sources sit 128 above in the third octet. */
  function IpOctets(src: nat, f: SignalType): seq<nat>
  {
    var hi := src / 256;
    var lo := src % 256;
    match f
    case Surround => [239, 196, 128 + hi, lo]
    case Backfeed => [239, 193, hi, lo]
    case _ => [239, 192, hi, lo]
  }

  /** The multicast MAC address of a source number in one family. */
  function MacBytes(src: nat, f: SignalType): seq<nat>
  {
    var hi := src / 256;
    var lo := src % 256;
    match f
    case Surround => [0x01, 0x00, 0x5e, 0x04, 128 + hi, lo]
    case Backfeed => [0x01, 0x00, 0x5e, 0x01, hi, lo]
    case _ => [0x01, 0x00, 0x5e, 0x00, hi, lo]
  }

  /** The stream ID of a source: its IPv4 address as one 32-bit number. */
  function StreamIdOf(src: nat, f: SignalType): nat
  {
    var o := IpOctets(src, f);
    ((o[0] * 0x100 + o[1]) * 0x100 + o[2]) * 0x100 + o[3]
  }

  function IpText(src: nat, f: SignalType): string
  {
    var o := IpOctets(src, f);
    DottedQuad(o[0], o[1], o[2], o[3])
  }

  /** Two-digit lower-case hex groups. */
  function HexGroups(bytes: seq<nat>): (r: seq<string>)
    ensures |r| == |bytes|
  {
    seq(|bytes|, i requires 0 <= i < |bytes| => HexLower(bytes[i], 2))
  }

  /** A MAC address as "%02x:%02x:...". */
  function MacText(src: nat, f: SignalType): string
  {
    Join(HexGroups(MacBytes(src, f)), ":")
  }

  /** The stream ID as eight hex digits. */
  function StreamIdText(src: nat, f: SignalType): string
  {
    HexLower(StreamIdOf(src, f), 8)
  }

  /** What snprintf(buf, n + 1, ...) keeps of s. */
  function Truncated(s: string, n: nat): (r: string)
    ensures |r| <= n && |r| <= |s| && r == s[..|r|]
    ensures |s| <= n ==> r == s
  {
    if |s| <= n then s else s[..n]
  }

  /** printf("%-<w>s"): s padded with spaces on the right to width w. */
  function PadRight(s: string, w: nat): (r: string)
    ensures |r| == if |s| < w then w else |s|
    ensures |s| <= |r| && r[..|s|] == s && forall i :: |s| <= i < |r| ==> r[i] == ' '
    decreases w - |s|
  {
    if |s| < w then PadRight(s + " ", w) else s
  }

  /** snprintf(ipstr, 7, "%d.%d", a, b): at most six characters survive. */
  function PrintedPair(a: nat, b: nat): string
  {
    Truncated(Decimal(a) + "." + Decimal(b), 6)
  }

  /** The same pair without the six-character cut. */
  function FullPair(a: nat, b: nat): string
  {
    Decimal(a) + "." + Decimal(b)
  }

  /** One address line of the listing: its family, whether it carries the
      star, and the IPv4 and MAC addresses it shows. */
  datatype AddressLine = AddressLine(family: SignalType, starred: bool, ip: string, mac: string)

  /** The three address lines PrintAddr(src, type) prints, stereo,
      surround and backfeed. */
  function AddressLines(src: nat, t: SignalType, b: Build): (r: seq<AddressLine>)
    ensures |r| == 3 && r[0].family == Stereo && r[1].family == Surround && r[2].family == Backfeed
    ensures forall i :: 0 <= i < 3 ==> r[i] == FamilyLine(src, r[i].family, t, b)
  {
    [FamilyLine(src, Stereo, t, b), FamilyLine(src, Surround, t, b), FamilyLine(src, Backfeed, t, b)]
  }

  /** The line of one family: starred when it is the looked-up one; the
      IPv4 address is the family's prefix and the printed pair of the last
      two octets. */
  function FamilyLine(src: nat, f: SignalType, t: SignalType, b: Build): (r: AddressLine)
    ensures r.family == f && (r.starred <==> f == t) && r.mac == MacText(src, f)
    ensures r.ip == ListedIpText(src, f, b)
  {
    AddressLine(f, f == t, ListedIpText(src, f, b), MacText(src, f))
  }

  /** The IPv4 address as the listing prints it: the family's prefix and
      the printed pair of the last two octets. */
  function ListedIpText(src: nat, f: SignalType, b: Build): string
  {
    var o := IpOctets(src, f);
    Prefix(f) + Pair(o[2], o[3], b)
  }

  /** The first two octets as the listing prints them. */
  function Prefix(f: SignalType): string
  {
    match f
    case Surround => "239.196."
    case Backfeed => "239.193."
    case _ => "239.192."
  }

  /** The pair as printed: cut short as written, whole corrected. */
  function Pair(x: nat, y: nat, b: Build): string
  {
    if b == AsWritten then PrintedPair(x, y) else FullPair(x, y)
  }

  /** The text of one address line; the star column lines the labels up. */
  function LineText(l: AddressLine): (r: string)
    ensures |r| >= 37
    ensures r[if l.family == Surround || l.family == Backfeed then 1 else 3] == if l.starred then '*' else ' '
    ensures |l.ip| <= 15 ==> |r| == 37 + |l.mac| && r[20..20 + |l.ip|] == l.ip && r[37..] == l.mac
  {
    var star := if l.starred then "*" else " ";
    var head := match l.family
      case Surround => " " + star + "Surround"
      case Backfeed => " " + star + "Backfeed"
      case _ => "   " + star + "Stereo";
    var padded := PadRight(l.ip, 15);
    var front := head + " Address: ";
    assert |front| == 20;
    assert |l.ip| <= 15 ==> (front + padded)[20..20 + |l.ip|] == padded[..|l.ip|];
    front + padded + "  " + l.mac
  }

  /** Everything PrintAddr(src, type) prints. */
  function Listing(src: nat, t: SignalType, b: Build): (r: seq<string>)
    ensures |r| == 4 && |r[1]| > 3 && |r[2]| > 1 && |r[3]| > 1
    ensures r[1][3] == (if t == Stereo then '*' else ' ')
    ensures r[2][1] == (if t == Surround then '*' else ' ')
    ensures r[3][1] == (if t == Backfeed then '*' else ' ')
  {
    var lines := AddressLines(src, t, b);
    ["LiveWire Source # " + Decimal(src), LineText(lines[0]), LineText(lines[1]), LineText(lines[2])]
  }

  /** The line PrintSpecialChannel prints. */
  function SpecialLine(ch: SpecialChannel): string
  {
    match ch
    case LivestreamClock => " *Livestream clock: 239.192.255.1    01:00:5e:00:ff:01"
    case StandardStreamClock => " *Standard stream clock: 239.192.255.2    01:00:5e:00:ff:02"
    case AdvertisementChannel => " *Advertisment channel: 239.192.255.3    01:00:5e:00:ff:03"
    case GpioChannel => " *GPIO channel: 239.192.255.4    01:00:5e:00:ff:04"
  }

  /** Standard output, standard error and the exit() argument of one run. */
  datatype Exit = Exit(stdout: seq<string>, stderr: seq<string>, code: int)

  /** One `lwaddr <arg>` run. As written, a rejected argument calls
      exit(256); the corrected build exits with 1. */
  function Run(arg: string, b: Build): (r: Exit)
    ensures r.stderr == [] <==> Decode(arg, b).Reported?
    ensures Decode(arg, b).Reported? ==> r.stdout != [] && r.code == 0
    ensures b == Corrected ==> (r.code == 0 <==> Decode(arg, b).Reported?)
  {
    match Decode(arg, b)
    case Reported(Source(src, t)) => Exit(Listing(src, t, b), [], 0)
    case Reported(Special(ch)) => Exit([SpecialLine(ch)], [], 0)
    case InvalidArgument => Exit([], ["lwaddr: invalid argument"], if b == AsWritten then 256 else 1)
  }

  /** The status a parent process sees: POSIX keeps the low eight bits of
      the exit() argument. */
  function ShellStatus(code: int): nat
  {
    code % 256
  }

  // ---------------------------------------------------------------------
  // Arithmetic and text helpers for the proofs
  // ---------------------------------------------------------------------

  lemma DivMod256(m: nat, q: nat, r: nat)
    requires r < 0x100 && m == q * 0x100 + r
    ensures m / 0x100 == q && m % 0x100 == r
  {
  }

  lemma DivMod65536(m: nat, q: nat, r: nat)
    requires r < 0x1_0000 && m == q * 0x1_0000 + r
    ensures m / 0x1_0000 == q && m % 0x1_0000 == r
  {
  }

  lemma DivMod32768(m: nat, q: nat, r: nat)
    requires r < 0x8000 && m == q * 0x8000 + r
    ensures m % 0x8000 == r
  {
  }

  /** The pieces of v = q * 0x10000 + x * 0x100 + lo that the masks pick. */
  lemma Fields(v: nat, q: nat, x: nat, lo: nat)
    requires x < 256 && lo < 256 && v == q * 0x1_0000 + x * 0x100 + lo
    ensures v / 0x1_0000 == q && v % 0x1_0000 == x * 0x100 + lo
    ensures v / 0x100 % 0x100 == x && v % 0x100 == lo
    ensures v % 0x8000 == (x * 0x100 + lo) % 0x8000
  {
    var m := x * 0x100 + lo;
    DivMod65536(v, q, m);
    var hi := q * 0x100 + x;
    assert v == hi * 0x100 + lo;
    DivMod256(v, hi, lo);
    DivMod256(hi, q, x);
    var r := m % 0x8000;
    assert m == m / 0x8000 * 0x8000 + r;
    assert v == (2 * q + m / 0x8000) * 0x8000 + r;
    DivMod32768(v, 2 * q + m / 0x8000, r);
  }

  lemma JoinFour(a: string, b: string, c: string, d: string, sep: string)
    ensures Join([a, b, c, d], sep) == a + sep + b + sep + c + sep + d
  {
    assert [a, b, c, d][1..] == [b, c, d];
    assert [b, c, d][1..] == [c, d];
    assert [c, d][1..] == [d];
    assert Join([c, d], sep) == c + sep + d;
    assert Join([b, c, d], sep) == b + sep + (c + sep + d);
  }

  lemma DecimalHasNo(n: nat, c: char)
    requires !('0' <= c <= '9')
    ensures c !in Decimal(n)
  {
    DecimalRoundTrip(n);
  }

  /** The value of glued two-digit hex groups, read big-endian. */
  function BigEndian(bytes: seq<nat>): nat
  {
    if bytes == [] then 0 else bytes[0] * Pow16(2 * (|bytes| - 1)) + BigEndian(bytes[1..])
  }

  lemma BigEndianSix(b: seq<nat>)
    requires |b| == 6
    ensures BigEndian(b) == ((((b[0] * 0x100 + b[1]) * 0x100 + b[2]) * 0x100 + b[3]) * 0x100 + b[4]) * 0x100 + b[5]
  {
    assert Pow16(0) == 1 && Pow16(2) == 0x100 && Pow16(4) == 0x1_0000 && Pow16(6) == 0x100_0000;
    assert Pow16(8) == 0x1_0000_0000 && Pow16(10) == 0x100_0000_0000;
    assert BigEndian(b[5..]) == b[5];
    assert BigEndian(b[4..]) == b[4] * 0x100 + b[5];
    assert BigEndian(b[3..]) == b[3] * 0x1_0000 + b[4] * 0x100 + b[5];
    assert BigEndian(b[2..]) == b[2] * 0x100_0000 + b[3] * 0x1_0000 + b[4] * 0x100 + b[5];
    assert BigEndian(b[1..]) == b[1] * 0x1_0000_0000 + b[2] * 0x100_0000 + b[3] * 0x1_0000 + b[4] * 0x100 + b[5];
  }

  lemma {:induction false} HexGroupsValue(bytes: seq<nat>)
    requires forall i :: 0 <= i < |bytes| ==> bytes[i] < 256
    ensures |Join(HexGroups(bytes), "")| == 2 * |bytes|
    ensures DigitsValue(Join(HexGroups(bytes), ""), 16) == Some(BigEndian(bytes))
    decreases |bytes|
  {
    if |bytes| > 0 {
      var rest := bytes[1..];
      HexGroupsValue(rest);
      HexGroupsStep(bytes);
      AppendGroup(HexLower(bytes[0], 2), Join(HexGroups(rest), ""), bytes[0], BigEndian(rest), |bytes| - 1);
    }
  }

  /** A two-digit group in front of n groups. */
  lemma AppendGroup(first: string, tail: string, x: nat, y: nat, n: nat)
    requires |first| == 2 && |tail| == 2 * n
    requires DigitsValue(first, 16) == Some(x) && DigitsValue(tail, 16) == Some(y)
    ensures |first + tail| == 2 * (n + 1)
    ensures DigitsValue(first + tail, 16) == Some(x * Pow16(2 * n) + y)
  {
    HexDigitsAppend(first, tail, x, y);
  }

  /** The first group of a non-empty glued form, and what is left. */
  lemma HexGroupsStep(bytes: seq<nat>)
    requires |bytes| > 0 && bytes[0] < 256
    ensures var first, tail := HexLower(bytes[0], 2), Join(HexGroups(bytes[1..]), "");
      |first| == 2 && DigitsValue(first, 16) == Some(bytes[0]) &&
      Join(HexGroups(bytes), "") == first + tail &&
      BigEndian(bytes) == bytes[0] * Pow16(2 * (|bytes| - 1)) + BigEndian(bytes[1..])
  {
    var g := HexGroups(bytes);
    assert Pow16(2) == 256;
    HexLowerLength(bytes[0], 2);
    HexLowerRoundTrip(bytes[0], 2);
    assert g[1..] == HexGroups(bytes[1..]);
  }

  lemma HexGroupsHaveNo(bytes: seq<nat>, c: char)
    requires DigitValue(c).None?
    ensures forall i :: 0 <= i < |bytes| ==> c !in HexGroups(bytes)[i]
  {
    forall i | 0 <= i < |bytes|
      ensures c !in HexGroups(bytes)[i]
    {
      HexLowerRoundTrip(bytes[i], 2);
    }
  }

  /** A token holding a character that is not a hex digit skips the
      stream-ID path and the twelve-character MAC form. */
  lemma NotHex(arg: string, i: nat, b: Build)
    requires i < |arg| && DigitValue(arg[i]).None?
    ensures ParseStreamId(arg, b).None?
    ensures |arg| == 12 ==> PrintMac(arg).None?
    ensures ToUInt(arg, 10).None?
  {
    NonDigitDoesNotParse(arg, 16, i);
    NonDigitDoesNotParse(arg, 10, i);
  }

  // ---------------------------------------------------------------------
  // Properties of the decoder
  // ---------------------------------------------------------------------

  /** A token holding a character that is neither a hex digit nor one of
      the MAC separators takes no MAC path: the character survives the
      gluing of the ':' and '-' groups. */
  lemma NotHexNoMac(arg: string, i: nat)
    requires i < |arg| && DigitValue(arg[i]).None? && arg[i] != ':' && arg[i] != '-'
    ensures ParseMac(arg).None?
  {
    var x := arg[i];
    NonDigitDoesNotParse(arg, 16, i);
    GluedNotHex(arg, ':', x);
    GluedNotHex(arg, '-', x);
  }

  lemma GluedNotHex(arg: string, c: char, x: char)
    requires x in arg && x != c && DigitValue(x).None?
    ensures PrintMac(Join(Split(arg, [c]), "")).None?
  {
    assert "" + arg == arg;
    SplitFromKeeps(arg, c, "", x);
    var glued := Join(Split(arg, [c]), "");
    var k :| 0 <= k < |glued| && glued[k] == x;
    NonDigitDoesNotParse(glued, 16, k);
  }

  /** A token with a '.' is decided by the IP path alone. */
  lemma DottedTokenTakesIpPath(arg: string, b: Build)
    requires '.' in arg
    ensures Decode(arg, b) == ParseIp(arg, b)
  {
    var i :| 0 <= i < |arg| && arg[i] == '.';
    NotHex(arg, i, b);
    NotHexNoMac(arg, i);
  }

  /** A four-field dotted token with a field that is not a decimal octet is
      rejected, whatever the other fields say. */
  lemma BadOctetRejected(arg: string, b: Build, k: nat)
    requires |Split(arg, ".")| == 4 && k < 4 && OctetOf(Split(arg, ".")[k]).None?
    ensures Decode(arg, b) == InvalidArgument
  {
    SplitCount(arg, '.');
    if '.' !in arg {
      SplitFromPlain(arg, '.', "");
      assert false;
    }
    DottedTokenTakesIpPath(arg, b);
  }

  /** Every source's MAC address decodes back to its source. */
  lemma MacRoundTrip(src: nat, f: SignalType, b: Build)
    requires src < 32768 && f != NoSignal
    ensures Decode(MacText(src, f), b) == Reported(Source(src, f))
  {
    var text := MacText(src, f);
    var g := HexGroups(MacBytes(src, f));
    assert ParseStreamId(text, b).None? && ParseSourceNumber(text).None? && |text| != 12 by {
      MacTextShape(src, f);
      NotHex(text, 2, b);
    }
    assert ParseMac(text) == Some(Source(src, f)) by {
      MacTextShape(src, f);
      MacGlued(src, f);
    }
  }

  /** The colon form of a MAC address: 17 characters, ':' third, and the
      six hex groups back when split on ':'. */
  lemma MacTextShape(src: nat, f: SignalType)
    requires src < 32768 && f != NoSignal
    ensures var text, g := MacText(src, f), HexGroups(MacBytes(src, f));
      |text| == 17 && text[2] == ':' && Split(text, ":") == g && |g| == 6
  {
    var bytes := MacBytes(src, f);
    var g := HexGroups(bytes);
    var text := MacText(src, f);
    HexGroupsHaveNo(bytes, ':');
    assert ":" == [':'];
    SplitJoin(g, ':');
    forall i | 0 <= i < 6
      ensures |g[i]| == 2
    {
      HexLowerLength(bytes[i], 2);
    }
    JoinSix(g, ":");
  }

  lemma JoinSix(g: seq<string>, sep: string)
    requires |g| == 6 && |sep| == 1 && forall i :: 0 <= i < 6 ==> |g[i]| == 2
    ensures |Join(g, sep)| == 17 && Join(g, sep)[2] == sep[0]
  {
    assert Join(g, sep) == g[0] + sep + Join(g[1..], sep);
    JoinLength(g[1..], sep);
  }

  lemma {:induction false} JoinLength(g: seq<string>, sep: string)
    requires |sep| == 1 && forall i :: 0 <= i < |g| ==> |g[i]| == 2
    ensures |Join(g, sep)| == if g == [] then 0 else 3 * |g| - 1
    decreases |g|
  {
    if |g| > 1 {
      JoinLength(g[1..], sep);
    }
  }

  /** The glued hex groups of a source's MAC address read back as that
      source. */
  lemma MacGlued(src: nat, f: SignalType)
    requires src < 32768 && f != NoSignal
    ensures PrintMac(Join(HexGroups(MacBytes(src, f)), "")) == Some(Source(src, f))
  {
    var bytes := MacBytes(src, f);
    var v := BigEndian(bytes);
    assert |Join(HexGroups(bytes), "")| == 12 && DigitsValue(Join(HexGroups(bytes), ""), 16) == Some(v) by {
      HexGroupsValue(bytes);
    }
    MacValue(src, f);
  }

  /** The 48-bit value of a source's MAC address names that source. */
  lemma MacValue(src: nat, f: SignalType)
    requires src < 32768 && f != NoSignal
    ensures BigEndian(MacBytes(src, f)) < 0x1_0000_0000_0000
    ensures MacReport(BigEndian(MacBytes(src, f))) == Some(Source(src, f))
  {
    var bytes := MacBytes(src, f);
    var hi := src / 256;
    var lo := src % 256;
    var x := if f == Surround then 128 + hi else hi;
    var fam := match f case Surround => 4 case Backfeed => 1 case _ => 0;
    var v := BigEndian(bytes);
    assert v == (0x0100_5e00 + fam) * 0x1_0000 + x * 0x100 + lo by {
      BigEndianSix(bytes);
    }
    Fields(v, 0x0100_5e00 + fam, x, lo);
    assert hi * 0x100 + lo == src;
    assert v / 0x1_0000 % 0x1_0000_0000 == 0x0100_5e00 + fam;
    if f == Surround {
      assert x * 0x100 + lo == src + 0x8000;
      assert (src + 0x8000) % 0x8000 == src;
    }
  }

  lemma StreamIdFields(src: nat, f: SignalType)
    requires src < 32768 && f != NoSignal
    ensures |StreamIdText(src, f)| == 8
    ensures ToUInt(StreamIdText(src, f), 16) == Some(StreamIdOf(src, f))
    ensures var v, o := StreamIdOf(src, f), IpOctets(src, f);
      v / 0x1_0000 % 0x1_0000 == 0xef00 + o[1] && v / 0x100 % 0x100 == o[2] &&
      v % 0x1_0000 == o[2] * 0x100 + o[3] && v % 0x8000 == (o[2] * 0x100 + o[3]) % 0x8000
  {
    StreamIdDigits(src, f);
    StreamIdValue(src, f);
  }

  /** The stream ID is eight hex digits that parse back to its value. */
  lemma StreamIdDigits(src: nat, f: SignalType)
    requires src < 32768
    ensures |StreamIdText(src, f)| == 8
    ensures ToUInt(StreamIdText(src, f), 16) == Some(StreamIdOf(src, f))
  {
    var v := StreamIdOf(src, f);
    var o := IpOctets(src, f);
    OctetBounds(src, f);
    assert v == (0xef00 + o[1]) * 0x1_0000 + o[2] * 0x100 + o[3];
    assert Pow16(8) == 0x1_0000_0000 && v < 0x1_0000_0000;
    HexLowerLength(v, 8);
    HexLowerRoundTrip(v, 8);
  }

  /** The fields of the stream ID's value. */
  lemma StreamIdValue(src: nat, f: SignalType)
    requires src < 32768
    ensures var v, o := StreamIdOf(src, f), IpOctets(src, f);
      v / 0x1_0000 % 0x1_0000 == 0xef00 + o[1] && v / 0x100 % 0x100 == o[2] &&
      v % 0x1_0000 == o[2] * 0x100 + o[3] && v % 0x8000 == (o[2] * 0x100 + o[3]) % 0x8000
  {
    var v := StreamIdOf(src, f);
    var o := IpOctets(src, f);
    OctetBounds(src, f);
    var q := 0xef00 + o[1];
    assert v == q * 0x1_0000 + o[2] * 0x100 + o[3];
    Fields(v, q, o[2], o[3]);
    assert q % 0x1_0000 == q;
  }

  /** The octets of a source's address: 239 first, every one below 256. */
  lemma OctetBounds(src: nat, f: SignalType)
    requires src < 32768
    ensures var o := IpOctets(src, f); |o| == 4 && o[0] == 239 && o[1] < 256 && o[2] < 256 && o[3] < 256
  {
    assert src / 256 < 128;
  }

  /** Stereo stream IDs decode back to their source in both builds. */
  lemma StereoStreamIdRoundTrip(src: nat, b: Build)
    requires src < 32768
    ensures Decode(StreamIdText(src, Stereo), b) == Reported(Source(src, Stereo))
  {
    assert ParseStreamId(StreamIdText(src, Stereo), b) == Some(Source(src, Stereo)) by {
      StreamIdPath(src, Stereo, b);
      StreamIdValue(src, Stereo);
    }
    DecodeFirstPath(StreamIdText(src, Stereo), b);
  }

  /** The stream-ID path reads the stream ID's value back. */
  lemma StreamIdPath(src: nat, f: SignalType, b: Build)
    requires src < 32768
    ensures ParseStreamId(StreamIdText(src, f), b) == StreamIdReport(StreamIdOf(src, f), b)
  {
    StreamIdDigits(src, f);
  }

  /** An argument the stream-ID path accepts is decided there. */
  lemma DecodeFirstPath(arg: string, b: Build)
    requires ParseStreamId(arg, b).Some?
    ensures Decode(arg, b) == Reported(ParseStreamId(arg, b).value)
  {
  }

  /** As written, a backfeed source's stream ID decodes as a surround
      source, and a surround source's as a backfeed source 32768 higher. */
  lemma StreamIdFamiliesSwapped(src: nat)
    requires src < 32768
    ensures Parse(StreamIdText(src, Backfeed)) == Reported(Source(src, Surround))
    ensures Parse(StreamIdText(src, Surround)) == Reported(Source(src + 32768, Backfeed))
  {
    BackfeedIdAsWritten(src);
    SurroundIdAsWritten(src);
  }

  lemma BackfeedIdAsWritten(src: nat)
    requires src < 32768
    ensures Parse(StreamIdText(src, Backfeed)) == Reported(Source(src, Surround))
  {
    StreamIdReportSwapped(src, Backfeed);
    StreamIdPath(src, Backfeed, AsWritten);
    DecodeFirstPath(StreamIdText(src, Backfeed), AsWritten);
  }

  lemma SurroundIdAsWritten(src: nat)
    requires src < 32768
    ensures Parse(StreamIdText(src, Surround)) == Reported(Source(src + 32768, Backfeed))
  {
    StreamIdReportSwapped(src, Surround);
    StreamIdPath(src, Surround, AsWritten);
    DecodeFirstPath(StreamIdText(src, Surround), AsWritten);
  }

  /** As written, the value of a backfeed stream ID reads as a surround
      source and that of a surround stream ID as a backfeed one. */
  lemma StreamIdReportSwapped(src: nat, f: SignalType)
    requires src < 32768 && (f == Backfeed || f == Surround)
    ensures StreamIdReport(StreamIdOf(src, f), AsWritten) ==
      if f == Backfeed then Some(Source(src, Surround)) else Some(Source(src + 32768, Backfeed))
  {
    var o := IpOctets(src, f);
    StreamIdValue(src, f);
    OctetBounds(src, f);
    if f == Backfeed {
      assert src == (o[2] * 0x100 + o[3]) % 0x8000;
    } else {
      assert src + 32768 == o[2] * 0x100 + o[3];
    }
  }

  /** Corrected, every family's stream ID decodes back to its source. */
  lemma StreamIdRoundTripCorrected(src: nat, f: SignalType)
    requires src < 32768 && f != NoSignal
    ensures Decode(StreamIdText(src, f), Corrected) == Reported(Source(src, f))
  {
    StreamIdReportCorrected(src, f);
    StreamIdPath(src, f, Corrected);
    DecodeFirstPath(StreamIdText(src, f), Corrected);
  }

  lemma StreamIdReportCorrected(src: nat, f: SignalType)
    requires src < 32768 && f != NoSignal
    ensures StreamIdReport(StreamIdOf(src, f), Corrected) == Some(Source(src, f))
  {
    var o := IpOctets(src, f);
    StreamIdValue(src, f);
    OctetBounds(src, f);
    assert src == o[2] % 0x80 * 0x100 + o[3];
  }

  /** A dotted quad of octets is decided by the multicast ranges alone. */
  lemma DottedQuadDecodes(a: nat, c: nat, x: nat, y: nat, b: Build)
    requires a <= 255 && c <= 255 && x <= 255 && y <= 255
    ensures Decode(DottedQuad(a, c, x, y), b) ==
      match IpReport([a, c, x, y], b)
      case Some(r) => Reported(r)
      case None => InvalidArgument
  {
    var text := DottedQuad(a, c, x, y);
    var parts := [Decimal(a), Decimal(c), Decimal(x), Decimal(y)];
    DottedQuadSplits(a, c, x, y);
    DottedTokenTakesIpPath(text, b);
    var o := [a, c, x, y];
    forall k | 0 <= k < 4
      ensures OctetOf(parts[k]) == Some(o[k])
    {
      DecimalRoundTrip(o[k]);
    }
    assert seq(4, i requires 0 <= i < 4 => OctetOf(parts[i]).value) == o;
    assert OctetsOf(parts) == Some(o);
  }

  /** Every source address in every family decodes back to its source, in
      both builds. */
  lemma IpRoundTrip(src: nat, f: SignalType, b: Build)
    requires src < 32768 && f != NoSignal
    ensures Decode(IpText(src, f), b) == Reported(Source(src, f))
  {
    var o := IpOctets(src, f);
    IpOctetsReport(src, f, b);
    DottedQuadDecodes(o[0], o[1], o[2], o[3], b);
    assert [o[0], o[1], o[2], o[3]] == o;
  }

  /** A source's octets lie in its family's range and name it again. */
  lemma IpOctetsReport(src: nat, f: SignalType, b: Build)
    requires src < 32768 && f != NoSignal
    ensures var o := IpOctets(src, f);
      |o| == 4 && o[0] <= 255 && o[1] <= 255 && o[2] <= 255 && o[3] <= 255 &&
      IpReport(o, b) == Some(Source(src, f))
  {
    var hi, lo := src / 256, src % 256;
    assert hi < 128 && 256 * hi + lo == src;
  }

  /** The four special channel addresses decode to their channels. */
  lemma SpecialChannelRoundTrip(ch: SpecialChannel, b: Build)
    ensures Decode(DottedQuad(239, 192, 255, ChannelOctet(ch)), b) == Reported(Special(ch))
  {
    DottedQuadDecodes(239, 192, 255, ChannelOctet(ch), b);
  }

  /** As written, every 239.192.x.y with x from 128 to 255 is taken for a
      special channel address: channel y when y is 1 to 4, and otherwise
      rejected. */
  lemma SpecialChannelsAsWritten(x: nat, y: nat)
    requires 128 <= x <= 255 && y <= 255
    ensures Parse(DottedQuad(239, 192, x, y)) ==
      if 1 <= y <= 4 then Reported(Special(ChannelOf(y).value)) else InvalidArgument
  {
    DottedQuadDecodes(239, 192, x, y, AsWritten);
  }

  /** Corrected, 239.192.x.y names a special channel exactly when x is 255
      and y is 1 to 4. */
  lemma SpecialChannelsCorrected(x: nat, y: nat)
    requires x <= 255 && y <= 255
    ensures Decode(DottedQuad(239, 192, x, y), Corrected).Reported? &&
      Decode(DottedQuad(239, 192, x, y), Corrected).report.Special?
      <==> x == 255 && 1 <= y <= 4
  {
    DottedQuadDecodes(239, 192, x, y, Corrected);
  }

  function Pow10(k: nat): nat
  {
    if k == 0 then 1 else 10 * Pow10(k - 1)
  }

  lemma {:induction false} DecimalLength(n: nat, k: nat)
    requires k >= 1 && n < Pow10(k)
    ensures |Decimal(n)| <= k
    decreases k
  {
    if n >= 10 {
      DecimalLength(n / 10, k - 1);
    }
  }

  /** Three-digit numbers, digit by digit. */
  lemma DecimalThree(n: nat)
    requires 100 <= n < 1000
    ensures Decimal(n) == [DecimalDigit(n / 100), DecimalDigit(n / 10 % 10), DecimalDigit(n % 10)]
  {
    assert Decimal(n / 100) == [DecimalDigit(n / 100)];
    assert n / 10 / 10 == n / 100;
  }

  /** A decimal number is a source number exactly when it lies between 1
      and 32767; 0 and every larger number are rejected. */
  lemma SourceNumberPath(n: nat, b: Build)
    ensures Decode(Decimal(n), b) ==
      if 0 < n < 32768 then Reported(Source(n, NoSignal)) else InvalidArgument
  {
    var s := Decimal(n);
    DecimalRoundTrip(n);
    if |s| == 8 {
      DecimalStreamIdRejected(s, b);
    }
    if |s| == 12 {
      DecimalMacRejected(s);
    }
    DecimalHasNo(n, ':');
    DecimalHasNo(n, '-');
    DecimalHasNo(n, '.');
    SplitFromPlain(Decimal(n), ':', "");
    SplitFromPlain(Decimal(n), '-', "");
    SplitFromPlain(Decimal(n), '.', "");
  }

  /** Read in base 16, a string of decimal digits has a value whose last hex
      digit is at most 9 and whose leading hex digit is at most 9 too. */
  lemma {:induction false} DecimalDigitsAsHex(s: string)
    requires s != [] && forall i :: 0 <= i < |s| ==> '0' <= s[i] <= '9'
    ensures DigitsValue(s, 16).Some?
    ensures DigitsValue(s, 16).value % 16 <= 9
    ensures DigitsValue(s, 16).value < 10 * Pow16(|s| - 1)
    decreases |s|
  {
    var p := s[..|s| - 1];
    if p != [] {
      assert forall i :: 0 <= i < |p| ==> p[i] == s[i];
      DecimalDigitsAsHex(p);
      assert Pow16(|s| - 1) == 16 * Pow16(|p| - 1);
    }
  }

  /** Eight decimal digits are never a Livewire stream ID: read in base 16
      they lie below 0xa0000000, under every 0xefc0 prefix. */
  lemma DecimalStreamIdRejected(s: string, b: Build)
    requires |s| == 8 && forall i :: 0 <= i < |s| ==> '0' <= s[i] <= '9'
    ensures ParseStreamId(s, b).None?
  {
    DecimalDigitsAsHex(s);
    var v := DigitsValue(s, 16).value;
    assert Pow16(7) == 0x1000_0000;
    BelowStreamIdPrefixes(v, b);
  }

  /** A value below 0xa0000000 carries none of the 0xefc0, 0xefc1 and
      0xefc4 stream-ID prefixes. */
  lemma BelowStreamIdPrefixes(v: nat, b: Build)
    requires v < 0xa000_0000
    ensures StreamIdReport(v, b).None?
  {
    DivMod65536(v, v / 0x1_0000, v % 0x1_0000);
    assert v / 0x1_0000 < 0xa000;
  }

  /** Twelve decimal digits are never a Livewire MAC address: the sixth hex
      digit would have to be the 'e' of 01:00:5e. */
  lemma DecimalMacRejected(s: string)
    requires |s| == 12 && forall i :: 0 <= i < |s| ==> '0' <= s[i] <= '9'
    ensures PrintMac(s).None?
  {
    var hi, lo := s[..6], s[6..];
    assert forall i :: 0 <= i < |hi| ==> hi[i] == s[i];
    assert forall i :: 0 <= i < |lo| ==> lo[i] == s[i + 6];
    DecimalDigitsAsHex(hi);
    DecimalDigitsAsHex(lo);
    var x, y := DigitsValue(hi, 16).value, DigitsValue(lo, 16).value;
    assert Pow16(5) == 0x10_0000 && Pow16(6) == 0x100_0000;
    HexDigitsAppend(hi, lo, x, y);
    assert hi + lo == s;
    NoMacPrefix(x, y);
  }

  /** The arithmetic of DecimalMacRejected: a value whose top six hex
      digits end in a decimal digit carries none of the three prefixes. */
  lemma NoMacPrefix(x: nat, y: nat)
    requires x % 16 <= 9 && x < 0xa0_0000 && y < 0x100_0000
    ensures MacReport(x * 0x100_0000 + y).None?
  {
    var v := x * 0x100_0000 + y;
    var prefix := x * 0x100 + y / 0x1_0000;
    DivMod65536(v, prefix, y % 0x1_0000);
    assert prefix % 0x1_0000_0000 == prefix;
    DivMod256(prefix, x, y / 0x1_0000);
    assert x != 0x0100_5e;
  }

  /** The printed prefix is the first two octets of the family's address. */
  lemma PrefixLiterals(src: nat, f: SignalType)
    ensures var o := IpOctets(src, f); Prefix(f) == Decimal(o[0]) + "." + Decimal(o[1]) + "."
  {
    ThreeDigits(239, '2', '3', '9');
    match f
    case Surround =>
      ThreeDigits(196, '1', '9', '6');
      assert "239.196." == "239" + "." + "196" + ".";
    case Backfeed =>
      ThreeDigits(193, '1', '9', '3');
      assert "239.193." == "239" + "." + "193" + ".";
    case _ =>
      ThreeDigits(192, '1', '9', '2');
      assert "239.192." == "239" + "." + "192" + ".";
  }

  lemma ThreeDigits(n: nat, a: char, b: char, c: char)
    requires 100 <= n < 1000
    requires a == DecimalDigit(n / 100) && b == DecimalDigit(n / 10 % 10) && c == DecimalDigit(n % 10)
    ensures Decimal(n) == [a, b, c]
  {
    DecimalThree(n);
  }

  lemma PrefixedPair(prefix: string, a: nat, c: nat, x: nat, y: nat)
    requires prefix == Decimal(a) + "." + Decimal(c) + "."
    ensures prefix + FullPair(x, y) == DottedQuad(a, c, x, y)
  {
    JoinFour(Decimal(a), Decimal(c), Decimal(x), Decimal(y), ".");
  }

  /** The pair survives snprintf when one of its numbers has at most two
      digits and the other at most three. */
  lemma PairFits(x: nat, y: nat)
    requires x < 1000 && y < 1000 && (x < 100 || y < 100)
    ensures PrintedPair(x, y) == FullPair(x, y)
  {
    DecimalLength(x, 3);
    DecimalLength(y, 3);
    if x < 100 {
      DecimalLength(x, 2);
    } else {
      DecimalLength(y, 2);
    }
  }

  /** The IPv4 address on a family's line, when the pair fits. */
  lemma ListedIp(src: nat, f: SignalType, b: Build)
    requires src < 32768
    requires b == Corrected || src % 256 < 100 || (f != Surround && src / 256 < 100)
    ensures ListedIpText(src, f, b) == IpText(src, f)
  {
    var o := IpOctets(src, f);
    assert Pair(o[2], o[3], b) == FullPair(o[2], o[3]) by {
      if b == AsWritten {
        PairFits(o[2], o[3]);
      }
    }
    PrefixLiterals(src, f);
    PrefixedPair(Prefix(f), o[0], o[1], o[2], o[3]);
  }

  /** The addresses a listing shows decode back to the listed source. The
      MAC addresses always do; the IPv4 addresses do whenever the printed
      pair was not cut short, and always in the corrected build. */
  lemma ListedAddressesDecode(src: nat, t: SignalType, b: Build, i: nat)
    requires src < 32768 && i < 3
    ensures var l := AddressLines(src, t, b)[i];
      Decode(l.mac, b) == Reported(Source(src, l.family)) &&
      (b == Corrected || src % 256 < 100 || (i != 1 && src / 256 < 100) ==>
         l.ip == IpText(src, l.family) && Decode(l.ip, b) == Reported(Source(src, l.family)))
  {
    var l := AddressLines(src, t, b)[i];
    MacRoundTrip(src, l.family, b);
    if b == Corrected || src % 256 < 100 || (i != 1 && src / 256 < 100) {
      ListedIp(src, l.family, b);
      IpRoundTrip(src, l.family, b);
    }
  }

  lemma DecimalTwo(n: nat)
    requires 10 <= n < 100
    ensures Decimal(n) == [DecimalDigit(n / 10), DecimalDigit(n % 10)]
  {
  }

  /** The third octet of a family's address for the high byte hi. */
  function ThirdOctet(hi: nat, f: SignalType): nat
  {
    if f == Surround then 128 + hi else hi
  }

  /** As written, a family's listed address loses its last digit whenever
      both numbers of its pair have three digits: the low byte lo of the
      source hi * 256 + lo is 100 or more, and so is the third octet (always
      for surround, whose third octet is 128 + hi, and for stereo and
      backfeed once hi is 100 or more). The address shown is then that of
      another source, whose low byte is a tenth of this one's: source 100 is
      listed at 239.196.128.10, the surround address of source 10, and
      source 25700 at 239.192.100.10, the stereo address of source 25610. */
  lemma AddressCutShort(hi: nat, lo: nat, f: SignalType)
    requires hi < 128 && 100 <= lo < 256 && f != NoSignal && 100 <= ThirdOctet(hi, f)
    ensures var src, other := hi * 256 + lo, hi * 256 + lo / 10;
      other != src &&
      ListedIpText(src, f, AsWritten) == IpText(other, f) &&
      Parse(ListedIpText(src, f, AsWritten)) == Reported(Source(other, f))
  {
    var src, other := hi * 256 + lo, hi * 256 + lo / 10;
    LineCut(hi, lo, f);
    IpRoundTrip(other, f, AsWritten);
  }

  /** The address of source hi * 256 + lo, as written, is printed as the
      address of source hi * 256 + lo / 10 of the same family. */
  lemma LineCut(hi: nat, lo: nat, f: SignalType)
    requires hi < 128 && 100 <= lo < 256 && 100 <= ThirdOctet(hi, f)
    ensures ListedIpText(hi * 256 + lo, f, AsWritten) == IpText(hi * 256 + lo / 10, f)
  {
    ListedCut(hi, lo, f);
    FamilyText(hi, lo / 10, f);
  }

  /** As written, the line of source hi * 256 + lo shows the prefix and the
      pair cut to six characters. */
  lemma ListedCut(hi: nat, lo: nat, f: SignalType)
    requires hi < 128 && 100 <= lo < 256 && 100 <= ThirdOctet(hi, f)
    ensures ListedIpText(hi * 256 + lo, f, AsWritten) == Prefix(f) + FullPair(ThirdOctet(hi, f), lo / 10)
  {
    var src := hi * 256 + lo;
    assert ListedIpText(src, f, AsWritten) == Prefix(f) + PrintedPair(ThirdOctet(hi, f), lo) by {
      DivMod256(src, hi, lo);
    }
    CutPair(ThirdOctet(hi, f), lo);
  }

  /** The address of source hi * 256 + q: the prefix and the full pair. */
  lemma FamilyText(hi: nat, q: nat, f: SignalType)
    requires hi < 128 && q < 256
    ensures IpText(hi * 256 + q, f) == Prefix(f) + FullPair(ThirdOctet(hi, f), q)
  {
    var src := hi * 256 + q;
    var o := IpOctets(src, f);
    assert o[2] == ThirdOctet(hi, f) && o[3] == q by {
      DivMod256(src, hi, q);
    }
    PrefixLiterals(src, f);
    PrefixedPair(Prefix(f), o[0], o[1], o[2], o[3]);
  }

  /** snprintf keeps six characters of "xxx.yyy": the last digit goes. */
  lemma CutPair(x: nat, y: nat)
    requires 100 <= x < 1000 && 100 <= y < 256
    ensures PrintedPair(x, y) == FullPair(x, y / 10)
  {
    DecimalThree(x);
    DecimalThree(y);
    DecimalTwo(y / 10);
    assert Decimal(y)[..2] == Decimal(y / 10);
    var full := Decimal(x) + "." + Decimal(y);
    assert full[..6] == Decimal(x) + "." + Decimal(y / 10);
  }

  /** As written, a rejected argument ends with exit(256), which a parent
      process sees as status 0, the status of a successful lookup. */
  lemma RejectionLooksLikeSuccess(arg: string)
    requires Parse(arg) == InvalidArgument
    ensures Run(arg, AsWritten).stderr == ["lwaddr: invalid argument"]
    ensures ShellStatus(Run(arg, AsWritten).code) == 0
  {
  }

  /** Corrected, the parent sees a failure status exactly when the argument
      is rejected. */
  lemma RejectionStatusCorrected(arg: string)
    ensures ShellStatus(Run(arg, Corrected).code) != 0 <==> Decode(arg, Corrected) == InvalidArgument
  {
    match Decode(arg, Corrected)
    case InvalidArgument =>
      assert Run(arg, Corrected).code == 1;
    case Reported(r) =>
      assert Run(arg, Corrected).code == 0;
  }
}
