/**
 * QHostAddress as the multicast tools use it for IPv4: text in dotted-quad
 * form becomes a 32-bit address, and the address prints back as a dotted
 * quad. Only the strict four-field decimal form is modelled.
 */
module HostAddress {
  import opened QtText

  /** One dotted-quad field: decimal, at most 255. */
  function FieldValue(f: string): (r: Option<nat>)
    ensures r.Some? ==> r.value < 256
  {
    match ParseNat(f, 10)
    case Some(v) => if v < 256 then Some(v) else None
    case None => None
  }

  /** The address four octets spell, most significant first. */
  function Pack(a: nat, b: nat, c: nat, d: nat): nat
  {
    ((a * 256 + b) * 256 + c) * 256 + d
  }

  /** QHostAddress(text): the 32-bit address, or none for a null address. */
  function Parse(text: string): (r: Option<nat>)
    ensures r.Some? ==> r.value < 0x1_0000_0000
  {
    var f := Split(text, ".");
    if |f| != 4 then None
    else match (FieldValue(f[0]), FieldValue(f[1]), FieldValue(f[2]), FieldValue(f[3]))
      case (Some(a), Some(b), Some(c), Some(d)) => Some(Pack(a, b, c, d))
      case _ => None
  }

  /** The octets of an address, most significant first. */
  function Octets(v: nat): (r: seq<nat>)
    ensures |r| == 4 && forall i :: 0 <= i < 4 ==> r[i] < 256
  {
    [v / 256 / 256 / 256 % 256, v / 256 / 256 % 256, v / 256 % 256, v % 256]
  }

  /** QHostAddress::toString() for an IPv4 address. */
  function Text(v: nat): string
  {
    var o := Octets(v);
    DottedQuad(o[0], o[1], o[2], o[3])
  }

  /** toIPv4Address() >> 24: the first octet of what Parse accepted. */
  lemma FirstOctet(a: nat, b: nat, c: nat, d: nat)
    requires a < 256 && b < 256 && c < 256 && d < 256
    ensures Pack(a, b, c, d) / 0x100_0000 == a
  {
    var low := (b * 256 + c) * 256 + d;
    assert low < 0x100_0000;
    assert Pack(a, b, c, d) == a * 0x100_0000 + low;
  }

  /** The octets of an address below 2^32 pack back to it. */
  lemma OctetsPack(v: nat)
    requires v < 0x1_0000_0000
    ensures var o := Octets(v); Pack(o[0], o[1], o[2], o[3]) == v
  {
    var q1 := v / 256;
    var q2 := q1 / 256;
    var q3 := q2 / 256;
    assert q3 < 256 && q3 % 256 == q3;
    assert Octets(v) == [q3, q2 % 256, q1 % 256, v % 256];
    assert q3 * 256 + q2 % 256 == q2;
    assert q2 * 256 + q1 % 256 == q1;
    assert q1 * 256 + v % 256 == v;
  }

  /** Splitting off the low octet. */
  lemma LowOctet(q: nat, r: nat)
    requires r < 256
    ensures (q * 256 + r) / 256 == q && (q * 256 + r) % 256 == r
  {
  }

  /** Printing then parsing gives the address back. */
  lemma TextRoundTrip(v: nat)
    requires v < 0x1_0000_0000
    ensures Parse(Text(v)) == Some(v)
    ensures ' ' !in Text(v)
  {
    var o := Octets(v);
    DottedQuadSplits(o[0], o[1], o[2], o[3]);
    DecimalRoundTrip(o[0]);
    DecimalRoundTrip(o[1]);
    DecimalRoundTrip(o[2]);
    DecimalRoundTrip(o[3]);
    OctetsPack(v);
  }

  /** Parsing then printing gives back the canonical text of the fields'
      values: the text itself when no field has a leading zero. */
  lemma ParseThenText(a: nat, b: nat, c: nat, d: nat)
    requires a < 256 && b < 256 && c < 256 && d < 256
    ensures Parse(DottedQuad(a, b, c, d)) == Some(Pack(a, b, c, d))
    ensures Text(Pack(a, b, c, d)) == DottedQuad(a, b, c, d)
  {
    assert Parse(DottedQuad(a, b, c, d)) == Some(Pack(a, b, c, d)) by {
      DottedQuadSplits(a, b, c, d);
      DecimalRoundTrip(a);
      DecimalRoundTrip(b);
      DecimalRoundTrip(c);
      DecimalRoundTrip(d);
    }
    assert Octets(Pack(a, b, c, d)) == [a, b, c, d] by {
      PackOctets(a, b, c, d);
    }
  }

  /** The octets of a packed address are the ones packed. */
  lemma PackOctets(a: nat, b: nat, c: nat, d: nat)
    requires a < 256 && b < 256 && c < 256 && d < 256
    ensures Octets(Pack(a, b, c, d)) == [a, b, c, d]
  {
    var q2 := a * 256 + b;
    var q1 := q2 * 256 + c;
    var v := q1 * 256 + d;
    LowOctet(q1, d);
    LowOctet(q2, c);
    LowOctet(a, b);
    assert v / 256 / 256 / 256 == a;
  }
}
