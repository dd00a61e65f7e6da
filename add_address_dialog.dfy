/**
 * The dialog that picks a multicast group and a local interface. Its OK
 * button checks the typed address (a valid IPv4 address whose first octet
 * is 224..239) and reads the interface back from the chosen "name -
 * address" label; the label list comes from walking the kernel's interface
 * indices from 1 until one is missing. Each index's answer to the name,
 * hardware-address and IPv4-address requests is a parameter.
 */
module AddAddress {
  import opened QtText
  import opened Variant
  import HostAddress
  import SubscriptionTable

  /** What pressing OK leads to. */
  datatype Outcome =
    | InvalidAddress
    | NotMulticast
    | NoSeparator
    | Undefined
    | Accepted(mcast: nat, ifaceName: string, ifaceAddress: Option<nat>)

  /** The message box text for a refused address. */
  function ErrorText(o: Outcome): (r: Option<string>)
    ensures r.Some? <==> o == InvalidAddress || o == NotMulticast
  {
    match o
    case InvalidAddress => Some("That IP address is invalid.")
    case NotMulticast => Some("That is not a valid multicast IP address.")
    case _ => None
  }

  /** okData: the typed address text and the chosen interface label. The
      label is split at " - " and its second part read; as written a label
      without the separator (an empty interface box) reads past the end of
      the list, which is undefined, and corrected it keeps the dialog open. */
  function OkData(address: string, choice: string, b: Build): (r: Outcome)
    ensures r.Accepted? ==>
      (HostAddress.Parse(address) == Some(r.mcast) && 224 <= r.mcast / 0x100_0000 <= 239)
  {
    match HostAddress.Parse(address)
    case None => InvalidAddress
    case Some(v) =>
      var octet := v / 0x100_0000;
      if octet < 224 || octet > 239 then NotMulticast
      else
        var f0 := Split(choice, " - ");
        if |f0| < 2 then (if b == AsWritten then Undefined else NoSeparator)
        else Accepted(v, f0[0], HostAddress.Parse(f0[1]))
  }

  /** The label an interface gets in the list. */
  function Label(name: string, addr: Option<nat>): string
  {
    name + " - " + SubscriptionTable.AddressText(addr)
  }

  /** A dotted quad is refused as not multicast exactly when its first
      octet lies outside 224..239, and never as invalid. */
  lemma MulticastRange(a: nat, b: nat, c: nat, d: nat, choice: string, build: Build)
    requires a < 256 && b < 256 && c < 256 && d < 256
    ensures OkData(DottedQuad(a, b, c, d), choice, build) != InvalidAddress
    ensures OkData(DottedQuad(a, b, c, d), choice, build) == NotMulticast <==> a < 224 || a > 239
  {
    HostAddress.ParseThenText(a, b, c, d);
    HostAddress.FirstOctet(a, b, c, d);
  }

  /** An interface label reads back as the name and address it was built
      from, when the name holds no blank. */
  lemma LabelReadsBack(address: string, name: string, addr: Option<nat>, b: Build)
    requires ' ' !in name
    requires addr.Some? ==> addr.value < 0x1_0000_0000
    requires OkData(address, Label(name, addr), b) !in {InvalidAddress, NotMulticast}
    ensures OkData(address, Label(name, addr), b) ==
      Accepted(HostAddress.Parse(address).value, name, addr)
  {
    var t := SubscriptionTable.Table([0], [addr], [name]);
    SubscriptionTable.FirstColumnReadsBack(t, 0);
  }

  /** As written, OK with a multicast address and an empty interface box
      reads the second part of a one-part list: undefined. */
  lemma EmptyBoxUndefined(a: nat, b: nat, c: nat, d: nat)
    requires 224 <= a <= 239 && b < 256 && c < 256 && d < 256
    ensures OkData(DottedQuad(a, b, c, d), "", AsWritten) == Undefined
  {
    MulticastRange(a, b, c, d, "", AsWritten);
  }

  /** Corrected, the same press keeps the dialog open. */
  lemma EmptyBoxRefused(a: nat, b: nat, c: nat, d: nat)
    requires 224 <= a <= 239 && b < 256 && c < 256 && d < 256
    ensures OkData(DottedQuad(a, b, c, d), "", Corrected) == NoSeparator
  {
    MulticastRange(a, b, c, d, "", Corrected);
  }

  /** Corrected, pressing OK is never undefined: it accepts the address and
      the label, or refuses with a reason, whatever is typed or chosen. */
  lemma CorrectedNeverUndefined(address: string, choice: string)
    ensures OkData(address, choice, Corrected) != Undefined
  {
  }

  // -----------------------------------------------------------------------
  // GetInterfaceInfo
  // -----------------------------------------------------------------------

  /** The first six bytes of a hardware address. */
  type HwAddr = s: seq<byte> | |s| == 6 witness [0, 0, 0, 0, 0, 0]

  /** What the kernel answers for one interface index that exists: its name,
      its hardware address if that request succeeds, its IPv4 address (as a
      32-bit value) if that request succeeds. */
  datatype Probe = Probe(name: string, hwaddr: Option<HwAddr>, ipaddr: Option<nat>)

  /** The three lists filled in, and the count returned. */
  datatype Interfaces = Interfaces(macs: seq<nat>, addrs: seq<Option<nat>>, names: seq<string>, count: nat)

  /** The shift of byte i, 1 << (40 - 8 * i). */
  function ByteWeight(i: nat): nat
    requires i < 6
  {
    [0x100_0000_0000, 0x1_0000_0000, 0x100_0000, 0x1_0000, 0x100, 1][i]
  }

  /** The bytes before i, each OR-ed in at its own shift; the shifted bytes
      do not overlap, so OR is a sum. */
  function PackedUpTo(hw: HwAddr, i: nat): nat
    requires i <= 6
  {
    if i == 0 then 0 else PackedUpTo(hw, i - 1) + hw[i - 1] as nat * ByteWeight(i - 1)
  }

  /** The hardware address read as a 48-bit big-endian number. */
  function MacValue(hw: HwAddr): nat
  {
    ((((hw[0] as nat * 256 + hw[1]) * 256 + hw[2]) * 256 + hw[3]) * 256 + hw[4]) * 256 + hw[5]
  }

  /** The six bytes of a 48-bit number, most significant first. */
  function HardwareBytes(m: nat): (r: seq<nat>)
    ensures |r| == 6
  {
    var q1 := m / 256;
    var q2 := q1 / 256;
    var q3 := q2 / 256;
    var q4 := q3 / 256;
    var q5 := q4 / 256;
    [q5 % 256, q4 % 256, q3 % 256, q2 % 256, q1 % 256, m % 256]
  }

  /** The OR-ed bytes are the big-endian number. */
  lemma PackedIsMacValue(hw: HwAddr)
    ensures PackedUpTo(hw, 6) == MacValue(hw)
  {
    assert PackedUpTo(hw, 1) == hw[0] as nat * 0x100_0000_0000;
    assert PackedUpTo(hw, 2) == PackedUpTo(hw, 1) + hw[1] as nat * 0x1_0000_0000;
    assert PackedUpTo(hw, 3) == PackedUpTo(hw, 2) + hw[2] as nat * 0x100_0000;
    assert PackedUpTo(hw, 4) == PackedUpTo(hw, 3) + hw[3] as nat * 0x1_0000;
    assert PackedUpTo(hw, 5) == PackedUpTo(hw, 4) + hw[4] as nat * 0x100;
    assert PackedUpTo(hw, 6) == PackedUpTo(hw, 5) + hw[5] as nat;
  }

  /** The packing loop. */
  method PackMac(hw: HwAddr) returns (mac: nat)
    ensures mac == MacValue(hw)
  {
    mac := 0;
    for i := 0 to 6
      invariant mac == PackedUpTo(hw, i)
    {
      mac := mac + hw[i] as nat * ByteWeight(i);
    }
    PackedIsMacValue(hw);
  }

  /** The packed value is below 2^48, and the bytes come back out of it in
      order. */
  lemma MacRoundTrip(hw: HwAddr)
    ensures MacValue(hw) < 0x1_0000_0000_0000
    ensures HardwareBytes(MacValue(hw)) == hw
  {
    var h1: nat := hw[0] as nat * 256 + hw[1];
    var h2: nat := h1 * 256 + hw[2];
    var h3: nat := h2 * 256 + hw[3];
    var h4: nat := h3 * 256 + hw[4];
    var m := MacValue(hw);
    assert m == h4 * 256 + hw[5];
    assert m / 256 == h4 && m % 256 == hw[5];
    assert h4 / 256 == h3 && h4 % 256 == hw[4];
    assert h3 / 256 == h2 && h3 % 256 == hw[3];
    assert h2 / 256 == h1 && h2 % 256 == hw[2];
    assert h1 / 256 == hw[0] && h1 % 256 == hw[1];
  }

  /** An address packs to zero exactly when all six bytes are zero. */
  lemma MacZero(hw: HwAddr)
    ensures MacValue(hw) == 0 <==> forall i :: 0 <= i < 6 ==> hw[i] == 0
  {
    MacRoundTrip(hw);
    if MacValue(hw) == 0 {
      assert HardwareBytes(0) == [0, 0, 0, 0, 0, 0];
    }
  }

  /** The lists built from the interfaces found, in index order: interfaces
      whose hardware address cannot be read are skipped, and only non-zero
      hardware addresses are counted. */
  function Collect(found: seq<Probe>): (r: Interfaces)
    decreases |found|
  {
    if found == [] then Interfaces([], [], [], 0)
    else
      var r := Collect(found[..|found| - 1]);
      var p := found[|found| - 1];
      if p.hwaddr.None? then r
      else
        var mac := MacValue(p.hwaddr.value);
        Interfaces(r.macs + [mac], r.addrs + [p.ipaddr], r.names + [p.name],
                   if mac != 0 then r.count + 1 else r.count)
  }

  /** The number of leading indices that exist: the walk stops at the first
      index the kernel does not know. */
  function Walked(indices: seq<Option<Probe>>): (n: nat)
    ensures n <= |indices|
    ensures forall i :: 0 <= i < n ==> indices[i].Some?
    ensures n < |indices| ==> indices[n].None?
    decreases |indices|
  {
    if indices == [] || indices[0].None? then 0 else 1 + Walked(indices[1..])
  }

  /** The interfaces the walk reaches. */
  function Found(indices: seq<Option<Probe>>): (r: seq<Probe>)
    ensures |r| == Walked(indices)
  {
    seq(Walked(indices), i requires 0 <= i < Walked(indices) => indices[i].value)
  }

  /** GetInterfaceInfo over the answers for indices 1, 2, ...; an index
      past the end of `indices` does not exist. Nothing is found when the
      socket cannot be opened. */
  function InterfaceInfo(socketOk: bool, indices: seq<Option<Probe>>): Interfaces
  {
    if socketOk then Collect(Found(indices)) else Interfaces([], [], [], 0)
  }

  /** The index walk of GetInterfaceInfo. */
  method GetInterfaceInfo(socketOk: bool, indices: seq<Option<Probe>>)
    returns (macs: seq<nat>, addrs: seq<Option<nat>>, names: seq<string>, n: nat)
    ensures Interfaces(macs, addrs, names, n) == InterfaceInfo(socketOk, indices)
  {
    macs, addrs, names, n := [], [], [], 0;
    if !socketOk {
      return;
    }
    var found := Found(indices);
    var index := 0;
    while index < |indices| && indices[index].Some?
      invariant 0 <= index <= Walked(indices)
      invariant Interfaces(macs, addrs, names, n) == Collect(found[..index])
    {
      var p := indices[index].value;
      assert found[..index + 1] == found[..index] + [p];
      if p.hwaddr.Some? {
        var mac := PackMac(p.hwaddr.value);
        if mac != 0 {
          n := n + 1;
          macs := macs + [mac];
        } else {
          macs := macs + [0];
        }
        names := names + [p.name];
        addrs := addrs + [p.ipaddr];
      }
      index := index + 1;
    }
    assert found[..index] == found;
  }

  /** The labels of the interface box. */
  function Labels(info: Interfaces): (r: seq<string>)
    requires |info.addrs| == |info.names|
    ensures |r| == |info.names|
  {
    seq(|info.names|, i requires 0 <= i < |info.names| => Label(info.names[i], info.addrs[i]))
  }

  /** The box after each label in turn is inserted with insertItem(-1, …):
      an index of zero or below puts the item at the front, so the box
      lists the labels last one first. */
  function Box(labels: seq<string>): (r: seq<string>)
    ensures |r| == |labels|
    ensures forall j :: 0 <= j < |r| ==> r[j] == labels[|labels| - 1 - j]
    decreases |labels|
  {
    if labels == [] then [] else [labels[|labels| - 1]] + Box(labels[..|labels| - 1])
  }

  /** Reading the box from the bottom up gives the labels in the order
      they were inserted. */
  lemma {:induction false} BoxBackwards(labels: seq<string>)
    ensures Box(Box(labels)) == labels
    decreases |labels|
  {
    if labels != [] {
      var last := labels[|labels| - 1];
      var front := labels[..|labels| - 1];
      assert Box(labels) == [last] + Box(front);
      BoxSnoc(Box(front), last);
      BoxBackwards(front);
      assert front + [last] == labels;
    }
  }

  /** Inserting at the front of a box read backwards appends. */
  lemma BoxSnoc(items: seq<string>, x: string)
    ensures Box([x] + items) == Box(items) + [x]
  {
    var r, t := Box([x] + items), Box(items) + [x];
    assert |r| == |t|;
    forall j | 0 <= j < |r|
      ensures r[j] == t[j]
    {
      if j < |items| {
        assert ([x] + items)[|items| - j] == items[|items| - 1 - j];
      }
    }
  }

  /** PopulateInterfaces: one label per interface, each inserted at the
      front of the box, so the first interface found ends up last. */
  method PopulateInterfaces(socketOk: bool, indices: seq<Option<Probe>>) returns (box: seq<string>)
    ensures var info := InterfaceInfo(socketOk, indices);
      |info.addrs| == |info.names| && box == Box(Labels(info))
  {
    var macs, addrs, names, n := GetInterfaceInfo(socketOk, indices);
    CollectShape(Found(indices));
    ghost var labels := Labels(Interfaces(macs, addrs, names, n));
    box := [];
    for i := 0 to |names|
      invariant box == Box(labels[..i])
    {
      assert labels[..i + 1][..i] == labels[..i];
      box := [Label(names[i], addrs[i])] + box;
    }
    assert labels[..|names|] == labels;
  }

  /** The first interface GetInterfaceInfo reports is shown at the bottom
      of the box, and the last one at the top. */
  lemma FirstFoundAtBottom(info: Interfaces)
    requires |info.addrs| == |info.names| > 0
    ensures var box := Box(Labels(info));
      box[|box| - 1] == Label(info.names[0], info.addrs[0]) &&
      box[0] == Label(info.names[|info.names| - 1], info.addrs[|info.names| - 1])
  {
  }

  /** The number of found interfaces whose hardware address can be read,
      and of those the ones that are not all zero. */
  function WithHardware(found: seq<Probe>): nat
    decreases |found|
  {
    if found == [] then 0
    else WithHardware(found[..|found| - 1]) + (if found[|found| - 1].hwaddr.Some? then 1 else 0)
  }

  function WithNonzeroHardware(found: seq<Probe>): nat
    decreases |found|
  {
    if found == [] then 0
    else
      var h := found[|found| - 1].hwaddr;
      WithNonzeroHardware(found[..|found| - 1]) +
        (if h.Some? && exists i :: 0 <= i < 6 && h.value[i] != 0 then 1 else 0)
  }

  /** The three lists run in parallel, one entry per interface with a
      readable hardware address; the count is the number of those whose
      address is not all zero; every entry is a 48-bit number. */
  lemma {:induction false} CollectShape(found: seq<Probe>)
    ensures var r := Collect(found);
      |r.macs| == |r.addrs| == |r.names| == WithHardware(found) &&
      r.count == WithNonzeroHardware(found) && r.count <= |r.macs| &&
      forall i :: 0 <= i < |r.macs| ==> r.macs[i] < 0x1_0000_0000_0000
    decreases |found|
  {
    if found != [] {
      var p := found[..|found| - 1];
      CollectShape(p);
      var h := found[|found| - 1].hwaddr;
      if h.Some? {
        MacRoundTrip(h.value);
        MacZero(h.value);
      }
    }
  }

  /** An entry of the lists is the interface it came from: its name, its
      IPv4 address and its hardware address packed. */
  lemma {:induction false} CollectEntries(found: seq<Probe>, k: nat)
    requires k < |found| && found[k].hwaddr.Some?
    ensures var r := Collect(found);
      var j := WithHardware(found[..k]);
      j < |r.names| && j < |r.addrs| && j < |r.macs| && r.names[j] == found[k].name && r.addrs[j] == found[k].ipaddr &&
      r.macs[j] == MacValue(found[k].hwaddr.value)
    decreases |found|
  {
    CollectShape(found);
    var p := found[..|found| - 1];
    CollectShape(p);
    if k < |found| - 1 {
      assert p[..k] == found[..k];
      CollectEntries(p, k);
    } else {
      assert p == found[..k];
    }
  }

  /** The walk stops at the first missing index: whatever the kernel
      would answer for later indices, none of it is listed. */
  lemma StopsAtGap(socketOk: bool, before: seq<Option<Probe>>, after: seq<Option<Probe>>)
    ensures InterfaceInfo(socketOk, before + [None] + after) == InterfaceInfo(socketOk, before)
  {
    var xs := before + [None] + after;
    assert xs == before + ([None] + after);
    WalkedPrefix(before, [None] + after);
    var a := Found(xs);
    var b := Found(before);
    assert |a| == |b|;
    forall i | 0 <= i < |a|
      ensures a[i] == b[i]
    {
      assert xs[i] == before[i];
    }
    assert a == b;
  }

  lemma {:induction false} WalkedPrefix(xs: seq<Option<Probe>>, ys: seq<Option<Probe>>)
    requires ys == [] || ys[0].None?
    ensures Walked(xs + ys) == Walked(xs)
    ensures forall i :: 0 <= i < Walked(xs) ==> (xs + ys)[i] == xs[i]
    decreases |xs|
  {
    if xs != [] {
      assert (xs + ys)[1..] == xs[1..] + ys;
      WalkedPrefix(xs[1..], ys);
    } else {
      assert xs + ys == ys;
    }
  }
}
