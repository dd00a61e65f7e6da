/**
 * The table of multicast subscriptions held by the subscription tool: one
 * row per (group address, interface) pair, in three parallel lists. A row is
 * added only after the kernel accepted the membership and removed only
 * after it accepted the drop; a pair already listed is never added twice.
 * The outcome of each membership request is a parameter (`ok`), and so is
 * the system's error text that a refusal reports.
 */
module SubscriptionTable {
  import opened QtText
  import HostAddress

  /** The three lists: group addresses, interface addresses (None for an
      interface without an IPv4 address) and interface names. */
  datatype Table = Table(addresses: seq<nat>, ifaceAddresses: seq<Option<nat>>, ifaceNames: seq<string>)

  /** The lists run in parallel. */
  predicate Parallel(t: Table)
  {
    |t.ifaceAddresses| == |t.addresses| && |t.ifaceNames| == |t.addresses|
  }

  /** The pair (addr, name) has a row. */
  predicate Listed(t: Table, addr: nat, name: string)
    requires Parallel(t)
  {
    exists i :: 0 <= i < |t.addresses| && t.addresses[i] == addr && t.ifaceNames[i] == name
  }

  /** No (group address, interface name) pair has two rows. */
  predicate NoDuplicates(t: Table)
    requires Parallel(t)
  {
    forall i, j :: 0 <= i < j < |t.addresses| ==>
      !(t.addresses[i] == t.addresses[j] && t.ifaceNames[i] == t.ifaceNames[j])
  }

  /** QHostAddress::toString(): empty for a null address. */
  function AddressText(a: Option<nat>): string
  {
    if a.Some? then HostAddress.Text(a.value) else ""
  }

  /** The messages the error signal carries when a request is refused. */
  function SubscribeError(addr: nat, reason: string): string
  {
    "Unable to subscribe to multicast address \"" + HostAddress.Text(addr) + "\" [" + reason + "]"
  }

  function UnsubscribeError(addr: nat, reason: string): string
  {
    "Unable to unsubscribe from multicast address \"" + HostAddress.Text(addr) + "\" [" + reason + "]"
  }

  /** addAddress: the new table and the error emitted, if any. */
  function AddRow(t: Table, addr: nat, ifAddr: Option<nat>, name: string, ok: bool, reason: string): (r: (Table, Option<string>))
    requires Parallel(t)
    ensures Parallel(r.0)
  {
    if Listed(t, addr, name) then (t, None)
    else if ok then (Table(t.addresses + [addr], t.ifaceAddresses + [ifAddr], t.ifaceNames + [name]), None)
    else (t, Some(SubscribeError(addr, reason)))
  }

  /** removeAddress: the new table and the error emitted, if any. */
  function RemoveRow(t: Table, row: nat, ok: bool, reason: string): (r: (Table, Option<string>))
    requires Parallel(t) && row < |t.addresses|
    ensures Parallel(r.0)
  {
    if ok then
      (Table(t.addresses[..row] + t.addresses[row + 1..],
             t.ifaceAddresses[..row] + t.ifaceAddresses[row + 1..],
             t.ifaceNames[..row] + t.ifaceNames[row + 1..]), None)
    else (t, Some(UnsubscribeError(t.addresses[row], reason)))
  }

  datatype Orientation = Horizontal | Vertical
  datatype Role = DisplayRole | OtherRole

  /** data(): column 0 shows "name - interface address", column 1 the
      group address; anything else is an empty variant. */
  function Data(t: Table, row: nat, column: int, role: Role): (r: Option<string>)
    requires Parallel(t) && row < |t.addresses|
    ensures r.Some? <==> role == DisplayRole && (column == 0 || column == 1)
  {
    if role != DisplayRole then None
    else if column == 0 then Some(t.ifaceNames[row] + " - " + AddressText(t.ifaceAddresses[row]))
    else if column == 1 then Some(HostAddress.Text(t.addresses[row]))
    else None
  }

  /** headerData(): the two horizontal column titles. */
  function HeaderData(section: int, orient: Orientation, role: Role): (r: Option<string>)
    ensures r.Some? <==> orient == Horizontal && role == DisplayRole && (section == 0 || section == 1)
  {
    if orient == Horizontal && role == DisplayRole then
      if section == 0 then Some("Interface")
      else if section == 1 then Some("Address")
      else None
    else None
  }

  class SubscriptionModel {
    var addresses: seq<nat>
    var ifaceAddresses: seq<Option<nat>>
    var ifaceNames: seq<string>

    function State(): Table
      reads this
    {
      Table(addresses, ifaceAddresses, ifaceNames)
    }

    predicate Valid()
      reads this
    {
      Parallel(State()) && NoDuplicates(State())
    }

    constructor ()
      ensures State() == Table([], [], []) && Valid()
    {
      addresses, ifaceAddresses, ifaceNames := [], [], [];
    }

    /** rowCount(). */
    function RowCount(): (n: nat)
      reads this
      ensures n == |addresses|
    {
      |addresses|
    }

    /** columnCount(). */
    function ColumnCount(): (n: nat)
      ensures n == 2
    {
      2
    }

    /** The duplicate check: whether some row already holds the pair. */
    method FindPair(addr: nat, name: string) returns (found: bool)
      requires Parallel(State())
      ensures found <==> Listed(State(), addr, name)
    {
      var i := 0;
      while i < |addresses|
        invariant 0 <= i <= |addresses|
        invariant forall j :: 0 <= j < i ==> !(addresses[j] == addr && ifaceNames[j] == name)
      {
        if addresses[i] == addr && ifaceNames[i] == name {
          return true;
        }
        i := i + 1;
      }
      return false;
    }

    /** addAddress(addr, if_addr, if_name), with `ok` the outcome of the
        membership request and `reason` the system's error text. */
    method AddAddress(addr: nat, ifAddr: Option<nat>, name: string, ok: bool, reason: string)
      returns (error: Option<string>)
      requires Valid()
      modifies this
      ensures (State(), error) == AddRow(old(State()), addr, ifAddr, name, ok, reason)
      ensures Valid()
    {
      AddKeepsNoDuplicates(State(), addr, ifAddr, name, ok, reason);
      var found := FindPair(addr, name);
      error := None;
      if found {
        return;
      }
      if ok {
        addresses := addresses + [addr];
        ifaceAddresses := ifaceAddresses + [ifAddr];
        ifaceNames := ifaceNames + [name];
      } else {
        error := Some(SubscribeError(addr, reason));
      }
    }

    /** removeAddress(index), with `ok` the outcome of the drop request. */
    method RemoveAddress(row: nat, ok: bool, reason: string) returns (error: Option<string>)
      requires Valid() && row < |addresses|
      modifies this
      ensures (State(), error) == RemoveRow(old(State()), row, ok, reason)
      ensures Valid()
    {
      RemoveKeepsNoDuplicates(State(), row, ok, reason);
      error := None;
      if ok {
        addresses := addresses[..row] + addresses[row + 1..];
        ifaceAddresses := ifaceAddresses[..row] + ifaceAddresses[row + 1..];
        ifaceNames := ifaceNames[..row] + ifaceNames[row + 1..];
      } else {
        error := Some(UnsubscribeError(addresses[row], reason));
      }
    }
  }

  // -----------------------------------------------------------------------
  // Properties of the table
  // -----------------------------------------------------------------------

  /** Adding never lists a pair twice. */
  lemma AddKeepsNoDuplicates(t: Table, addr: nat, ifAddr: Option<nat>, name: string, ok: bool, reason: string)
    requires Parallel(t) && NoDuplicates(t)
    ensures NoDuplicates(AddRow(t, addr, ifAddr, name, ok, reason).0)
  {
    var u := AddRow(t, addr, ifAddr, name, ok, reason).0;
    if !Listed(t, addr, name) && ok {
      forall i, j | 0 <= i < j < |u.addresses|
        ensures !(u.addresses[i] == u.addresses[j] && u.ifaceNames[i] == u.ifaceNames[j])
      {
        assert u.addresses[i] == t.addresses[i] && u.ifaceNames[i] == t.ifaceNames[i];
        if j == |t.addresses| {
          assert u.addresses[j] == addr && u.ifaceNames[j] == name;
        } else {
          assert u.addresses[j] == t.addresses[j] && u.ifaceNames[j] == t.ifaceNames[j];
        }
      }
    }
  }

  /** Removing never lists a pair twice. */
  lemma RemoveKeepsNoDuplicates(t: Table, row: nat, ok: bool, reason: string)
    requires Parallel(t) && NoDuplicates(t) && row < |t.addresses|
    ensures NoDuplicates(RemoveRow(t, row, ok, reason).0)
  {
    var u := RemoveRow(t, row, ok, reason).0;
    if ok {
      forall i, j | 0 <= i < j < |u.addresses|
        ensures !(u.addresses[i] == u.addresses[j] && u.ifaceNames[i] == u.ifaceNames[j])
      {
        var i' := if i < row then i else i + 1;
        var j' := if j < row then j else j + 1;
        assert u.addresses[i] == t.addresses[i'] && u.ifaceNames[i] == t.ifaceNames[i'];
        assert u.addresses[j] == t.addresses[j'] && u.ifaceNames[j] == t.ifaceNames[j'];
      }
    }
  }

  /** A new pair that the kernel accepts gets a row, and afterwards the pair
      is listed; a listed pair or a refused one leaves the table as it was. */
  lemma AddListsPair(t: Table, addr: nat, ifAddr: Option<nat>, name: string, ok: bool, reason: string)
    requires Parallel(t)
    ensures var (u, err) := AddRow(t, addr, ifAddr, name, ok, reason);
      (Listed(u, addr, name) <==> Listed(t, addr, name) || ok) &&
      (err.Some? <==> !Listed(t, addr, name) && !ok) &&
      (u != t ==> |u.addresses| == |t.addresses| + 1)
  {
    var u := AddRow(t, addr, ifAddr, name, ok, reason).0;
    if !Listed(t, addr, name) && ok {
      assert u.addresses[|t.addresses|] == addr && u.ifaceNames[|t.addresses|] == name;
      forall i | 0 <= i < |t.addresses|
        ensures u.addresses[i] == t.addresses[i] && u.ifaceNames[i] == t.ifaceNames[i]
      {
      }
    }
  }

  /** Adding the same pair again changes nothing. */
  lemma AddTwice(t: Table, addr: nat, ifAddr: Option<nat>, name: string, ok: bool, ifAddr2: Option<nat>, ok2: bool, reason: string)
    requires Parallel(t)
    ensures var u := AddRow(t, addr, ifAddr, name, ok, reason).0;
      Listed(u, addr, name) ==> AddRow(u, addr, ifAddr2, name, ok2, reason) == (u, None)
  {
  }

  /** Removing the row just added gives back the table it was added to. */
  lemma AddThenRemove(t: Table, addr: nat, ifAddr: Option<nat>, name: string, reason: string)
    requires Parallel(t) && !Listed(t, addr, name)
    ensures var u := AddRow(t, addr, ifAddr, name, true, reason).0;
      |u.addresses| == |t.addresses| + 1 &&
      RemoveRow(u, |t.addresses|, true, reason) == (t, None)
  {
    var u := AddRow(t, addr, ifAddr, name, true, reason).0;
    var n := |t.addresses|;
    assert u.addresses[..n] == t.addresses && u.addresses[n + 1..] == [];
    assert u.ifaceAddresses[..n] == t.ifaceAddresses && u.ifaceAddresses[n + 1..] == [];
    assert u.ifaceNames[..n] == t.ifaceNames && u.ifaceNames[n + 1..] == [];
    assert u.addresses[..n] + u.addresses[n + 1..] == t.addresses;
    assert u.ifaceAddresses[..n] + u.ifaceAddresses[n + 1..] == t.ifaceAddresses;
    assert u.ifaceNames[..n] + u.ifaceNames[n + 1..] == t.ifaceNames;
    assert t == Table(t.addresses, t.ifaceAddresses, t.ifaceNames);
  }

  /** An accepted removal drops exactly the chosen row: every other row
      keeps its contents and order, and a refused one changes nothing. */
  lemma RemoveDropsRow(t: Table, row: nat, ok: bool, reason: string, k: nat)
    requires Parallel(t) && row < |t.addresses| && k < |t.addresses| && k != row
    ensures var (u, err) := RemoveRow(t, row, ok, reason);
      var k' := if k < row then k else k - 1;
      (ok ==> (err.None? && |u.addresses| == |t.addresses| - 1 &&
               u.addresses[k'] == t.addresses[k] && u.ifaceAddresses[k'] == t.ifaceAddresses[k] &&
               u.ifaceNames[k'] == t.ifaceNames[k])) &&
      (!ok ==> u == t && err.Some?)
  {
  }

  /** The row's first column reads back as the interface name and address
      it was added with, when the name holds no blank. */
  lemma FirstColumnReadsBack(t: Table, row: nat)
    requires Parallel(t) && row < |t.addresses|
    requires ' ' !in t.ifaceNames[row]
    requires t.ifaceAddresses[row].Some? ==> t.ifaceAddresses[row].value < 0x1_0000_0000
    ensures Data(t, row, 0, DisplayRole).Some?
    ensures var f := Split(Data(t, row, 0, DisplayRole).value, " - ");
      |f| == 2 && f[0] == t.ifaceNames[row] && HostAddress.Parse(f[1]) == t.ifaceAddresses[row]
  {
    var a := t.ifaceAddresses[row];
    if a.Some? {
      HostAddress.TextRoundTrip(a.value);
    } else {
      assert "" + "" == "";
      assert Split("", ".") == SplitFrom("", ".", "") == [""];
    }
    SplitPair(t.ifaceNames[row], AddressText(a), " - ");
  }
}
