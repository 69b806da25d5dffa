/**
 The bonding tool: primitives on the kernel's interface table, enslaving and releasing one slave,
 and the batch over all slaves of a command line. Any kernel request may be refused.
 */
module Ifenslave {
  import opened Basics

  type Name = string

  const ZERO_MAC := 0
  const DEFAULT_MTU := 1500

  /** An address record; only IPv4 (`inet`) ones are ever copied or deleted. */
  datatype Address = Address(inet: bool, ip: nat, prefixLen: nat)

  /** What the kernel knows of an interface; `slaveOf` is the bond it belongs to. */
  datatype Link = Link(mac: nat, mtu: nat, up: bool, slaveOf: Option<Name>, addresses: seq<Address>)

  type Table = map<Name, Link>

  /** The interfaces bonded to a master. */
  function Members(t: Table, master: Name): set<Name> {
    set n | n in t && t[n].slaveOf == Some(master)
  }

  function Inet(addresses: seq<Address>): seq<Address> {
    if addresses == [] then []
    else Inet(addresses[..|addresses| - 1]) + if addresses[|addresses| - 1].inet then [addresses[|addresses| - 1]] else []
  }

  function NotInet(addresses: seq<Address>): seq<Address> {
    if addresses == [] then []
    else NotInet(addresses[..|addresses| - 1]) + if addresses[|addresses| - 1].inet then [] else [addresses[|addresses| - 1]]
  }

  /** The records left when the first n have been gone through. */
  function Cleared(records: seq<Address>, n: nat): seq<Address>
    requires n <= |records|
  {
    NotInet(records[..n]) + records[n..]
  }

  lemma ClearedStep(records: seq<Address>, n: nat)
    requires n < |records|
    ensures Cleared(records, n) == NotInet(records[..n]) + [records[n]] + records[n + 1..]
    ensures Cleared(records, n + 1) ==
            if records[n].inet then NotInet(records[..n]) + records[n + 1..] else Cleared(records, n)
  {
    assert records[..n + 1][..n] == records[..n];
    assert records[n..] == [records[n]] + records[n + 1..];
    var kept, rest := NotInet(records[..n]), records[n + 1..];
    assert kept + ([records[n]] + rest) == kept + [records[n]] + rest;
    assert kept + [] == kept;
  }

  lemma {:induction false} InetConcat(xs: seq<Address>, ys: seq<Address>)
    ensures Inet(xs + ys) == Inet(xs) + Inet(ys)
  {
    if ys == [] {
      assert xs + ys == xs;
    } else {
      var n := |ys| - 1;
      InetConcat(xs, ys[..n]);
      assert (xs + ys)[..|xs| + n] == xs + ys[..n];
    }
  }

  /** What address copying hands to the slave: the first record of the list is always thrown away. */
  function Copied(addresses: seq<Address>): seq<Address> {
    if addresses == [] then [] else Inet(addresses[1..])
  }

  /** Hence all of the master's IPv4 addresses arrive if and only if its list does not start with one. */
  lemma {:induction false} CopiesAllIff(addresses: seq<Address>)
    ensures Copied(addresses) == Inet(addresses) <==> addresses == [] || !addresses[0].inet
  {
    if addresses != [] {
      assert addresses == [addresses[0]] + addresses[1..];
      InetConcat([addresses[0]], addresses[1..]);
      assert Inet([addresses[0]]) == if addresses[0].inet then [addresses[0]] else [] by {
        assert [addresses[0]][..0] == [];
      }
      assert |Inet(addresses)| == |Inet([addresses[0]])| + |Copied(addresses)|;
    }
  }

  // ---------------------------------------------------------------- what one request may change

  /** Only the addresses of `name` differ. */
  ghost predicate OnlyAddressesOf(before: Table, after: Table, name: Name) {
    && after.Keys == before.Keys
    && (forall n | n in before && n != name :: after[n] == before[n])
    && (name in before ==> after[name].(addresses := []) == before[name].(addresses := []))
  }

  lemma OnlyAddressesTrans(a: Table, b: Table, c: Table, name: Name)
    requires OnlyAddressesOf(a, b, name) && OnlyAddressesOf(b, c, name)
    ensures OnlyAddressesOf(a, c, name)
  {
  }

  lemma OnlyAddressesIsUpdate(before: Table, after: Table, name: Name)
    requires OnlyAddressesOf(before, after, name) && name in before
    ensures after == before[name := before[name].(addresses := after[name].addresses)]
  {
  }

  /** Only the links in `touched` differ, and no interface appears or disappears. */
  ghost predicate Frame(before: Table, after: Table, touched: set<Name>) {
    && after.Keys == before.Keys
    && forall n | n in before && n !in touched :: after[n] == before[n]
  }

  /** Of the master only the MAC and the up flag can change, and the MAC only while it is zero and not yet settled. */
  ghost predicate MasterKept(before: Table, after: Table, master: Name, settled: bool) {
    master in before ==>
      && master in after
      && after[master].mtu == before[master].mtu
      && after[master].slaveOf == before[master].slaveOf
      && after[master].addresses == before[master].addresses
      && (settled || before[master].mac != ZERO_MAC ==> after[master].mac == before[master].mac)
  }

  ghost predicate SameBonds(before: Table, after: Table) {
    after.Keys == before.Keys && forall n | n in before :: after[n].slaveOf == before[n].slaveOf
  }

  /** Newer drivers get a slave without IPv4 addresses, older ones the copied list or, if it could not be listed, none. */
  ghost predicate Addressed(before: Table, after: Table, listed: bool, abiVer: int, master: Name, slave: Name)
    requires slave in before && slave in after && master in before
  {
    if abiVer >= 2 then after[slave].addresses == NotInet(before[slave].addresses)
    else Inet(after[slave].addresses) == if listed then Copied(before[master].addresses) else []
  }

  /** Of the new list exactly the copied addresses are IPv4 ones. */
  lemma {:induction false} AddressedByList(
    before: Table, after: Table, listed: bool, abiVer: int, master: Name, slave: Name)
    requires slave in before && slave in after && master in before
    requires after[slave].addresses ==
             NotInet(before[slave].addresses) + if abiVer < 2 && listed then Copied(before[master].addresses) else []
    ensures Addressed(before, after, listed, abiVer, master, slave)
  {
    var kept, copied := NotInet(before[slave].addresses), Copied(before[master].addresses);
    InetOfNotInet(before[slave].addresses);
    InetConcat(kept, copied);
    if before[master].addresses != [] { InetIdempotent(before[master].addresses[1..]); }
    assert kept + [] == kept && [] + copied == copied;
  }

  /** The bond already has its MAC, so that a new slave adopts it; otherwise the slave lends its own. */
  predicate Adopts(before: Table, settled: bool, master: Name)
    requires master in before
  {
    settled || before[master].mac != ZERO_MAC
  }

  /** A slave just bonded. */
  function NewSlave(before: Table, settled: bool, listed: bool, abiVer: int, master: Name, slave: Name): Link
    requires master in before && slave in before
  {
    var adopting := abiVer < 1 && Adopts(before, settled, master);
    Link(if adopting then before[master].mac else before[slave].mac,
         before[master].mtu,
         adopting,
         Some(master),
         NotInet(before[slave].addresses) + if abiVer < 2 && listed then Copied(before[master].addresses) else [])
  }

  /** Its master. */
  function NewMaster(before: Table, settled: bool, abiVer: int, master: Name, slave: Name): Link
    requires master in before && slave in before
  {
    if Adopts(before, settled, master) then before[master]
    else before[master].(mac := before[slave].mac, up := abiVer < 1 || before[master].up)
  }

  /**
   What enslaving one interface does; `settled` and `settled'` are the sticky flag before and after,
   and `listed` says whether the kernel would list the master's addresses.
   */
  ghost predicate Enslaves(before: Table, after: Table, settled: bool, settled': bool, listed: bool,
                           abiVer: int, master: Name, slave: Name, ok: bool) {
    && Frame(before, after, {master, slave})
    && MasterKept(before, after, master, settled)
    && (settled ==> settled')
    && (if ok then
          && slave in before && before[slave].slaveOf.None? && master in before
          && after[slave] == NewSlave(before, settled, listed, abiVer, master, slave)
          && after[master] == NewMaster(before, settled, abiVer, master, slave)
          && after[slave].slaveOf == Some(master) && after[slave].mtu == after[master].mtu
          && settled' && (abiVer < 1 ==> after[slave].mac == after[master].mac)
          && after[slave].up == (abiVer < 1 && (settled || before[master].mac != ZERO_MAC))
          && Addressed(before, after, listed, abiVer, master, slave)
        else
          SameBonds(before, after))
    && (slave in before && before[slave].slaveOf.Some? ==> !ok && after == before)
  }

  class NetworkInterface {
    const abiVer: int
    var hwaddrSet: bool
    var links: Table
    var requests: nat
    const refuses: nat -> bool

    constructor (abiVer: int, links: Table, refuses: nat -> bool)
      ensures this.abiVer == abiVer && this.links == links && !hwaddrSet
    {
      this.abiVer, this.links, this.refuses := abiVer, links, refuses;
      hwaddrSet, requests := false, 0;
    }

    /** None of the requests from `first` up to `last` is refused. */
    ghost predicate Granted(first: nat, last: nat) {
      forall q | first <= q < last :: !refuses(q)
    }

    /** None but perhaps request number `spared`. */
    ghost predicate GrantedBut(first: nat, last: nat, spared: int) {
      forall q | first <= q < last && q != spared :: !refuses(q)
    }

    /** One request about an existing interface, unless the kernel refuses it. */
    method Request(name: Name) returns (ok: bool)
      modifies this`requests
      ensures requests == old(requests) + 1
      ensures ok <==> name in links && !refuses(old(requests))
    {
      ok := !refuses(requests) && name in links;
      requests := requests + 1;
    }

    method GetLink(name: Name) returns (link: Option<Link>)
      modifies this`requests
      ensures link.Some? <==> name in links && !refuses(old(requests))
      ensures link.Some? ==> link.value == links[name]
      ensures requests == old(requests) + 1
    {
      var ok := Request(name);
      link := if ok then Some(links[name]) else None;
    }

    method SetMac(name: Name, mac: nat) returns (ok: bool)
      modifies this`requests, this`links
      ensures requests == old(requests) + 1 && (ok <==> name in old(links) && !refuses(old(requests)))
      ensures if ok then name in old(links) && links == old(links)[name := old(links)[name].(mac := mac)]
              else links == old(links)
    {
      ok := Request(name);
      if ok { links := links[name := links[name].(mac := mac)]; }
    }

    method SetMtu(name: Name, mtu: nat) returns (ok: bool)
      modifies this`requests, this`links
      ensures requests == old(requests) + 1 && (ok <==> name in old(links) && !refuses(old(requests)))
      ensures if ok then name in old(links) && links == old(links)[name := old(links)[name].(mtu := mtu)]
              else links == old(links)
    {
      ok := Request(name);
      if ok { links := links[name := links[name].(mtu := mtu)]; }
    }

    method SetUp(name: Name, up: bool) returns (ok: bool)
      modifies this`requests, this`links
      ensures requests == old(requests) + 1 && (ok <==> name in old(links) && !refuses(old(requests)))
      ensures if ok then name in old(links) && links == old(links)[name := old(links)[name].(up := up)]
              else links == old(links)
    {
      ok := Request(name);
      if ok { links := links[name := links[name].(up := up)]; }
    }

    /** Writing "+slave" to the bond's list of slaves. */
    method AddSlave(master: Name, slave: Name) returns (ok: bool)
      modifies this`requests, this`links
      ensures requests == old(requests) + 1
      ensures ok <==> slave in old(links) && master in old(links) && !refuses(old(requests))
      ensures if ok then slave in old(links) && master in old(links)
                   && links == old(links)[slave := old(links)[slave].(slaveOf := Some(master))]
              else links == old(links)
    {
      ok := Request(slave);
      ok := ok && master in links;
      if ok { links := links[slave := links[slave].(slaveOf := Some(master))]; }
    }

    /** Writing "-slave"; the kernel knows only its own slaves. */
    method RemoveSlave(master: Name, slave: Name) returns (ok: bool)
      modifies this`requests, this`links
      ensures requests == old(requests) + 1
      ensures ok <==> slave in old(links) && old(links)[slave].slaveOf == Some(master) && !refuses(old(requests))
      ensures if ok then slave in old(links) && old(links)[slave].slaveOf == Some(master)
                   && links == old(links)[slave := old(links)[slave].(slaveOf := None)]
              else links == old(links)
    {
      ok := Request(slave);
      ok := ok && links[slave].slaveOf == Some(master);
      if ok { links := links[slave := links[slave].(slaveOf := None)]; }
    }

    /** Looks the interface up, starts listing its addresses and deletes the IPv4 ones. */
    method ClearAddresses(name: Name) returns (ok: bool)
      modifies this`requests, this`links
      ensures OnlyAddressesOf(old(links), links, name)
      ensures ok ==> name in links && links[name].addresses == NotInet(old(links)[name].addresses)
      ensures old(requests) <= requests && (ok <==> name in old(links) && Granted(old(requests), requests))
    {
      var link := GetLink(name);
      if link.None? { return false; }
      ok := Request(name);
      if !ok { return; }
      ok := DeleteInet(name, link.value.addresses);
    }

    /** Deletes the IPv4 addresses one by one; a refused deletion, or a listing that breaks off, leaves the rest in place. */
    method DeleteInet(name: Name, records: seq<Address>) returns (ok: bool)
      requires name in links && links[name].addresses == records
      modifies this`requests, this`links
      ensures OnlyAddressesOf(old(links), links, name) && name in links
      ensures ok ==> links[name].addresses == NotInet(records)
      ensures old(requests) <= requests && (ok <==> Granted(old(requests), requests))
    {
      assert Cleared(records, 0) == records;
      for i := 0 to |records|
        invariant OnlyAddressesOf(old(links), links, name) && name in links
        invariant links[name].addresses == Cleared(records, i)
        invariant old(requests) <= requests && Granted(old(requests), requests)
      {
        ghost var now := links;
        ok := ClearStep(name, records, i);
        OnlyAddressesTrans(old(links), now, links, name);
        if !ok { return; }
      }
      assert Cleared(records, |records|) == NotInet(records) by { assert records[..|records|] == records; }
      ok := true;
    }

    /** One record of the listing, which may break off, and its deletion. */
    method ClearStep(name: Name, records: seq<Address>, i: nat) returns (ok: bool)
      requires i < |records| && name in links && links[name].addresses == Cleared(records, i)
      modifies this`requests, this`links
      ensures OnlyAddressesOf(old(links), links, name) && name in links
      ensures ok ==> links[name].addresses == Cleared(records, i + 1)
      ensures old(requests) <= requests && (ok <==> Granted(old(requests), requests))
    {
      ClearedStep(records, i);
      ok := DropRecord(name, NotInet(records[..i]), records[i], records[i + 1..]);
    }

    method DropRecord(name: Name, ghost kept: seq<Address>, record: Address, rest: seq<Address>) returns (ok: bool)
      requires name in links && links[name].addresses == kept + [record] + rest
      modifies this`requests, this`links
      ensures OnlyAddressesOf(old(links), links, name) && name in links
      ensures ok ==> links[name].addresses == if record.inet then kept + rest else kept + [record] + rest
      ensures old(requests) <= requests && (ok <==> Granted(old(requests), requests))
    {
      ok := Request(name);
      if ok && record.inet {
        ok := DeleteAddress(name, kept, record, rest);
      }
    }

    method DeleteAddress(name: Name, ghost before: seq<Address>, address: Address, after: seq<Address>)
      returns (ok: bool)
      requires name in links && links[name].addresses == before + [address] + after
      modifies this`requests, this`links
      ensures OnlyAddressesOf(old(links), links, name) && name in links
      ensures links[name].addresses == if ok then before + after else before + [address] + after
      ensures requests == old(requests) + 1 && (ok <==> !refuses(old(requests)))
    {
      ok := Request(name);
      if ok {
        var at := |links[name].addresses| - |after| - 1;
        var rest := links[name].addresses[..at] + links[name].addresses[at + 1..];
        assert rest == before + after;
        links := links[name := links[name].(addresses := rest)];
      }
    }

    /** Item i of a listing whose first item is request number `first` comes as an error. */
    predicate ItemFails(first: nat, i: nat) { refuses(first + i) }

    /** The listing of some addresses breaks off after its first item. */
    ghost predicate ListingBreaks(records: seq<Address>, first: nat) {
      !ItemFails(first, 0) && exists i :: 1 <= i < |records| && ItemFails(first, i)
    }

    /**
     The addresses collected from the master. The loop that collects them throws its first item
     away, be it a record or an error; an error in place of a later record is passed on.
     */
    method ListAddresses(master: Name) returns (ok: bool, configs: seq<Address>)
      requires master in links
      modifies this`requests
      ensures ok <==> !ListingBreaks(links[master].addresses, old(requests))
      ensures ok ==> configs == if refuses(old(requests)) then [] else Copied(links[master].addresses)
      ensures ok ==> Inet(configs) == configs
      ensures old(requests) < requests && (ok <==> GrantedBut(old(requests), requests, old(requests)))
    {
      configs := [];
      var records := links[master].addresses;
      var listed := Request(master);
      if !listed || records == [] { return true, []; }
      for i := 1 to |records|
        invariant requests == old(requests) + i
        invariant configs == Inet(records[1..i])
        invariant forall j | 1 <= j < i :: !ItemFails(old(requests), j)
        invariant Granted(old(requests), requests)
      {
        ok := Request(master);
        assert ok <==> !ItemFails(old(requests), i);
        if !ok { return; }
        InetSnocAt(records, i);
        if records[i].inet { configs := configs + [records[i]]; }
      }
      assert records[1..|records|] == records[1..];
      InetIdempotent(records[1..]);
      ok := true;
    }

    /**
     A refusal to list the master's addresses is swallowed the way their first record is; one later
     in the list fails before anything changes.
     */
    method CopyAddressConfig(master: Name, slave: Name) returns (ok: bool)
      modifies this`requests, this`links
      ensures OnlyAddressesOf(old(links), links, slave)
      ensures ok ==> slave in links && master in old(links)
      ensures ok && !refuses(old(requests) + 2) ==> Inet(links[slave].addresses) == Copied(old(links)[master].addresses)
      ensures ok && refuses(old(requests) + 2) ==> Inet(links[slave].addresses) == []
      ensures master in old(links) && ListingBreaks(old(links)[master].addresses, old(requests) + 2) ==>
                !ok && links == old(links)
      ensures ok ==> links[slave].addresses ==
                     NotInet(old(links)[slave].addresses) +
                     if refuses(old(requests) + 2) then [] else Copied(old(links)[master].addresses)
      ensures old(requests) <= requests && (ok ==> old(requests) + 3 <= requests)
      ensures ok <==> master in old(links) && slave in old(links) &&
                      GrantedBut(old(requests), requests, old(requests) + 2)
    {
      var masterLink := GetLink(master);
      if masterLink.None? { return false; }
      var slaveLink := GetLink(slave);
      if slaveLink.None? { return false; }
      var configs;
      ok, configs := ListAddresses(master);
      assert links == old(links);
      if !ok { return; }
      assert configs == if refuses(old(requests) + 2) then [] else Copied(old(links)[master].addresses);
      assert !ListingBreaks(old(links)[master].addresses, old(requests) + 2);
      ok := ReplaceAddresses(slave, configs);
    }

    method ReplaceAddresses(slave: Name, configs: seq<Address>) returns (ok: bool)
      requires slave in links && Inet(configs) == configs
      modifies this`requests, this`links
      ensures OnlyAddressesOf(old(links), links, slave)
      ensures ok ==> slave in links && Inet(links[slave].addresses) == configs
      ensures ok ==> links[slave].addresses == NotInet(old(links)[slave].addresses) + configs
      ensures old(requests) <= requests && (ok <==> Granted(old(requests), requests))
    {
      ok := ClearAddresses(slave);
      if !ok { return; }
      InetOfNotInet(old(links)[slave].addresses);
      ghost var cleared := links;
      ok := AddAddresses(slave, configs);
      OnlyAddressesTrans(old(links), cleared, links, slave);
    }

    method AddAddresses(slave: Name, configs: seq<Address>) returns (ok: bool)
      requires slave in links && Inet(links[slave].addresses) == [] && Inet(configs) == configs
      modifies this`requests, this`links
      ensures OnlyAddressesOf(old(links), links, slave)
      ensures ok ==> slave in links && Inet(links[slave].addresses) == configs
      ensures ok ==> links[slave].addresses == old(links)[slave].addresses + configs
      ensures old(requests) <= requests && (ok <==> Granted(old(requests), requests))
    {
      ghost var before := links[slave].addresses;
      for i := 0 to |configs|
        invariant OnlyAddressesOf(old(links), links, slave) && slave in links
        invariant links[slave].addresses == before + configs[..i]
        invariant old(requests) <= requests && Granted(old(requests), requests)
      {
        assert before + configs[..i] + [configs[i]] == before + configs[..i + 1];
        ok := AddAddress(slave, configs[i]);
        if !ok { return; }
      }
      assert before + configs[..|configs|] == before + configs;
      InetConcat(before, configs);
      ok := true;
    }

    method AddAddress(slave: Name, address: Address) returns (ok: bool)
      requires slave in links
      modifies this`requests, this`links
      ensures requests == old(requests) + 1 && (ok <==> !refuses(old(requests)))
      ensures links == if ok then old(links)[slave := old(links)[slave].(addresses := old(links)[slave].addresses + [address])]
                       else old(links)
    {
      ok := Request(slave);
      if ok { links := links[slave := links[slave].(addresses := links[slave].addresses + [address])]; }
    }

    method Enslave(master: Name, slave: Name) returns (ok: bool)
      modifies this
      ensures master != slave ==>
                Enslaves(old(links), links, old(hwaddrSet), hwaddrSet, !refuses(old(requests) + 4),
                         abiVer, master, slave, ok)
      ensures old(requests) <= requests
      ensures ok <==>
                && master in old(links) && slave in old(links) && old(links)[slave].slaveOf.None?
                && GrantedBut(old(requests), requests, if abiVer < 2 then old(requests) + 4 else -1)
    {
      var slaveLink := GetLink(slave);
      if slaveLink.None? || slaveLink.value.slaveOf.Some? { return false; }
      ok := PrepareSlave(master, slave);
      if !ok { return; }
      if master != slave {
        AddressedByList(old(links), links, !refuses(old(requests) + 4), abiVer, master, slave);
      }
      ok := JoinBond(master, slave);
    }

    /** The rest, with the slave prepared: the MAC, and the bond's list of slaves. */
    method JoinBond(master: Name, slave: Name) returns (ok: bool)
      modifies this
      ensures old(hwaddrSet) ==> hwaddrSet
      ensures Frame(old(links), links, {master, slave})
      ensures old(requests) <= requests
      ensures ok <==> master in old(links) && slave in old(links) && Granted(old(requests), requests)
      ensures !ok ==> SameBonds(old(links), links)
      ensures master != slave ==> MasterKept(old(links), links, master, old(hwaddrSet))
      ensures ok ==> hwaddrSet
      ensures master != slave && ok ==>
                var adopts := old(hwaddrSet) || old(links)[master].mac != ZERO_MAC;
                && links[slave] == old(links)[slave].(
                     mac := if abiVer < 1 && adopts then old(links)[master].mac else old(links)[slave].mac,
                     up := (abiVer < 1 && adopts) || old(links)[slave].up,
                     slaveOf := Some(master))
                && links[master] ==
                   if adopts then old(links)[master]
                   else old(links)[master].(mac := old(links)[slave].mac, up := abiVer < 1 || old(links)[master].up)
    {
      ok := MatchMac(master, slave);
      if !ok { return; }
      ok := AddSlave(master, slave);
    }

    /** Everything up to the MAC concerns the slave alone: down, addresses, MTU. */
    method PrepareSlave(master: Name, slave: Name) returns (ok: bool)
      modifies this`requests, this`links
      ensures Frame(old(links), links, {slave}) && SameBonds(old(links), links)
      ensures ok ==> master in links && slave in links && links[slave].mtu == links[master].mtu && !links[slave].up
      ensures ok && master != slave ==>
                links[slave] == old(links)[slave].(
                  up := false, mtu := old(links)[master].mtu,
                  addresses := NotInet(old(links)[slave].addresses) +
                               if abiVer < 2 && !refuses(old(requests) + 3) then Copied(old(links)[master].addresses) else [])
      ensures old(requests) <= requests && (ok && abiVer < 2 ==> old(requests) + 4 <= requests)
      ensures ok <==> master in old(links) && slave in old(links) &&
                      GrantedBut(old(requests), requests, if abiVer < 2 then old(requests) + 3 else -1)
    {
      ok := SetUp(slave, false);
      if !ok { return; }
      ghost var lowered := links;
      ok := Readdress(master, slave);
      assert Frame(lowered, links, {slave}) && SameBonds(lowered, links);
      if !ok { return; }
      OnlyAddressesIsUpdate(lowered, links, slave);
      ok := MatchMtu(master, slave);
    }

    /** Older drivers need the master's addresses on the slave, newer ones none. */
    method Readdress(master: Name, slave: Name) returns (ok: bool)
      modifies this`requests, this`links
      ensures OnlyAddressesOf(old(links), links, slave)
      ensures ok ==> slave in links && (abiVer < 2 ==> master in links)
      ensures ok ==> links[slave].addresses ==
                     NotInet(old(links)[slave].addresses) +
                     if abiVer < 2 && !refuses(old(requests) + 2) then Copied(old(links)[master].addresses) else []
      ensures old(requests) <= requests && (ok && abiVer < 2 ==> old(requests) + 3 <= requests)
      ensures ok <==> slave in old(links) && (abiVer < 2 ==> master in old(links)) &&
                      GrantedBut(old(requests), requests, if abiVer < 2 then old(requests) + 2 else -1)
    {
      if abiVer < 2 {
        ok := CopyAddressConfig(master, slave);
      } else {
        ok := ClearAddresses(slave);
      }
    }

    method MatchMtu(master: Name, slave: Name) returns (ok: bool)
      modifies this`requests, this`links
      ensures ok ==> master in links && slave in links && links[slave].mtu == links[master].mtu
      ensures links.Keys == old(links).Keys
      ensures forall n | n in links && n != slave :: links[n] == old(links)[n]
      ensures slave in links ==> links[slave].(mtu := 0) == old(links)[slave].(mtu := 0)
      ensures old(requests) <= requests
      ensures ok <==> master in old(links) && slave in old(links) && Granted(old(requests), requests)
      ensures ok ==> links == old(links)[slave := old(links)[slave].(mtu := old(links)[master].mtu)]
    {
      var masterLink := GetLink(master);
      if masterLink.None? { return false; }
      var slaveLink := GetLink(slave);
      if slaveLink.None? { return false; }
      ok := true;
      if masterLink.value.mtu != slaveLink.value.mtu {
        ok := SetMtu(slave, masterLink.value.mtu);
      }
    }

    /** Gives the slave the master's MAC or, when the master has none yet, the master the slave's. */
    method MatchMac(master: Name, slave: Name) returns (ok: bool)
      modifies this
      ensures old(hwaddrSet) ==> hwaddrSet
      ensures links.Keys == old(links).Keys
      ensures forall n | n in links && n != master && n != slave :: links[n] == old(links)[n]
      ensures forall n | n in links :: links[n].(mac := 0, up := false) == old(links)[n].(mac := 0, up := false)
      ensures ok ==> master in links && slave in links && hwaddrSet
      ensures master != slave ==> MasterKept(old(links), links, master, old(hwaddrSet))
      ensures master != slave && ok && abiVer < 1 ==> links[slave].mac == links[master].mac
      ensures master != slave && ok ==>
                links[slave].up == if abiVer < 1 && (old(hwaddrSet) || old(links)[master].mac != ZERO_MAC)
                                   then true else old(links)[slave].up
      ensures master != slave && ok ==>
                var adopts := old(hwaddrSet) || old(links)[master].mac != ZERO_MAC;
                && links[slave].mac == (if abiVer < 1 && adopts then old(links)[master].mac else old(links)[slave].mac)
                && links[master] ==
                   if adopts then old(links)[master]
                   else old(links)[master].(mac := old(links)[slave].mac, up := abiVer < 1 || old(links)[master].up)
      ensures old(requests) <= requests
      ensures ok <==> master in old(links) && slave in old(links) && Granted(old(requests), requests)
    {
      var masterLink := GetLink(master);
      if masterLink.None? { return false; }
      var slaveLink := GetLink(slave);
      if slaveLink.None? { return false; }
      var masterMac, slaveMac := masterLink.value.mac, slaveLink.value.mac;
      if masterMac != ZERO_MAC { hwaddrSet := true; }
      if hwaddrSet {
        ok := AdoptMac(slave, masterMac);
      } else {
        ok := LendMac(master, slaveMac);
        if ok { hwaddrSet := true; }
      }
    }

    /** The bond has its MAC; with the oldest drivers the tool must copy it and raise the slave. */
    method AdoptMac(slave: Name, masterMac: nat) returns (ok: bool)
      modifies this`requests, this`links
      ensures links.Keys == old(links).Keys
      ensures forall n | n in links && n != slave :: links[n] == old(links)[n]
      ensures slave in links ==> links[slave].(mac := 0, up := false) == old(links)[slave].(mac := 0, up := false)
      ensures ok && abiVer < 1 ==> slave in links && links[slave].mac == masterMac && links[slave].up
      ensures abiVer >= 1 ==> ok && links == old(links)
      ensures old(requests) <= requests
      ensures ok <==> (abiVer < 1 ==> slave in old(links)) && Granted(old(requests), requests)
    {
      ok := true;
      if abiVer < 1 {
        ok := SetMac(slave, masterMac);
        if !ok { return; }
        ok := SetUp(slave, true);
      }
    }

    /** The bond has no MAC yet and takes the slave's; the oldest drivers need it down meanwhile. */
    method LendMac(master: Name, slaveMac: nat) returns (ok: bool)
      modifies this`requests, this`links
      ensures links.Keys == old(links).Keys
      ensures forall n | n in links && n != master :: links[n] == old(links)[n]
      ensures master in links ==> links[master].(mac := 0, up := false) == old(links)[master].(mac := 0, up := false)
      ensures ok ==> master in links && links[master].mac == slaveMac
      ensures ok ==> links[master].up == (abiVer < 1 || old(links)[master].up)
      ensures old(requests) <= requests
      ensures ok <==> master in old(links) && Granted(old(requests), requests)
    {
      if abiVer < 1 {
        ok := SetUp(master, false);
        if !ok { return; }
      }
      ok := SetMac(master, slaveMac);
      if !ok { return; }
      if abiVer < 1 {
        ok := SetUp(master, true);
      }
    }

    /** What releasing one interface does. A late refusal leaves it released but not reset. */
    method Release(master: Name, slave: Name) returns (ok: bool)
      modifies this`requests, this`links
      ensures Frame(old(links), links, {slave})
      ensures slave in links ==>
                links[slave].(mtu := 0, up := false, slaveOf := None) == old(links)[slave].(mtu := 0, up := false, slaveOf := None)
      ensures ok ==> slave in links && old(links)[slave].slaveOf == Some(master)
                     && links[slave].slaveOf == None && links[slave].mtu == DEFAULT_MTU
                     && (abiVer < 1 ==> !links[slave].up)
      ensures !ok ==> SameBonds(old(links), links)
                      || (slave in links && old(links)[slave].slaveOf == Some(master) && links[slave].slaveOf == None)
      ensures slave in old(links) && old(links)[slave].slaveOf.None? ==> !ok && links == old(links)
      ensures ok ==> links == old(links)[slave := old(links)[slave].(
                       slaveOf := None, mtu := DEFAULT_MTU, up := abiVer >= 1 && old(links)[slave].up)]
      ensures old(requests) <= requests
      ensures ok <==> slave in old(links) && old(links)[slave].slaveOf == Some(master) &&
                      Granted(old(requests), requests)
    {
      var slaveLink := GetLink(slave);
      if slaveLink.None? || slaveLink.value.slaveOf.None? { return false; }
      ok := RemoveSlave(master, slave);
      if !ok { return; }
      if abiVer < 1 {
        ok := SetUp(slave, false);
        if !ok { return; }
      }
      ok := SetMtu(slave, DEFAULT_MTU);
    }
  }

  lemma {:induction false} InetSnocAt(records: seq<Address>, i: nat)
    requires 1 <= i < |records|
    ensures Inet(records[1..i + 1]) == Inet(records[1..i]) + if records[i].inet then [records[i]] else []
  {
    var more := records[1..i + 1];
    assert more[..i - 1] == records[1..i] && more[i - 1] == records[i];
  }

  lemma {:induction false} InetIdempotent(addresses: seq<Address>)
    ensures Inet(Inet(addresses)) == Inet(addresses)
  {
    if addresses != [] {
      var n := |addresses| - 1;
      InetIdempotent(addresses[..n]);
      InetConcat(Inet(addresses[..n]), if addresses[n].inet then [addresses[n]] else []);
    }
  }

  lemma {:induction false} InetOfNotInet(addresses: seq<Address>)
    ensures Inet(NotInet(addresses)) == []
  {
    if addresses != [] {
      var n := |addresses| - 1;
      InetOfNotInet(addresses[..n]);
      InetConcat(NotInet(addresses[..n]), if addresses[n].inet then [] else [addresses[n]]);
    }
  }

  // ---------------------------------------------------------------- the batch

  function MacOf(t: Table, n: Name): nat {
    if n in t then t[n].mac else ZERO_MAC
  }

  /** Where a batch stands that has bonded the interfaces in `bonded` so far. */
  ghost predicate Bonded(before: Table, now: Table, settled: bool, abiVer: int, master: Name, bonded: set<Name>) {
    && now.Keys == before.Keys
    && Members(now, master) == Members(before, master) + bonded
    && bonded !! Members(before, master) && master !in bonded
    && MasterKept(before, now, master, false)
    && (bonded != {} ==> settled && master in now)
    && (forall s | s in bonded :: s in now && now[s].mtu == now[master].mtu)
    && (abiVer < 1 ==> forall s | s in bonded :: s in now && now[s].mac == now[master].mac)
  }

  /** Who is in a bond after one enslaving. */
  lemma MembersOneMore(now: Table, next: Table, settled: bool, settled': bool,
                       listed: bool, abiVer: int, master: Name, slave: Name, ok: bool)
    requires Enslaves(now, next, settled, settled', listed, abiVer, master, slave, ok)
    requires master != slave && MasterKept(now, next, master, settled)
    ensures Members(next, master) == Members(now, master) + if ok then {slave} else {}
    ensures ok ==> slave !in Members(now, master)
  {
    forall n
      ensures n in Members(next, master) <==> n in Members(now, master) || (ok && n == slave)
    {
    }
  }

  lemma BondsOneMore(before: Table, now: Table, next: Table, settled: bool, settled': bool,
                     listed: bool, abiVer: int, master: Name, bonded: set<Name>, slave: Name, ok: bool)
    requires Bonded(before, now, settled, abiVer, master, bonded) && master != slave
    requires Enslaves(now, next, settled, settled', listed, abiVer, master, slave, ok)
    ensures Bonded(before, next, settled', abiVer, master, if ok then bonded + {slave} else bonded)
  {
    MembersOneMore(now, next, settled, settled', listed, abiVer, master, slave, ok);
    if slave in bonded {
      assert slave in Members(now, master) && now[slave].slaveOf.Some?;
    } else {
      forall s | s in bonded ensures next[s] == now[s] {
      }
    }
  }

  /** A list of readings that changes at most once, and then away from zero. */
  ghost predicate SettlesOnce(macs: seq<nat>) {
    forall i, j | 0 <= i < j < |macs| && macs[i] != ZERO_MAC :: macs[j] == macs[i]
  }

  ghost function Successes(slaves: seq<Name>, results: seq<bool>): set<Name>
    requires |results| <= |slaves|
  {
    set i | 0 <= i < |results| && results[i] :: slaves[i]
  }

  /** Nothing but a refusal stands in the way of a batch: interfaces that exist, once each, and are free. */
  ghost predicate Ready(t: Table, master: Name, slaves: seq<Name>) {
    && master in t && master !in slaves
    && (forall i | 0 <= i < |slaves| :: slaves[i] in t && t[slaves[i]].slaveOf.None?)
    && (forall i, j | 0 <= i < j < |slaves| :: slaves[i] != slaves[j])
  }

  /** As `Ready`, for a batch that detaches. */
  ghost predicate ReadyToLeave(t: Table, master: Name, slaves: seq<Name>) {
    && (forall i | 0 <= i < |slaves| :: slaves[i] in t && t[slaves[i]].slaveOf == Some(master))
    && (forall i, j | 0 <= i < j < |slaves| :: slaves[i] != slaves[j])
  }

  /** The slaves from number i on are as they were. */
  ghost predicate Untouched(before: Table, now: Table, slaves: seq<Name>, i: nat) {
    now.Keys == before.Keys
    && forall j | i <= j < |slaves| && slaves[j] in before :: now[slaves[j]] == before[slaves[j]]
  }

  /** A batch that has come to slave number i. */
  ghost predicate Underway(before: Table, now: Table, settled: bool, abiVer: int,
                           master: Name, slaves: seq<Name>, i: nat, bonded: set<Name>) {
    && (master !in slaves ==> Bonded(before, now, settled, abiVer, master, bonded))
    && (Ready(before, master, slaves) ==> Untouched(before, now, slaves, i))
  }

  lemma UntouchedStep(before: Table, now: Table, next: Table, master: Name, slaves: seq<Name>, i: nat)
    requires Ready(before, master, slaves) && i < |slaves|
    requires Untouched(before, now, slaves, i) && Frame(now, next, {master, slaves[i]})
    ensures Untouched(before, next, slaves, i + 1)
  {
  }

  /** The next slave of a batch. */
  method EnslaveNext(net: NetworkInterface, master: Name, slaves: seq<Name>, i: nat,
                     ghost before: Table, ghost bonded: set<Name>) returns (ok: bool)
    requires i < |slaves|
    requires Underway(before, net.links, net.hwaddrSet, net.abiVer, master, slaves, i, bonded)
    modifies net
    ensures Underway(before, net.links, net.hwaddrSet, net.abiVer, master, slaves, i + 1,
                     if ok then bonded + {slaves[i]} else bonded)
    ensures master !in slaves && MacOf(old(net.links), master) != ZERO_MAC ==>
              MacOf(net.links, master) == MacOf(old(net.links), master)
    ensures old(net.requests) <= net.requests
    ensures Ready(before, master, slaves) && net.Granted(old(net.requests), net.requests) ==> ok
  {
    ghost var now, settled, listed := net.links, net.hwaddrSet, !net.refuses(net.requests + 4);
    ok := net.Enslave(master, slaves[i]);
    if master !in slaves {
      BondsOneMore(before, now, net.links, settled, net.hwaddrSet, listed, net.abiVer, master, bonded, slaves[i], ok);
    }
    if Ready(before, master, slaves) {
      UntouchedStep(before, now, net.links, master, slaves, i);
    }
  }

  /**
   Enslaving everything on the command line, whatever the kernel refuses. `macs` are the master's
   MAC before the batch and after each slave.
   */
  method EnslaveAll(net: NetworkInterface, master: Name, slaves: seq<Name>)
    returns (errors: bool, results: seq<bool>, ghost macs: seq<nat>)
    requires !net.hwaddrSet
    modifies net
    ensures |results| == |slaves| && (errors <==> false in results)
    ensures |macs| == |slaves| + 1
    ensures macs[0] == MacOf(old(net.links), master) && macs[|slaves|] == MacOf(net.links, master)
    ensures master !in slaves ==>
              && Bonded(old(net.links), net.links, net.hwaddrSet, net.abiVer, master, Successes(slaves, results))
              && SettlesOnce(macs)
    ensures old(net.requests) <= net.requests
    ensures Ready(old(net.links), master, slaves) && net.Granted(old(net.requests), net.requests) ==>
              && !errors
              && Members(net.links, master) == Members(old(net.links), master) + (set n | n in slaves)
  {
    errors, results := false, [];
    macs := [MacOf(net.links, master)];
    ghost var bonded: set<Name> := {};
    for i := 0 to |slaves|
      invariant |results| == i && (errors <==> false in results)
      invariant |macs| == i + 1 && macs[0] == MacOf(old(net.links), master) && macs[i] == MacOf(net.links, master)
      invariant bonded == Successes(slaves, results)
      invariant Underway(old(net.links), net.links, net.hwaddrSet, net.abiVer, master, slaves, i, bonded)
      invariant master !in slaves ==> SettlesOnce(macs)
      invariant old(net.requests) <= net.requests
      invariant Ready(old(net.links), master, slaves) && net.Granted(old(net.requests), net.requests) ==> !errors
    {
      var ok := EnslaveNext(net, master, slaves, i, old(net.links), bonded);
      if !ok { errors := true; }
      SuccessesOneMore(slaves, results, ok);
      bonded := if ok then bonded + {slaves[i]} else bonded;
      results := results + [ok];
      macs := macs + [MacOf(net.links, master)];
    }
    if !errors { AllSucceed(slaves, results); }
  }

  lemma AllSucceed(slaves: seq<Name>, results: seq<bool>)
    requires |results| == |slaves| && false !in results
    ensures Successes(slaves, results) == set n | n in slaves
  {
    forall n | n in slaves ensures n in Successes(slaves, results) {
      var i :| 0 <= i < |slaves| && slaves[i] == n;
      assert results[i];
    }
  }

  lemma SuccessesOneMore(slaves: seq<Name>, results: seq<bool>, ok: bool)
    requires |results| < |slaves|
    ensures Successes(slaves, results + [ok]) ==
            Successes(slaves, results) + if ok then {slaves[|results|]} else {}
  {
    var more := results + [ok];
    forall n | n in Successes(slaves, results) ensures n in Successes(slaves, more) {
      var i :| 0 <= i < |results| && results[i] && slaves[i] == n;
      assert more[i];
    }
    if ok { assert more[|results|]; }
  }

  /** Where a detaching batch stands: everything released has left the bond, and nothing has joined it. */
  ghost predicate Detached(before: Table, now: Table, master: Name, slaves: set<Name>, done: set<Name>) {
    && now.Keys == before.Keys
    && Members(before, master) - slaves <= Members(now, master) <= Members(before, master) - done
    && (forall s | s in done :: s in now && now[s].slaveOf == None && now[s].mtu == DEFAULT_MTU)
    && (forall n | n in before && n !in slaves :: now[n] == before[n])
  }

  lemma DetachesOneMore(before: Table, now: Table, next: Table, master: Name, slaves: set<Name>, done: set<Name>,
                        slave: Name, ok: bool)
    requires Detached(before, now, master, slaves, done) && slave in slaves
    requires Frame(now, next, {slave})
    requires ok ==> slave in next && next[slave].slaveOf == None && next[slave].mtu == DEFAULT_MTU
    requires !ok ==> SameBonds(now, next)
                     || (slave in next && slave in now && now[slave].slaveOf == Some(master) && next[slave].slaveOf == None)
    requires slave in now && now[slave].slaveOf.None? ==> next == now
    ensures Detached(before, next, master, slaves, if ok then done + {slave} else done)
  {
    forall n | n in Members(next, master) ensures n in Members(now, master) {
    }
    forall n | n in Members(now, master) && n != slave ensures n in Members(next, master) {
    }
    forall s | s in done ensures next[s] == now[s] {
      if s == slave { assert now[slave].slaveOf.None?; }
    }
  }

  method ReleaseAll(net: NetworkInterface, master: Name, slaves: seq<Name>) returns (errors: bool, results: seq<bool>)
    modifies net
    ensures |results| == |slaves| && (errors <==> false in results)
    ensures Detached(old(net.links), net.links, master, (set n | n in slaves), Successes(slaves, results))
    ensures !errors ==> Members(net.links, master) == Members(old(net.links), master) - (set n | n in slaves)
    ensures old(net.requests) <= net.requests
    ensures ReadyToLeave(old(net.links), master, slaves) && net.Granted(old(net.requests), net.requests) ==> !errors
  {
    errors, results := false, [];
    ghost var all := set n | n in slaves;
    ghost var done: set<Name> := {};
    for i := 0 to |slaves|
      invariant |results| == i && (errors <==> false in results)
      invariant done == Successes(slaves, results)
      invariant Detached(old(net.links), net.links, master, all, done)
      invariant old(net.requests) <= net.requests
      invariant ReadyToLeave(old(net.links), master, slaves) ==> Untouched(old(net.links), net.links, slaves, i)
      invariant ReadyToLeave(old(net.links), master, slaves) && net.Granted(old(net.requests), net.requests) ==> !errors
    {
      ghost var before := net.links;
      var ok := net.Release(master, slaves[i]);
      if !ok { errors := true; }
      SuccessesOneMore(slaves, results, ok);
      DetachesOneMore(old(net.links), before, net.links, master, all, done, slaves[i], ok);
      done := if ok then done + {slaves[i]} else done;
      results := results + [ok];
    }
    if !errors { AllSucceed(slaves, results); }
  }

  /** Releasing what a batch bonded, without an error, restores the bond as it was. */
  lemma ReleaseUndoesEnslave(before: Table, bonded: Table, after: Table, settled: bool, abiVer: int,
                             master: Name, slaves: set<Name>)
    requires Bonded(before, bonded, settled, abiVer, master, slaves)
    requires Detached(bonded, after, master, slaves, slaves)
    ensures Members(after, master) == Members(before, master)
    ensures forall s | s in slaves :: s in after && after[s].mtu == DEFAULT_MTU
  {
  }
}
