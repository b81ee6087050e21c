/** The ARP table: IPv4 address to MAC address, with stale entries reclaimed. */
module ArpTable {
  import opened Lists
  import opened Options

  const TABLE_SIZE: nat := 32
  const ARP_ENTRY_TTL_MS: nat := 1200000
  const U64: nat := 0x10000000000000000
  const U32: nat := 0x100000000

  type Ip = nat
  type Mac = nat

  datatype Entry = Entry(seqno: nat, used: bool, ip: Ip, mac: Mac, added: nat)
  datatype Rec = Rec(mac: Mac, added: nat)
  datatype Outcome = Refreshed | Inserted | NoRoom

  predicate Stale(added: nat, now: nat) {
    (now - added) % U64 >= ARP_ENTRY_TTL_MS
  }

  /** At most one used entry per address; no write in progress outside the lock. */
  ghost predicate Good(c: seq<Entry>) {
    && |c| == TABLE_SIZE && (forall i :: 0 <= i < |c| ==> c[i].seqno % 2 == 0)
    && forall i, j :: 0 <= i < j < |c| && c[i].used && c[j].used ==> c[i].ip != c[j].ip
  }

  ghost function Table(c: seq<Entry>): map<Ip, Rec>
    requires Good(c)
  {
    map i | 0 <= i < |c| && c[i].used :: c[i].ip := Rec(c[i].mac, c[i].added)
  }

  lemma TableAt(c: seq<Entry>, i: nat)
    requires Good(c) && i < |c| && c[i].used
    ensures c[i].ip in Table(c) && Table(c)[c[i].ip] == Rec(c[i].mac, c[i].added)
  {
  }

  lemma SlotOf(c: seq<Entry>, ip: Ip) returns (i: nat)
    requires Good(c) && ip in Table(c)
    ensures i < |c| && c[i].used && c[i].ip == ip && Table(c)[ip] == Rec(c[i].mac, c[i].added)
  {
    i :| 0 <= i < |c| && c[i].used && c[i].ip == ip;
  }

  ghost function After(c: seq<Entry>, i: nat, ip: Ip, r: Rec): map<Ip, Rec>
    requires Good(c) && i < |c|
  {
    (Table(c) - (if c[i].used then {c[i].ip} else {}))[ip := r]
  }

  lemma StoreTable(c: seq<Entry>, i: nat, e: Entry)
    requires Good(c) && i < |c| && e.used && Good(c[i := e])
    ensures Table(c[i := e]) == After(c, i, e.ip, Rec(e.mac, e.added))
  {
    var c', t := c[i := e], After(c, i, e.ip, Rec(e.mac, e.added));
    forall x
      ensures x in Table(c') ==> x in t && Table(c')[x] == t[x]
      ensures x in t ==> x in Table(c')
    {
      if x in Table(c') {
        var j := SlotOf(c', x);
        if j != i { TableAt(c, j); }
      }
      if x in t {
        if x == e.ip {
          TableAt(c', i);
        } else {
          var j := SlotOf(c, x);
          TableAt(c', j);
        }
      }
    }
  }

  /** A table whose entries are all used holds that many addresses. */
  lemma FullSize(c: seq<Entry>)
    requires Good(c) && forall i :: 0 <= i < |c| ==> c[i].used
    ensures |Table(c)| == TABLE_SIZE
  {
    var ips := seq(|c|, i requires 0 <= i < |c| => c[i].ip);
    NoDupSize(ips);
    forall x
      ensures x in Table(c).Keys <==> x in ips
    {
      if x in Table(c) { var i := SlotOf(c, x); assert ips[i] == x; }
    }
    assert Table(c).Keys == set x | x in ips;
  }

  /** The specification of `arp_table_update_or_insert`: a known address is refreshed in
      place; a new one takes a free or stale slot; a table full of fresh entries refuses
      it and does not change. */
  ghost predicate Updated(t: map<Ip, Rec>, t': map<Ip, Rec>, ip: Ip, mac: Mac, now: nat, r: Outcome) {
    match r
    case Refreshed => ip in t && t' == t[ip := Rec(mac, now)]
    case Inserted =>
      ip !in t && exists gone: set<Ip> ::
        && gone <= t.Keys && |gone| <= 1 && (forall x :: x in gone ==> Stale(t[x].added, now))
        && t' == (t - gone)[ip := Rec(mac, now)]
    case NoRoom => ip !in t && t' == t && |t| == TABLE_SIZE && forall x :: x in t ==> !Stale(t[x].added, now)
  }

  class Arp {
    var table: seq<Entry>

    ghost predicate Valid()
      reads this
    {
      Good(table)
    }

    constructor ()
      ensures Valid() && Table(table) == map[]
    {
      table := seq(TABLE_SIZE, _ => Entry(0, false, 0, 0, 0));
      new;
      assert forall i :: 0 <= i < |table| ==> !table[i].used;
    }

    method Store(i: nat, ip: Ip, mac: Mac, now: nat)
      requires Valid() && i < |table|
      requires forall j :: 0 <= j < |table| && j != i && table[j].used ==> table[j].ip != ip
      modifies this
      ensures Valid() && Table(table) == old(After(table, i, ip, Rec(mac, now)))
    {
      var e := Entry((table[i].seqno + 2) % U32, true, ip, mac, now);
      assert Good(table[i := e]);
      StoreTable(table, i, e);
      table := table[i := e];
    }

    method UpdateOrInsert(ip: Ip, mac: Mac, now: nat) returns (r: Outcome)
      requires Valid()
      modifies this
      ensures Valid() && Updated(old(Table(table)), Table(table), ip, mac, now, r)
    {
      var i := Find(ip);
      if i < TABLE_SIZE {
        TableAt(table, i);
        Store(i, ip, mac, now);
        return Refreshed;
      }
      i := FindRoom(now);
      if i == TABLE_SIZE {
        FullSize(table);
        forall x | x in Table(table)
          ensures !Stale(Table(table)[x].added, now)
        {
          var j := SlotOf(table, x);
        }
        return NoRoom;
      }
      ghost var gone: set<Ip> := if table[i].used then {table[i].ip} else {};
      if table[i].used {
        TableAt(table, i);
      }
      Store(i, ip, mac, now);
      assert Table(table) == (old(Table(table)) - gone)[ip := Rec(mac, now)];
      return Inserted;
    }

    method Find(ip: Ip) returns (i: nat)
      requires Valid()
      ensures i <= TABLE_SIZE && forall j :: 0 <= j < i ==> !(table[j].used && table[j].ip == ip)
      ensures i < TABLE_SIZE ==> table[i].used && table[i].ip == ip
      ensures i == TABLE_SIZE ==> ip !in Table(table)
    {
      i := 0;
      while i < TABLE_SIZE && !(table[i].used && table[i].ip == ip)
        invariant i <= TABLE_SIZE
        invariant forall j :: 0 <= j < i ==> !(table[j].used && table[j].ip == ip)
      {
        i := i + 1;
      }
    }

    method FindRoom(now: nat) returns (i: nat)
      requires Valid()
      ensures i <= TABLE_SIZE && (i < TABLE_SIZE ==> !table[i].used || Stale(table[i].added, now))
      ensures i == TABLE_SIZE ==> forall j :: 0 <= j < |table| ==> table[j].used && !Stale(table[j].added, now)
    {
      i := 0;
      while i < TABLE_SIZE && table[i].used && !Stale(table[i].added, now)
        invariant i <= TABLE_SIZE
        invariant forall j :: 0 <= j < i ==> table[j].used && !Stale(table[j].added, now)
      {
        i := i + 1;
      }
    }

    /** `arp_lookup_mac_addr`: the fresh entry of the address, if any. */
    method Lookup(ip: Ip, now: nat) returns (r: Option<Mac>)
      requires Valid()
      ensures var t := Table(table);
              r == if ip in t && !Stale(t[ip].added, now) then Some(t[ip].mac) else None
    {
      var i := 0;
      while i < TABLE_SIZE
        invariant i <= TABLE_SIZE
        invariant forall j :: 0 <= j < i ==> !(table[j].used && table[j].ip == ip && !Stale(table[j].added, now))
      {
        if table[i].used && !Stale(table[i].added, now) && table[i].ip == ip {
          TableAt(table, i);
          return Some(table[i].mac);
        }
        i := i + 1;
      }
      if ip in Table(table) {
        ghost var j := SlotOf(table, ip);
      }
      return None;
    }
  }

  /** A clock reading dt milliseconds later, on the 64-bit clock. */
  function Later(now: nat, dt: nat): nat {
    (now + dt) % U64
  }

  /** An entry is stale from twenty minutes on, also when the clock wraps meanwhile. */
  lemma StaleFrom(now: nat, dt: nat)
    requires now < U64 && dt < U64
    ensures Stale(now, Later(now, dt)) <==> dt >= 20 * 60 * 1000
  {
    assert (Later(now, dt) - now) % U64 == dt;
  }

  /** What was learnt is answered for exactly twenty minutes. */
  method LearnThenLookup(arp: Arp, ip: Ip, mac: Mac, now: nat, dt: nat) returns (learnt: Outcome, r: Option<Mac>)
    requires arp.Valid() && now < U64 && dt < U64
    modifies arp
    ensures arp.Valid()
    ensures !learnt.NoRoom? ==> r == if dt < 20 * 60 * 1000 then Some(mac) else None
  {
    learnt := arp.UpdateOrInsert(ip, mac, now);
    StaleFrom(now, dt);
    r := arp.Lookup(ip, Later(now, dt));
  }
}
