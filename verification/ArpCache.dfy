/** The ARP cache: sixteen slots, circular insertion, and what it says about the updates it has seen. */
module ArpCache {
  import opened Bytes

  const SIZE: nat := 16
  const TTL: nat := 3000

  type Ip = a: seq<byte> | |a| == 4 witness Zeros(4)
  type Mac = a: seq<byte> | |a| == 6 witness Zeros(6)

  datatype Slot = Slot(valid: bool, ip: Ip, mac: Mac, time: u64)

  /** `wrapping_sub` of two tick counts. */
  function Age(now: u64, time: u64): nat { (now - time) % 0x1_0000_0000_0000_0000 }

  /** The slots and the number of insertions so far. */
  datatype Cache = Cache(slots: seq<Slot>, next: nat)

  predicate Wf(c: Cache) { |c.slots| == SIZE }

  /** The first valid slot for an address, from `i` on, or the size. */
  function FindFrom(c: Cache, ip: Ip, i: nat): (r: nat)
    requires Wf(c) && i <= SIZE
    ensures i <= r <= SIZE && (r < SIZE ==> c.slots[r].valid && c.slots[r].ip == ip)
    ensures forall k :: i <= k < r ==> !(c.slots[k].valid && c.slots[k].ip == ip)
    decreases SIZE - i
  {
    if i == SIZE || (c.slots[i].valid && c.slots[i].ip == ip) then i else FindFrom(c, ip, i + 1)
  }

  datatype Answer = Answer(cache: Cache, mac: Option<Mac>)

  /** `cache_lookup` from slot `i` on: a fresh entry answers, stale ones are dropped on the way. */
  function LookupFrom(c: Cache, ip: Ip, now: u64, i: nat): (r: Answer)
    requires Wf(c) && i <= SIZE
    ensures Wf(r.cache) && r.cache.next == c.next
    decreases SIZE - i
  {
    var k := FindFrom(c, ip, i);
    if k == SIZE then Answer(c, None)
    else if Age(now, c.slots[k].time) < TTL then Answer(c, Some(c.slots[k].mac))
    else LookupFrom(c.(slots := c.slots[k := c.slots[k].(valid := false)]), ip, now, k + 1)
  }

  function Lookup(c: Cache, ip: Ip, now: u64): (r: Answer)
    requires Wf(c)
    ensures Wf(r.cache)
  {
    LookupFrom(c, ip, now, 0)
  }

  /** `cache_update`: in place if the address has a valid entry, else into the next slot of the circle. */
  function Update(c: Cache, ip: Ip, mac: Mac, now: u64): (r: Cache)
    requires Wf(c)
    ensures Wf(r)
  {
    var k := FindFrom(c, ip, 0);
    if k < SIZE then c.(slots := c.slots[k := c.slots[k].(mac := mac, time := now)])
    else Cache(c.slots[c.next % SIZE := Slot(true, ip, mac, now)], c.next + 1)
  }

  // ---- The history ---------------------------------------------------------------------------------------

  datatype Event = UpdateEvent(ip: Ip, mac: Mac, time: u64) | LookupEvent(ip: Ip, time: u64)

  /** The latest update of each address. */
  datatype Seen = Seen(mac: Mac, time: u64)

  type History = map<Ip, Seen>

  function Step(c: Cache, e: Event): (r: Cache)
    requires Wf(c)
    ensures Wf(r)
  {
    match e
    case UpdateEvent(ip, mac, time) => Update(c, ip, mac, time)
    case LookupEvent(ip, time) => Lookup(c, ip, time).cache
  }

  function Record(h: History, e: Event): History {
    match e case UpdateEvent(ip, mac, time) => h[ip := Seen(mac, time)] case LookupEvent(_, _) => h
  }

  ghost predicate OnePerIp(c: Cache)
    requires Wf(c)
  {
    forall i, j :: 0 <= i < j < SIZE && c.slots[i].valid && c.slots[j].valid ==> c.slots[i].ip != c.slots[j].ip
  }

  /** Every valid entry is the latest update of its address. */
  ghost predicate Latest(c: Cache, h: History)
    requires Wf(c)
  {
    forall i :: 0 <= i < SIZE && c.slots[i].valid ==>
      c.slots[i].ip in h && h[c.slots[i].ip] == Seen(c.slots[i].mac, c.slots[i].time)
  }

  ghost predicate Inv(c: Cache, h: History) { Wf(c) && OnePerIp(c) && Latest(c, h) }

  lemma UpdateInv(c: Cache, h: History, ip: Ip, mac: Mac, now: u64)
    requires Inv(c, h)
    ensures Inv(Update(c, ip, mac, now), h[ip := Seen(mac, now)])
  {
    var k := FindFrom(c, ip, 0);
    if k < SIZE {
      PutInv(c, h, ip, mac, now, k, c.(slots := c.slots[k := Slot(true, ip, mac, now)]));
    } else {
      var n := c.next % SIZE;
      PutInv(c, h, ip, mac, now, n, Cache(c.slots[n := Slot(true, ip, mac, now)], c.next + 1));
    }
  }

  /** A new entry in a slot of its own address or of another, when no other slot has the address. */
  lemma PutInv(c: Cache, h: History, ip: Ip, mac: Mac, now: u64, k: nat, r: Cache)
    requires Inv(c, h) && k < SIZE && r.slots == c.slots[k := Slot(true, ip, mac, now)]
    requires forall i :: 0 <= i < SIZE && i != k && c.slots[i].valid ==> c.slots[i].ip != ip
    ensures Inv(r, h[ip := Seen(mac, now)])
  {
  }

  /** Dropping an entry keeps everything. */
  lemma DropInv(c: Cache, h: History, k: nat)
    requires Inv(c, h) && k < SIZE
    ensures Inv(c.(slots := c.slots[k := c.slots[k].(valid := false)]), h)
  {
  }

  /** A lookup changes nothing but the stale entry of its address, and answers exactly from a fresh entry. */
  lemma LookupExact(c: Cache, h: History, ip: Ip, now: u64)
    requires Inv(c, h)
    ensures var r := Lookup(c, ip, now); var k := FindFrom(c, ip, 0);
            && Inv(r.cache, h)
            && (r.mac.Some? <==> k < SIZE && Age(now, c.slots[k].time) < TTL)
            && (r.mac.Some? ==> r.cache == c && r.mac.value == c.slots[k].mac)
            && (r.mac.None? ==> r.cache == if k == SIZE then c else c.(slots := c.slots[k := c.slots[k].(valid := false)]))
  {
    var k := FindFrom(c, ip, 0);
    if k < SIZE && Age(now, c.slots[k].time) >= TTL {
      DropInv(c, h, k);
      var c1 := c.(slots := c.slots[k := c.slots[k].(valid := false)]);
      assert FindFrom(c1, ip, k + 1) == SIZE;
    }
  }

  /** A hit is the MAC of the latest update of that address, made less than 3000 ticks ago. */
  lemma HitIsLatest(c: Cache, h: History, ip: Ip, now: u64)
    requires Inv(c, h) && Lookup(c, ip, now).mac.Some?
    ensures ip in h && Lookup(c, ip, now).mac.value == h[ip].mac
    ensures h[ip].time <= now ==> now - h[ip].time < TTL
  {
    LookupExact(c, h, ip, now);
  }

  // ---- Whole runs -----------------------------------------------------------------------------------------------

  ghost predicate IsRun(cs: seq<Cache>, hs: seq<History>, es: seq<Event>) {
    && |cs| == |es| + 1 && |hs| == |es| + 1
    && (forall n :: 0 <= n < |es| ==> Wf(cs[n]) && cs[n + 1] == Step(cs[n], es[n]) && hs[n + 1] == Record(hs[n], es[n]))
  }

  lemma StepInv(c: Cache, h: History, e: Event)
    requires Inv(c, h)
    ensures Inv(Step(c, e), Record(h, e))
  {
    match e
    case UpdateEvent(ip, mac, time) => UpdateInv(c, h, ip, mac, time);
    case LookupEvent(ip, time) => LookupExact(c, h, ip, time);
  }

  function Empty(): Cache { Cache(seq(SIZE, _ => Slot(false, Zeros(4), Zeros(6), 0)), 0) }

  lemma EmptyInv()
    ensures Inv(Empty(), map[])
  {
  }

  /** From the empty cache, over every run, at most one valid entry exists per address, and it is the latest update
      of that address. */
  lemma {:induction false} CacheOverRuns(cs: seq<Cache>, hs: seq<History>, es: seq<Event>, n: nat)
    requires IsRun(cs, hs, es) && n < |cs| && cs[0] == Empty() && hs[0] == map[]
    ensures Inv(cs[n], hs[n])
  {
    if n == 0 {
      EmptyInv();
    } else {
      CacheOverRuns(cs, hs, es, n - 1);
      StepInv(cs[n - 1], hs[n - 1], es[n - 1]);
      assert cs[n - 1 + 1] == Step(cs[n - 1], es[n - 1]) && hs[n - 1 + 1] == Record(hs[n - 1], es[n - 1]);
    }
  }

  // ---- How long an entry stays ---------------------------------------------------------------------------------------

  /** The entry of `ip` lies in the slot of insertion number `j`. */
  ghost predicate Sits(c: Cache, ip: Ip, j: nat) {
    Wf(c) && j < c.next && c.slots[j % SIZE].valid && c.slots[j % SIZE].ip == ip
  }

  /** The event does not find the entry of `ip` stale. */
  ghost predicate Spares(h: History, e: Event, ip: Ip) {
    e.LookupEvent? && e.ip == ip ==> ip in h && Age(e.time, h[ip].time) < TTL
  }

  /** No event between `m` and `n` finds the entry stale. */
  ghost predicate SparedBetween(hs: seq<History>, es: seq<Event>, m: nat, n: nat, ip: Ip) {
    n <= |es| && n <= |hs| && forall i {:trigger Spares(hs[i], es[i], ip)} :: m < i < n ==> Spares(hs[i], es[i], ip)
  }

  lemma SitsIsFound(c: Cache, h: History, ip: Ip, j: nat)
    requires Inv(c, h) && Sits(c, ip, j)
    ensures FindFrom(c, ip, 0) == j % SIZE && ip in h && h[ip] == Seen(c.slots[j % SIZE].mac, c.slots[j % SIZE].time)
  {
    assert FindFrom(c, ip, 0) == j % SIZE;
  }

  lemma UpdateKeeps(c: Cache, ip: Ip, j: nat, x: Ip, mac: Mac, now: u64)
    requires Sits(c, ip, j) && Update(c, x, mac, now).next <= j + SIZE
    ensures Sits(Update(c, x, mac, now), ip, j)
  {
    if FindFrom(c, x, 0) == SIZE { SlotsApart(j, c.next); }
  }

  lemma LookupKeeps(c: Cache, h: History, ip: Ip, j: nat, x: Ip, now: u64)
    requires Inv(c, h) && Sits(c, ip, j) && Spares(h, LookupEvent(x, now), ip)
    ensures Sits(Lookup(c, x, now).cache, ip, j)
  {
    LookupExact(c, h, x, now);
    SitsIsFound(c, h, ip, j);
  }

  /** A step leaves the entry in place, unless it is the sixteenth insertion after its own, or finds the entry stale. */
  lemma StepKeeps(c: Cache, h: History, e: Event, ip: Ip, j: nat)
    requires Inv(c, h) && Sits(c, ip, j) && Step(c, e).next <= j + SIZE && Spares(h, e, ip)
    ensures Sits(Step(c, e), ip, j)
  {
    match e
    case UpdateEvent(x, mac, now) => UpdateKeeps(c, ip, j, x, mac, now);
    case LookupEvent(x, now) => LookupKeeps(c, h, ip, j, x, now);
  }

  lemma SlotsApart(j: nat, next: nat)
    requires j < next < j + SIZE
    ensures j % SIZE != next % SIZE
  {
  }

  lemma NextGrows(c: Cache, e: Event)
    requires Wf(c)
    ensures c.next <= Step(c, e).next
  {
  }

  /** Event number `m` inserts an entry for `ip`. */
  ghost predicate Inserts(cs: seq<Cache>, es: seq<Event>, m: nat, ip: Ip) {
    && m < |es| && m < |cs| && Wf(cs[m])
    && es[m].UpdateEvent? && es[m].ip == ip && FindFrom(cs[m], ip, 0) == SIZE
  }

  lemma EntryStays(cs: seq<Cache>, hs: seq<History>, es: seq<Event>, m: nat, n: nat, ip: Ip)
    requires IsRun(cs, hs, es) && cs[0] == Empty() && hs[0] == map[] && m < n < |cs| && Inserts(cs, es, m, ip)
    requires Wf(cs[n]) && cs[n].next <= cs[m].next + SIZE && SparedBetween(hs, es, m, n, ip)
    ensures Sits(cs[n], ip, cs[m].next)
  {
    InsertedSits(cs[m], es[m], ip);
    forall i | m < i < n ensures Passes(cs, ip, cs[m].next, i) {
      assert Spares(hs[i], es[i], ip);
      CacheOverRuns(cs, hs, es, i);
      NextOverRuns(cs, hs, es, i + 1, n);
      if Sits(cs[i], ip, cs[m].next) { StepKeeps(cs[i], hs[i], es[i], ip, cs[m].next); }
    }
    Carried(cs, ip, cs[m].next, m + 1, n);
  }

  /** Event number `i` leaves the entry in place. */
  ghost predicate Passes(cs: seq<Cache>, ip: Ip, j: nat, i: nat) {
    i + 1 < |cs| && (Sits(cs[i], ip, j) ==> Sits(cs[i + 1], ip, j))
  }

  lemma {:induction false} Carried(cs: seq<Cache>, ip: Ip, j: nat, m: nat, n: nat)
    requires m <= n < |cs| && Sits(cs[m], ip, j) && forall i :: m <= i < n ==> Passes(cs, ip, j, i)
    ensures Sits(cs[n], ip, j)
  {
    if m < n {
      Carried(cs, ip, j, m, n - 1);
      assert Passes(cs, ip, j, n - 1);
    }
  }

  lemma {:induction false} NextOverRuns(cs: seq<Cache>, hs: seq<History>, es: seq<Event>, i: nat, n: nat)
    requires IsRun(cs, hs, es) && i <= n < |cs|
    ensures cs[i].next <= cs[n].next
  {
    if i < n {
      NextOverRuns(cs, hs, es, i, n - 1);
      NextGrows(cs[n - 1], es[n - 1]);
    }
  }

  lemma InsertedSits(c: Cache, e: Event, ip: Ip)
    requires Wf(c) && e.UpdateEvent? && e.ip == ip && FindFrom(c, ip, 0) == SIZE
    ensures Sits(Step(c, e), ip, c.next)
  {
  }

  /** An entry that has stayed fresh is lost only to the sixteenth later insertion: in every run from the empty cache,
      whatever the clock does, as long as no lookup has found the entry stale and fewer than sixteen insertions came
      after its own, a lookup answers with the latest MAC exactly while the latest update is less than 3000 ticks old. */
  lemma FreshEntriesStay(cs: seq<Cache>, hs: seq<History>, es: seq<Event>, m: nat, n: nat, ip: Ip, now: u64)
    requires IsRun(cs, hs, es) && cs[0] == Empty() && hs[0] == map[] && m < n < |cs| && Inserts(cs, es, m, ip)
    requires cs[n].next - (cs[m].next + 1) < SIZE && SparedBetween(hs, es, m, n, ip)
    ensures Wf(cs[n]) && ip in hs[n]
    ensures Lookup(cs[n], ip, now).mac == if Age(now, hs[n][ip].time) < TTL then Some(hs[n][ip].mac) else None
  {
    CacheOverRuns(cs, hs, es, n);
    EntryStays(cs, hs, es, m, n, ip);
    SitsIsFound(cs[n], hs[n], ip, cs[m].next);
    LookupExact(cs[n], hs[n], ip, now);
  }

  /** The sixteenth later insertion takes the entry's slot: just after it, the address is unknown. */
  lemma SixteenthEvicts(cs: seq<Cache>, hs: seq<History>, es: seq<Event>, m: nat, n: nat, ip: Ip, x: Ip, now: u64)
    requires IsRun(cs, hs, es) && cs[0] == Empty() && hs[0] == map[] && m < n && Inserts(cs, es, m, ip) && Inserts(cs, es, n, x)
    requires cs[n].next == cs[m].next + SIZE && SparedBetween(hs, es, m, n, ip)
    ensures ip != x && Wf(cs[n + 1]) && Lookup(cs[n + 1], ip, now).mac == None
  {
    CacheOverRuns(cs, hs, es, n);
    EntryStays(cs, hs, es, m, n, ip);
    SitsIsFound(cs[n], hs[n], ip, cs[m].next);
    SlotsMeet(cs[m].next);
    SlotTaken(cs[n], hs[n], ip, es[n]);
  }

  lemma SlotTaken(c: Cache, h: History, ip: Ip, e: Event)
    requires Inv(c, h) && e.UpdateEvent? && FindFrom(c, e.ip, 0) == SIZE && FindFrom(c, ip, 0) == c.next % SIZE
    ensures ip != e.ip && FindFrom(Step(c, e), ip, 0) == SIZE
  {
    var at, r := c.next % SIZE, Step(c, e);
    forall i | 0 <= i < SIZE && i != at && c.slots[i].valid ensures c.slots[i].ip != ip {
      if i < at { assert c.slots[i].ip != c.slots[at].ip; } else { assert c.slots[at].ip != c.slots[i].ip; }
    }
  }

  lemma SlotsMeet(j: nat)
    ensures (j + SIZE) % SIZE == j % SIZE
  {
  }

  /** An insertion takes the next slot of the circle even if it is in use and others are free: the entry of `x` goes
      if and only if it lies in that slot. */
  lemma InsertionEvicts(c: Cache, h: History, ip: Ip, mac: Mac, now: u64, k: nat)
    requires Inv(c, h) && FindFrom(c, ip, 0) == SIZE && k < SIZE && c.slots[k].valid
    ensures Update(c, ip, mac, now).slots[k] == c.slots[k] <==> k != c.next % SIZE
  {
  }

  /** Sixteen insertions, fifteen of them dropped as stale since, and one entry refreshed: the next insertion evicts
      the only fresh entry. */
  lemma EvictsFreshEntry(c: Cache, ip: Ip, other: Ip, mac: Mac, now: u64)
    requires Wf(c) && c.next == SIZE && ip != other && c.slots[0] == Slot(true, other, mac, now)
    requires forall i :: 1 <= i < SIZE ==> !c.slots[i].valid
    ensures Lookup(c, other, now).mac == Some(mac)
    ensures Lookup(Update(c, ip, mac, now), other, now).mac == None
  {
    assert FindFrom(c, other, 0) == 0;
    assert FindFrom(c, ip, 0) == SIZE;
    var r := Update(c, ip, mac, now);
    assert FindFrom(r, other, 0) == SIZE;
  }

  /** One turn of the lookup loop. */
  lemma LookupTurn(c: Cache, ip: Ip, now: u64, i: nat)
    requires Wf(c) && i < SIZE
    ensures var s := c.slots[i];
            LookupFrom(c, ip, now, i) ==
              if !(s.valid && s.ip == ip) then LookupFrom(c, ip, now, i + 1)
              else if Age(now, s.time) < TTL then Answer(c, Some(s.mac))
              else LookupFrom(c.(slots := c.slots[i := s.(valid := false)]), ip, now, i + 1)
  {
  }

  // ---- The cache in its own form -----------------------------------------------------------------------------------------

  class ArpTable {
    var slots: seq<Slot>
    var next: nat

    ghost function Value(): Cache
      reads this
    {
      Cache(slots, next)
    }

    ghost predicate Valid()
      reads this
    {
      Wf(Value())
    }

    constructor ()
      ensures Valid() && Value() == Empty()
    {
      slots := seq(SIZE, _ => Slot(false, Zeros(4), Zeros(6), 0));
      next := 0;
    }

    method CacheLookup(ip: Ip, now: u64) returns (r: Option<Mac>)
      requires Valid()
      modifies this`slots
      ensures Valid() && Lookup(old(Value()), ip, now) == Answer(Value(), r)
    {
      var i := 0;
      while i < SIZE
        invariant 0 <= i <= SIZE && Valid()
        invariant LookupFrom(Value(), ip, now, i) == Lookup(old(Value()), ip, now)
      {
        LookupTurn(Value(), ip, now, i);
        if slots[i].valid && slots[i].ip == ip {
          if Age(now, slots[i].time) < TTL { return Some(slots[i].mac); }
          slots := slots[i := slots[i].(valid := false)];
        }
        i := i + 1;
      }
      r := None;
    }

    method CacheUpdate(ip: Ip, mac: Mac, now: u64)
      requires Valid()
      modifies this
      ensures Valid() && Value() == Update(old(Value()), ip, mac, now)
    {
      var i := 0;
      while i < SIZE
        invariant 0 <= i <= SIZE && Value() == old(Value()) && FindFrom(Value(), ip, i) == FindFrom(Value(), ip, 0)
      {
        if slots[i].valid && slots[i].ip == ip {
          slots := slots[i := slots[i].(mac := mac, time := now)];
          return;
        }
        i := i + 1;
      }
      slots := slots[next % SIZE := Slot(true, ip, mac, now)];
      next := next + 1;
    }
  }
}
