/** The two-level ARP cache of layer_arp.cpp: eight slots with 3-bit ages over a 256-slot table scanned from slot 0.
    The abstract value of the first level is the list of its entries in the order of their ages, most recently
    touched first. */
module Arp {
  import opened Bytes
  import opened Layout

  const L1_SIZE: nat := 8
  const L2_SIZE: nat := 256

  datatype Slot = Slot(ip: word, mac: mac, valid: bool)

  datatype Entry = Entry(ip: word, mac: mac)

  /** The abstract cache: l1 in age order, l2 in table order. */
  datatype Cache = Cache(l1: seq<Entry>, l2: seq<Entry>)

  const EMPTY: Cache := Cache([], [])

  /** Position of the first entry for ip, or the length of the list. */
  function Find(s: seq<Entry>, ip: word): (p: nat)
    ensures p <= |s|
    ensures p < |s| ==> s[p].ip == ip
    ensures forall i :: 0 <= i < p ==> s[i].ip != ip
  {
    if s == [] || s[0].ip == ip then 0 else 1 + Find(s[1..], ip)
  }

  lemma {:induction false} FindIs(s: seq<Entry>, ip: word, p: nat)
    requires p < |s| && s[p].ip == ip && forall i :: 0 <= i < p ==> s[i].ip != ip
    ensures Find(s, ip) == p
  {
    if p > 0 {
      assert s[0].ip != ip;
      FindIs(s[1..], ip, p - 1);
    }
  }

  predicate Has(s: seq<Entry>, ip: word) { Find(s, ip) < |s| }

  /** Entry p was used: it becomes the newest, those that were newer age by one. */
  function Touch(s: seq<Entry>, p: nat, e: Entry): seq<Entry>
    requires p < |s|
  {
    [e] + s[..p] + s[p + 1..]
  }

  /** A new first-level entry; a full first level gives up its oldest, which the table keeps if it has room. */
  function Insert(c: Cache, e: Entry): Cache {
    if |c.l1| < L1_SIZE then c.(l1 := [e] + c.l1)
    else Cache([e] + c.l1[..|c.l1| - 1], if |c.l2| < L2_SIZE then c.l2 + [c.l1[|c.l1| - 1]] else c.l2)
  }

  function Learn(c: Cache, ip: word, mac: mac): Cache {
    var p := Find(c.l1, ip);
    if p < |c.l1| then c.(l1 := Touch(c.l1, p, Entry(ip, mac))) else Insert(c, Entry(ip, mac))
  }

  /** What a lookup answers. */
  function Answer(c: Cache, ip: word): Option<mac> {
    if Has(c.l1, ip) then Some(c.l1[Find(c.l1, ip)].mac)
    else if Has(c.l2, ip) then Some(c.l2[Find(c.l2, ip)].mac)
    else None
  }

  /** What a lookup does to the cache: a hit is touched, a second-level hit promoted. */
  function AfterLookup(c: Cache, ip: word): Cache {
    if Has(c.l1, ip) then
      var p := Find(c.l1, ip);
      c.(l1 := Touch(c.l1, p, c.l1[p]))
    else if Has(c.l2, ip) then Insert(c, Entry(ip, c.l2[Find(c.l2, ip)].mac))
    else c
  }

  /** A lookup does not change its own answer. */
  lemma AnswerAgain(c: Cache, ip: word)
    ensures Answer(AfterLookup(c, ip), ip) == Answer(c, ip)
  {
    var d := AfterLookup(c, ip);
    if Answer(c, ip).Some? {
      FindIs(d.l1, ip, 0);
    }
  }

  // ---------------------------------------------------------------- ages

  /** order lists the k valid slots by age: they are slots 0..k-1, hold the ages 0..k-1 once each, and every slot not
      yet in use holds age k. */
  predicate Exact(ages: seq<nat>, order: seq<nat>) {
    && |ages| == L1_SIZE && |order| <= L1_SIZE
    && (forall i :: 0 <= i < |order| ==> ages[i] < |order| && order[ages[i]] == i)
    && (forall a :: 0 <= a < |order| ==> order[a] < |order| && ages[order[a]] == a)
    && (forall i :: |order| <= i < L1_SIZE ==> ages[i] == |order|)
  }

  /** l1_lru_touch on 3-bit ages: those not older than the touched one grow by one, modulo 8. */
  function Aged(ages: seq<nat>, idx: nat): (r: seq<nat>)
    requires idx < |ages|
    ensures |r| == |ages|
  {
    seq(|ages|, i requires 0 <= i < |ages| =>
      if i == idx then 0 else if ages[i] <= ages[idx] then (ages[i] + 1) % 8 else ages[i])
  }

  function MoveToFront(order: seq<nat>, a: nat): (r: seq<nat>)
    requires a < |order|
    ensures |r| == |order|
  {
    seq(|order|, b requires 0 <= b < |order| =>
      if b == 0 then order[a] else if b <= a then order[b - 1] else order[b])
  }

  /** Touching a valid slot moves it to the front of the recency order; no age wraps. */
  lemma TouchExact(ages: seq<nat>, order: seq<nat>, idx: nat)
    requires Exact(ages, order) && idx < |order|
    ensures Exact(Aged(ages, idx), MoveToFront(order, ages[idx]))
  {
    var a := ages[idx];
    var o := MoveToFront(order, a);
    var r := Aged(ages, idx);
    forall b | 0 <= b < |o| ensures o[b] < |o| && r[o[b]] == b {
      if 0 < b <= a {
        assert ages[order[b - 1]] == b - 1;
      }
    }
    forall i | 0 <= i < |o| ensures r[i] < |o| && o[r[i]] == i {
      if i != idx {
        assert order[ages[i]] == i && ages[i] != a;
      }
    }
  }

  /** Putting the first unused slot in use and touching it makes it the newest of k + 1. */
  lemma GrowExact(ages: seq<nat>, order: seq<nat>)
    requires Exact(ages, order) && |order| < L1_SIZE
    ensures Exact(Aged(ages, |order|), [|order|] + order)
  {
    var k := |order|;
    var r := Aged(ages, k);
    forall i | 0 <= i < k ensures r[i] == ages[i] + 1 {
    }
  }

  // ---------------------------------------------------------------- the first level as slots and ages

  /** The invariant of the first level: exact ages, a prefix of valid slots, no address twice. */
  predicate Sound(slots: seq<Slot>, ages: seq<nat>, order: seq<nat>) {
    && |slots| == L1_SIZE && |order| <= L1_SIZE && |ages| == L1_SIZE && Exact(ages, order)
    && (forall i :: 0 <= i < L1_SIZE ==> (slots[i].valid <==> i < |order|))
    && (forall i, j :: 0 <= i < j < |order| ==> slots[i].ip != slots[j].ip)
  }

  predicate InRange(slots: seq<Slot>, order: seq<nat>) {
    forall a :: 0 <= a < |order| ==> order[a] < |slots|
  }

  /** The valid slots, newest first. */
  function InOrder(slots: seq<Slot>, order: seq<nat>): (s: seq<Entry>)
    requires InRange(slots, order)
    ensures |s| == |order|
  {
    seq(|order|, a requires 0 <= a < |order| => Entry(slots[order[a]].ip, slots[order[a]].mac))
  }

  /** The used prefix of the table. */
  function Rows(table: seq<Slot>, filled: nat): (s: seq<Entry>)
    requires filled <= |table|
    ensures |s| == filled
  {
    seq(filled, i requires 0 <= i < filled => Entry(table[i].ip, table[i].mac))
  }

  predicate TableSound(table: seq<Slot>, filled: nat) {
    |table| == L2_SIZE && filled <= L2_SIZE && forall i :: 0 <= i < L2_SIZE ==> (table[i].valid <==> i < filled)
  }

  lemma OrderFacts(ages: seq<nat>, order: seq<nat>)
    requires Exact(ages, order)
    ensures forall b :: 0 <= b < |order| ==> order[b] < |order| <= |ages|
    ensures forall i :: 0 <= i < |order| ==> ages[i] < |order| && order[ages[i]] == i
    ensures forall b, i :: 0 <= i < |order| && 0 <= b < |order| && b != ages[i] ==> order[b] != i
  {
  }

  /** Rewriting a valid slot and touching it: whatever its entry becomes is the newest of the list. */
  lemma TouchSound(slots: seq<Slot>, ages: seq<nat>, order: seq<nat>, idx: nat, e: Entry)
    requires Sound(slots, ages, order) && idx < |order|
    requires forall i :: 0 <= i < |order| && i != idx ==> slots[i].ip != e.ip
    ensures InRange(slots, order) && ages[idx] < |order|
    ensures Sound(slots[idx := Slot(e.ip, e.mac, true)], Aged(ages, idx), MoveToFront(order, ages[idx]))
    ensures InOrder(slots[idx := Slot(e.ip, e.mac, true)], MoveToFront(order, ages[idx]))
         == Touch(InOrder(slots, order), ages[idx], e)
  {
    OrderFacts(ages, order);
    TouchExact(ages, order, idx);
    hide Exact, Aged;
    var slots' := slots[idx := Slot(e.ip, e.mac, true)];
    var a := ages[idx];
    var order' := MoveToFront(order, a);
    forall b | 0 <= b < |order'| ensures order'[b] < |order'| {
    }
    forall b | 0 <= b < |order'|
      ensures InOrder(slots', order')[b] == Touch(InOrder(slots, order), a, e)[b]
    {
    }
  }

  lemma GrowSound(slots: seq<Slot>, ages: seq<nat>, order: seq<nat>, e: Entry)
    requires Sound(slots, ages, order) && |order| < L1_SIZE
    requires forall i :: 0 <= i < |order| ==> slots[i].ip != e.ip
    ensures InRange(slots, order)
    ensures Sound(slots[|order| := Slot(e.ip, e.mac, true)], Aged(ages, |order|), [|order|] + order)
    ensures InOrder(slots[|order| := Slot(e.ip, e.mac, true)], [|order|] + order) == [e] + InOrder(slots, order)
  {
    OrderFacts(ages, order);
    GrowExact(ages, order);
    hide Exact, Aged;
  }

  /** Where a slot stands in the list. */
  lemma SlotPosition(slots: seq<Slot>, ages: seq<nat>, order: seq<nat>, i: nat)
    requires Sound(slots, ages, order) && i < |order|
    ensures InRange(slots, order)
    ensures ages[i] < |order| && Find(InOrder(slots, order), slots[i].ip) == ages[i]
    ensures InOrder(slots, order)[ages[i]] == Entry(slots[i].ip, slots[i].mac)
  {
    OrderFacts(ages, order);
    hide Exact;
    forall b | 0 <= b < ages[i] ensures InOrder(slots, order)[b].ip != slots[i].ip {
      var j := order[b];
      assert j != i;
    }
    FindIs(InOrder(slots, order), slots[i].ip, ages[i]);
  }

  lemma Absent(slots: seq<Slot>, ages: seq<nat>, order: seq<nat>, ip: word)
    requires Sound(slots, ages, order) && forall i :: 0 <= i < |order| ==> slots[i].ip != ip
    ensures InRange(slots, order) && !Has(InOrder(slots, order), ip)
  {
    OrderFacts(ages, order);
    forall a | 0 <= a < |order| ensures InOrder(slots, order)[a].ip != ip {
    }
  }

  class ArpCache {
    const l1: array<Slot>
    const age: array<nat>   // 3-bit in the source; Aged spells out the wrap-around
    const l2: array<Slot>
    /** The valid slots by age, newest first. */
    ghost var order: seq<nat>
    /** How many table slots are in use. */
    ghost var filled: nat

    ghost predicate Valid()
      reads this, l1, age, l2
    {
      && l1 != l2 && l1.Length == L1_SIZE && age.Length == L1_SIZE && l2.Length == L2_SIZE
      && |order| <= L1_SIZE && filled <= L2_SIZE && InRange(l1[..], order)
      && Sound(l1[..], age[..], order) && TableSound(l2[..], filled)
    }

    ghost function Value(): Cache
      requires Valid()
      reads this, l1, age, l2
    {
      Cache(InOrder(l1[..], order), Rows(l2[..], filled))
    }

    constructor ()
      ensures Valid() && Value() == EMPTY
      ensures fresh(l1) && fresh(age) && fresh(l2)
    {
      l1 := new Slot[L1_SIZE](_ => Slot(0, 0, false));
      age := new nat[L1_SIZE](_ => 0);
      l2 := new Slot[L2_SIZE](_ => Slot(0, 0, false));
      order := [];
      filled := 0;
    }

    method LruTouch(idx: nat)
      requires age.Length == L1_SIZE && idx < L1_SIZE
      modifies age
      ensures age[..] == Aged(old(age[..]), idx)
    {
      var oldAge := age[idx];
      for i := 0 to L1_SIZE
        invariant forall j :: 0 <= j < i ==> age[j] == Aged(old(age[..]), idx)[j]
        invariant forall j :: i <= j < L1_SIZE ==> age[j] == old(age[j])
      {
        if i == idx {
          age[i] := 0;
        } else if age[i] <= oldAge {
          age[i] := (age[i] + 1) % 8;
        }
      }
    }

    /** Touch a valid slot whose entry may just have been rewritten to e. */
    method Refresh(idx: nat, e: Entry)
      requires Valid() && idx < |order|
      requires forall i :: 0 <= i < |order| && i != idx ==> l1[..][i].ip != e.ip
      modifies this`order, l1, age
      ensures Valid() && l2[..] == old(l2[..])
      ensures old(age[idx]) < |old(order)|
      ensures Value() == old(Value()).(l1 := Touch(old(Value()).l1, old(age[idx]), e))
    {
      hide Sound, Aged, InOrder;
      TouchSound(l1[..], age[..], order, idx, e);
      l1[idx] := Slot(e.ip, e.mac, true);
      assert l1[..] == old(l1[..])[idx := Slot(e.ip, e.mac, true)];
      LruTouch(idx);
      order := MoveToFront(order, old(age[idx]));
    }

    /** The slot to fill: the first unused one, or the oldest when all are in use. */
    method Victim() returns (v: nat)
      requires Valid()
      ensures v < L1_SIZE
      ensures if |order| < L1_SIZE then v == |order| else v == order[L1_SIZE - 1]
    {
      var maxAge := 0;
      v := 0;
      for i := 0 to L1_SIZE
        invariant i <= |order| && v < L1_SIZE
        invariant i == 0 ==> maxAge == 0
        invariant i > 0 ==> v < i && maxAge == age[v] && forall j :: 0 <= j < i ==> age[j] <= maxAge
      {
        if !l1[i].valid {
          return i;
        }
        if age[i] >= maxAge {
          maxAge, v := age[i], i;
        }
      }
      OrderFacts(age[..], order);
      assert age[..][order[L1_SIZE - 1]] == L1_SIZE - 1;
    }

    /** Write a valid slot back to the first free slot of the table, if there is one. */
    method WriteBack(v: nat)
      requires Valid() && v < |order|
      modifies this`filled, l2
      ensures Valid() && Value() == old(Value()).(l2 :=
        if old(filled) < L2_SIZE then old(Value()).l2 + [Entry(l1[v].ip, l1[v].mac)] else old(Value()).l2)
    {
      hide Exact, InOrder;
      for i := 0 to L2_SIZE
        invariant i <= filled
        invariant unchanged(l2) && filled == old(filled)
      {
        if !l2[i].valid {
          l2[i] := l1[v];
          filled := filled + 1;
          return;
        }
      }
    }

    /** l1_insert. */
    method L1Insert(ip: word, m: mac)
      requires Valid()
      requires forall i :: 0 <= i < |order| ==> l1[..][i].ip != ip
      modifies this, l1, age, l2
      ensures Valid() && Value() == Insert(old(Value()), Entry(ip, m))
    {
      hide Exact, Aged;
      var v := Victim();
      OrderFacts(age[..], order);
      if l1[v].valid {
        WriteBack(v);
        Refresh(v, Entry(ip, m));
      } else {
        Grow(v, Entry(ip, m));
      }
    }

    /** Use the first slot that was never used. */
    method Grow(v: nat, e: Entry)
      requires Valid() && v == |order| < L1_SIZE
      requires forall i :: 0 <= i < |order| ==> l1[..][i].ip != e.ip
      modifies this`order, l1, age
      ensures Valid() && Value() == old(Value()).(l1 := [e] + old(Value()).l1)
    {
      hide Sound, Aged, InOrder;
      GrowSound(l1[..], age[..], order, e);
      l1[v] := Slot(e.ip, e.mac, true);
      assert l1[..] == old(l1[..])[v := Slot(e.ip, e.mac, true)];
      LruTouch(v);
      order := [v] + order;
    }

    /** l1_lookup: parallel compare, touch the slot that hits. */
    method L1Lookup(ip: word) returns (r: Option<mac>)
      requires Valid()
      modifies this`order, l1, age
      ensures Valid() && l2[..] == old(l2[..])
      ensures r.Some? <==> Has(old(Value()).l1, ip)
      ensures r.Some? ==> r == Answer(old(Value()), ip) && Value() == AfterLookup(old(Value()), ip)
      ensures r.None? ==> Value() == old(Value()) && forall i :: 0 <= i < |order| ==> l1[..][i].ip != ip
    {
      hide Exact, InOrder;
      for i := 0 to L1_SIZE
        invariant unchanged(this, l1, age)
        invariant forall j :: 0 <= j < i && j < |order| ==> l1[..][j].ip != ip
      {
        if l1[i].valid && l1[i].ip == ip {
          SlotPosition(l1[..], age[..], order, i);
          r := Some(l1[i].mac);
          Refresh(i, Entry(ip, l1[i].mac));
          return;
        }
      }
      Absent(l1[..], age[..], order, ip);
      r := None;
    }

    /** arp_lookup. */
    method Lookup(ip: word) returns (r: Option<mac>)
      requires Valid()
      modifies this, l1, age, l2
      ensures Valid()
      ensures r == Answer(old(Value()), ip)
      ensures Value() == AfterLookup(old(Value()), ip)
    {
      hide Exact, InOrder;
      r := L1Lookup(ip);
      if r.Some? {
        return;
      }
      ghost var rows := Value().l2;
      for i := 0 to L2_SIZE
        invariant Valid() && Value() == old(Value()) && rows == Value().l2
        invariant forall j :: 0 <= j < |order| ==> l1[..][j].ip != ip
        invariant forall j :: 0 <= j < i && j < |rows| ==> rows[j].ip != ip
      {
        if l2[i].valid && l2[i].ip == ip {
          FindIs(rows, ip, i);
          r := Some(l2[i].mac);
          L1Insert(ip, l2[i].mac);
          return;
        }
      }
      r := None;
    }

    /** arp_update. */
    method Update(ip: word, m: mac)
      requires Valid()
      modifies this, l1, age, l2
      ensures Valid() && Value() == Learn(old(Value()), ip, m)
    {
      hide Exact, InOrder;
      for i := 0 to L1_SIZE
        invariant unchanged(this, l1, age, l2)
        invariant forall j :: 0 <= j < i && j < |order| ==> l1[..][j].ip != ip
      {
        if l1[i].valid && l1[i].ip == ip {
          SlotPosition(l1[..], age[..], order, i);
          Refresh(i, Entry(ip, m));
          return;
        }
      }
      Absent(l1[..], age[..], order, ip);
      L1Insert(ip, m);
    }
  }
}
