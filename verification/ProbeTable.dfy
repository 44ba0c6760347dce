/** The open-addressing table of core/map.c as a value, and what one call does to it.
    Linear probing from `hash & mask`, at most `used + 1` slots, no stop at holes for lookups. */
module ProbeTable {
  import opened Bits
  import opened Hash
  import opened Wrappers

  datatype Id = Id(hash: nat, k: nat)
  datatype Payload<+V> = Payload(v: V, v2: nat)
  datatype Record<+V> = Record(hash: nat, k: nat, v: V, v2: nat) {
    function Key(): Id { Id(hash, k) }
    function Load(): Payload<V> { Payload(v, v2) }
  }
  datatype Table<+V> = Table(recs: seq<Record<V>>, used: nat)
  datatype Status = Update | Added

  /** What a call of `pmap_set_no_resize` leaves behind: the table, the returned status, the
      caller's record as written back, and the records handed to `ffree`. */
  datatype Outcome<+V> = Outcome(table: Table<V>, status: Status, back: Record<V>, freed: seq<Record<V>>)

  /** A key by its pair of hashes, which is how the change detector tells keys apart. */
  function KeyId(key: Bytes): Id {
    Id(DjbHash(key), Hash0(key))
  }

  // ----- Probe sequences -----

  /** The `i`-th slot probed for a hash. */
  function Slot(h: nat, i: nat, cap: nat): (p: nat)
    requires cap > 0
    ensures p < cap
  {
    (h + i) % cap
  }

  /** How far along the probe sequence of `h` slot `p` lies. */
  function Dist(h: nat, p: nat, cap: nat): (d: nat)
    requires p < cap
    ensures d < cap
  {
    (p - h) % cap
  }

  lemma {:induction false} SlotDist(h: nat, p: nat, cap: nat)
    requires p < cap
    ensures Slot(h, Dist(h, p, cap), cap) == p
  {
    var d := (p - h) % cap;
    ModAdd(p - h, h, cap);
    assert (d + h) % cap == p % cap;
    DivModUnique(p, cap, 0, p);
  }

  lemma {:induction false} SlotInjective(h: nat, i: nat, j: nat, cap: nat)
    requires i < cap && j < cap && Slot(h, i, cap) == Slot(h, j, cap)
    ensures i == j
  {
    var q1, q2 := (h + i) / cap, (h + j) / cap;
    assert j - i == (q2 - q1) * cap;
    if q2 > q1 {
      MulGrows(q2 - q1, cap);
    } else if q1 > q2 {
      assert i - j == (q1 - q2) * cap;
      MulGrows(q1 - q2, cap);
    }
  }

  lemma {:induction false} DistSlot(h: nat, i: nat, cap: nat)
    requires i < cap
    ensures Dist(h, Slot(h, i, cap), cap) == i
  {
    SlotDist(h, Slot(h, i, cap), cap);
    SlotInjective(h, i, Dist(h, Slot(h, i, cap), cap), cap);
  }

  /** `(idx + 1) & mask` steps along the probe sequence. */
  lemma {:induction false} SlotNext(h: nat, i: nat, k: nat)
    ensures BitAnd(Slot(h, i, Pow2(k)) + 1, Pow2(k) - 1) == Slot(h, i + 1, Pow2(k))
  {
    var cap := Pow2(k);
    MaskIsMod(Slot(h, i, cap) + 1, k);
    ModAdd(h + i, 1, cap);
    assert ((h + i) % cap + 1) % cap == (h + i + 1) % cap;
  }

  // ----- Occupancy and the pigeonhole argument -----

  function Occ<V>(recs: seq<Record<V>>): set<nat> {
    set p: nat | p < |recs| && recs[p].hash != 0
  }

  function Slots(h: nat, n: nat, cap: nat): (s: set<nat>)
    requires n <= cap && cap > 0
  {
    if n == 0 then {} else Slots(h, n - 1, cap) + {Slot(h, n - 1, cap)}
  }

  lemma {:induction false} SlotsCount(h: nat, n: nat, cap: nat)
    requires n <= cap && cap > 0
    ensures |Slots(h, n, cap)| == n
    ensures forall p :: p in Slots(h, n, cap) ==> p < cap && Dist(h, p, cap) < n
  {
    if n > 0 {
      SlotsCount(h, n - 1, cap);
      DistSlot(h, n - 1, cap);
    }
  }

  lemma {:induction false} SubsetCount<T>(a: set<T>, b: set<T>)
    requires a <= b
    ensures |a| <= |b|
  {
    assert b == a + (b - a);
  }

  /** Slots probed in a run all but `holes` of which are occupied. */
  lemma {:induction false} RunBound<V>(recs: seq<Record<V>>, h: nat, n: nat, holes: set<nat>)
    requires 0 < |recs| && n <= |recs|
    requires forall i :: 0 <= i < n && recs[Slot(h, i, |recs|)].hash == 0 ==> Slot(h, i, |recs|) in holes
    ensures n <= |Occ(recs)| + |holes|
  {
    var cap := |recs|;
    SlotsCount(h, n, cap);
    forall p | p in Slots(h, n, cap)
      ensures p in Occ(recs) + holes
    {
      SlotDist(h, p, cap);
    }
    SubsetCount(Slots(h, n, cap), Occ(recs) + holes);
    assert |Occ(recs) + holes| <= |Occ(recs)| + |holes|;
  }

  // ----- One call -----

  predicate Stops<V>(recs: seq<Record<V>>, id: Id, i: nat)
    requires 0 < |recs|
  {
    var r := recs[Slot(id.hash, i, |recs|)];
    r.hash == 0 || r.Key() == id
  }

  /** First probe in `[i, n)` at which `pmap_set_no_resize` stops, `n` when there is none. */
  function StopAt<V>(recs: seq<Record<V>>, id: Id, i: nat, n: nat): (r: nat)
    requires 0 < |recs| && i <= n
    ensures i <= r <= n
    ensures r < n ==> Stops(recs, id, r)
    ensures forall j :: i <= j < r ==> !Stops(recs, id, j)
    decreases n - i
  {
    if i == n || Stops(recs, id, i) then i else StopAt(recs, id, i + 1, n)
  }

  /** `None` is the `assert(0)` behind the probe loop. */
  function Insert<V>(t: Table<V>, rec: Record<V>): Option<Outcome<V>>
    requires 0 < |t.recs|
  {
    var i := StopAt(t.recs, rec.Key(), 0, t.used + 1);
    if i > t.used then None
    else
      var p := Slot(rec.hash, i, |t.recs|);
      var r := t.recs[p];
      if r.hash == 0 then
        Some(Outcome(Table(t.recs[p := rec], t.used + 1), Added, rec, []))
      else
        Some(Outcome(Table(t.recs[p := rec], t.used), Update, rec.(v := r.v, v2 := r.v2), [r]))
  }

  function Blank<V>(cap: nat, nil: V): seq<Record<V>> {
    seq(cap, i => Record(0, 0, nil, 0))
  }

  /** Re-insertion of `src[i..]`; the second component is what `ffree` received. */
  function Rehash<V>(src: seq<Record<V>>, i: nat, t: Table<V>): (r: Option<(Table<V>, seq<Record<V>>)>)
    requires i <= |src| && 0 < |t.recs|
    ensures r.Some? ==> |r.value.0.recs| == |t.recs|
    decreases |src| - i
  {
    if i == |src| then Some((t, []))
    else if src[i].hash == 0 then Rehash(src, i + 1, t)
    else
      match Insert(t, src[i])
      case None => None
      case Some(o) =>
        match Rehash(src, i + 1, o.table)
        case None => None
        case Some(r) => Some((r.0, o.freed + r.1))
  }

  function Resize<V>(t: Table<V>, nil: V): Option<(Table<V>, seq<Record<V>>)>
    requires 0 < |t.recs|
  {
    Rehash(t.recs, 0, Table(Blank(2 * |t.recs|, nil), 0))
  }

  /** `pmap_set_`: resize above three quarters, then insert. */
  function Put<V>(t: Table<V>, rec: Record<V>, nil: V): Option<Outcome<V>>
    requires 0 < |t.recs|
  {
    if t.used > |t.recs| * 3 / 4 then
      match Resize(t, nil)
      case None => None
      case Some(r) =>
        (match Insert(r.0, rec)
         case None => None
         case Some(o) => Some(o.(freed := r.1 + o.freed)))
    else Insert(t, rec)
  }

  predicate Hits<V>(recs: seq<Record<V>>, id: Id, i: nat)
    requires 0 < |recs|
  {
    recs[Slot(id.hash, i, |recs|)].Key() == id
  }

  function HitAt<V>(recs: seq<Record<V>>, id: Id, i: nat, n: nat): (r: nat)
    requires 0 < |recs| && i <= n
    ensures i <= r <= n
    ensures r < n ==> Hits(recs, id, r)
    ensures forall j :: i <= j < r ==> !Hits(recs, id, j)
    decreases n - i
  {
    if i == n || Hits(recs, id, i) then i else HitAt(recs, id, i + 1, n)
  }

  /** `pmap_get_`: the slot of the record found, if any. */
  function Lookup<V>(t: Table<V>, id: Id): (r: Option<nat>)
    requires 0 < |t.recs|
    ensures r.Some? ==> r.value < |t.recs| && t.recs[r.value].Key() == id
  {
    var i := HitAt(t.recs, id, 0, t.used + 1);
    if i > t.used then None else Some(Slot(id.hash, i, |t.recs|))
  }

  /** `poolmap_remove`: only hash and key are cleared, and the counter wraps at 32 bits. */
  function Remove<V>(t: Table<V>, id: Id): (r: Table<V>)
    requires 0 < |t.recs|
  {
    match Lookup(t, id)
    case None => t
    case Some(p) =>
      Table(t.recs[p := t.recs[p].(hash := 0, k := 0)], if t.used == 0 then 0xffff_ffff else t.used - 1)
  }

  /** `1U << SizeToKlass(max(init, 4))`. */
  function CapacityFor(init: nat): (cap: nat)
    ensures cap > 0
  {
    var n := if init < 4 then 4 else init;
    Pow2(BitLength(n - 1))
  }

  function New<V>(init: nat, nil: V): (t: Table<V>)
    ensures 0 < |t.recs|
  {
    Table(Blank(CapacityFor(init), nil), 0)
  }

  // ----- Invariants -----

  /** The capacities there are. */
  ghost predicate Shaped<V>(recs: seq<Record<V>>) {
    4 <= |recs| && exists k: nat :: |recs| == Pow2(k)
  }

  /** Slots whose record was stored with the empty mark as its hash. */
  function Strays<V>(recs: seq<Record<V>>): set<nat> {
    set p: nat | p < |recs| && recs[p].hash == 0 && recs[p].k != 0
  }

  /** The counter covers everything stored. */
  ghost predicate Sound<V>(t: Table<V>) {
    Shaped(t.recs) && |Occ(t.recs)| + |Strays(t.recs)| <= t.used
  }

  /** The counter is exact. */
  ghost predicate Tidy<V>(t: Table<V>) {
    Shaped(t.recs) && t.used == |Occ(t.recs)|
  }

  predicate Distinct<V>(recs: seq<Record<V>>) {
    forall p, q :: 0 <= p < |recs| && 0 <= q < |recs| && recs[p].hash != 0 && recs[p].Key() == recs[q].Key() ==> p == q
  }

  predicate PathFull<V>(recs: seq<Record<V>>, h: nat, d: nat)
    requires 0 < |recs|
  {
    forall i :: 0 <= i < d ==> recs[Slot(h, i, |recs|)].hash != 0
  }

  /** Chain form: no hole between a record's home slot and the record. */
  predicate Chained<V>(recs: seq<Record<V>>) {
    forall p :: 0 <= p < |recs| && recs[p].hash != 0 ==> PathFull(recs, recs[p].hash, Dist(recs[p].hash, p, |recs|))
  }

  ghost predicate Represents<V>(recs: seq<Record<V>>, m: map<Id, Payload<V>>) {
    && (forall p :: 0 <= p < |recs| && recs[p].hash != 0 ==> recs[p].Key() in m && m[recs[p].Key()] == recs[p].Load())
    && (forall id :: id in m ==> exists p :: 0 <= p < |recs| && recs[p].hash != 0 && recs[p].Key() == id)
  }

  /** The refinement invariant of runs without removals. */
  ghost predicate Refines<V>(t: Table<V>, m: map<Id, Payload<V>>) {
    Sound(t) && Distinct(t.recs) && Chained(t.recs) && Represents(t.recs, m)
  }

  // ----- Occupancy bookkeeping -----

  lemma {:induction false} OccUpdate<V>(recs: seq<Record<V>>, p: nat, r: Record<V>)
    requires p < |recs|
    ensures Occ(recs[p := r]) == if r.hash != 0 then Occ(recs) + {p} else Occ(recs) - {p}
  {
  }

  lemma {:induction false} StraysUpdate<V>(recs: seq<Record<V>>, p: nat, r: Record<V>)
    requires p < |recs|
    ensures Strays(recs[p := r]) == if r.hash == 0 && r.k != 0 then Strays(recs) + {p} else Strays(recs) - {p}
  {
  }

  lemma {:induction false} OccBound<V>(recs: seq<Record<V>>)
    ensures |Occ(recs)| <= |recs|
    decreases |recs|
  {
    if recs == [] {
      assert Occ(recs) == {};
    } else {
      var n := |recs| - 1;
      OccBound(recs[..n]);
      assert Occ(recs) <= Occ(recs[..n]) + {n};
      SubsetCount(Occ(recs), Occ(recs[..n]) + {n});
    }
  }

  /** Among `used + 1` distinct slots one is free: the `assert(0)` is dead code. */
  lemma {:induction false} InsertStops<V>(t: Table<V>, rec: Record<V>)
    requires 0 < |t.recs| && |Occ(t.recs)| <= t.used < |t.recs|
    ensures Insert(t, rec).Some?
  {
    var i := StopAt(t.recs, rec.Key(), 0, t.used + 1);
    if i > t.used {
      forall j | 0 <= j < t.used + 1
        ensures t.recs[Slot(rec.hash, j, |t.recs|)].hash != 0
      {
        assert !Stops(t.recs, rec.Key(), j);
      }
      RunBound(t.recs, rec.hash, t.used + 1, {});
    }
  }

  /** Inserting keeps the occupancy count exactly when the record's hash is not the empty mark. */
  lemma {:induction false} InsertTidyIff<V>(t: Table<V>, rec: Record<V>)
    requires Tidy(t) && t.used < |t.recs|
    ensures Insert(t, rec).Some?
    ensures Tidy(Insert(t, rec).value.table) <==> rec.hash != 0
    ensures |Insert(t, rec).value.table.recs| == |t.recs|
    ensures t.used <= Insert(t, rec).value.table.used <= t.used + 1
  {
    InsertStops(t, rec);
    var i := StopAt(t.recs, rec.Key(), 0, t.used + 1);
    var p := Slot(rec.hash, i, |t.recs|);
    OccUpdate(t.recs, p, rec);
    var u := Insert(t, rec).value.table;
    assert |u.recs| == |t.recs|;
    assert t.recs[p].hash == 0 ==> |Occ(t.recs) + {p}| == t.used + 1 && Occ(t.recs) - {p} == Occ(t.recs);
    assert t.recs[p].hash != 0 ==> rec.hash != 0 && Occ(t.recs) + {p} == Occ(t.recs);
  }

  lemma {:induction false} SlotKind<V>(recs: seq<Record<V>>, p: nat)
    requires p < |recs|
    ensures p in Occ(recs) <==> recs[p].hash != 0
    ensures p in Strays(recs) <==> recs[p].hash == 0 && recs[p].k != 0
  {
  }

  /** Inserting any record, of hash 0 too, keeps everything stored covered by the counter. */
  lemma {:induction false} InsertSound<V>(t: Table<V>, rec: Record<V>)
    requires Sound(t) && t.used < |t.recs|
    ensures Insert(t, rec).Some?
    ensures Sound(Insert(t, rec).value.table)
    ensures |Insert(t, rec).value.table.recs| == |t.recs|
    ensures t.used <= Insert(t, rec).value.table.used <= t.used + 1
  {
    hide Occ, Strays;
    InsertStops(t, rec);
    var i := StopAt(t.recs, rec.Key(), 0, t.used + 1);
    var p := Slot(rec.hash, i, |t.recs|);
    OccUpdate(t.recs, p, rec);
    StraysUpdate(t.recs, p, rec);
    SlotKind(t.recs, p);
    var occ, strays := Occ(t.recs), Strays(t.recs);
    assert |occ + {p}| <= |occ| + 1 && |strays + {p}| <= |strays| + 1;
    SubsetCount(occ - {p}, occ);
    SubsetCount(strays - {p}, strays);
    if t.recs[p].hash != 0 {
      assert occ + {p} == occ;
    }
    assert |Insert(t, rec).value.table.recs| == |t.recs|;
  }

  // ----- Insertion refines map update -----

  /** In chain form, a probe that stops at a hole has ruled the key out. */
  lemma {:induction false} HoleMeansAbsent<V>(recs: seq<Record<V>>, id: Id, i: nat, p: nat)
    requires 0 < |recs| && Chained(recs) && id.hash != 0
    requires i < |recs| && recs[Slot(id.hash, i, |recs|)].hash == 0
    requires forall j :: 0 <= j < i ==> !Stops(recs, id, j)
    requires p < |recs|
    ensures recs[p].Key() != id
  {
    if recs[p].Key() == id {
      var d := Dist(id.hash, p, |recs|);
      SlotDist(id.hash, p, |recs|);
      assert PathFull(recs, id.hash, d);
      if d < i {
        assert Stops(recs, id, d);
      }
    }
  }

  lemma {:induction false} CoveredCapacity<V>(t: Table<V>)
    requires Sound(t)
    ensures 4 <= |t.recs| && |Occ(t.recs)| <= t.used
  {
  }

  lemma {:induction false} PathKept<V>(recs: seq<Record<V>>, p: nat, rec: Record<V>, h: nat, d: nat)
    requires p < |recs| && rec.hash != 0 && PathFull(recs, h, d)
    ensures PathFull(recs[p := rec], h, d)
  {
    forall i | 0 <= i < d
      ensures recs[p := rec][Slot(h, i, |recs|)].hash != 0
    {
      assert recs[Slot(h, i, |recs|)].hash != 0;
    }
  }

  lemma {:induction false} ChainedUpdate<V>(recs: seq<Record<V>>, p: nat, rec: Record<V>)
    requires p < |recs| && rec.hash != 0 && Chained(recs)
    requires PathFull(recs, rec.hash, Dist(rec.hash, p, |recs|))
    ensures Chained(recs[p := rec])
  {
    var recs' := recs[p := rec];
    forall q | 0 <= q < |recs| && recs'[q].hash != 0
      ensures PathFull(recs', recs'[q].hash, Dist(recs'[q].hash, q, |recs|))
    {
      PathKept(recs, p, rec, recs'[q].hash, Dist(recs'[q].hash, q, |recs|));
    }
  }

  /** The record inserted sits at the end of an unbroken path from its home slot. */
  lemma {:induction false} InsertChained<V>(t: Table<V>, rec: Record<V>)
    requires 0 < |t.recs| && |Occ(t.recs)| <= t.used < |t.recs| && rec.hash != 0 && Chained(t.recs)
    ensures Insert(t, rec).Some? && Chained(Insert(t, rec).value.table.recs)
  {
    InsertStops(t, rec);
    var i := StopAt(t.recs, rec.Key(), 0, t.used + 1);
    DistSlot(rec.hash, i, |t.recs|);
    assert PathFull(t.recs, rec.hash, i) by {
      forall j | 0 <= j < i
        ensures t.recs[Slot(rec.hash, j, |t.recs|)].hash != 0
      {
        assert !Stops(t.recs, rec.Key(), j);
      }
    }
    ChainedUpdate(t.recs, Slot(rec.hash, i, |t.recs|), rec);
  }

  /** Overwriting the record of the same key, or a hole when the key is absent, is map update. */
  lemma {:induction false} UpdateRepresents<V>(recs: seq<Record<V>>, p: nat, rec: Record<V>, m: map<Id, Payload<V>>)
    requires p < |recs| && rec.hash != 0 && Distinct(recs) && Represents(recs, m)
    requires recs[p].Key() == rec.Key() ||
      (recs[p].hash == 0 && forall q :: 0 <= q < |recs| ==> recs[q].Key() != rec.Key())
    ensures Distinct(recs[p := rec]) && Represents(recs[p := rec], m[rec.Key() := rec.Load()])
    ensures rec.Key() in m <==> recs[p].hash != 0
    ensures rec.Key() in m ==> m[rec.Key()] == recs[p].Load()
  {
    var recs', m' := recs[p := rec], m[rec.Key() := rec.Load()];
    forall id | id in m'
      ensures exists q :: 0 <= q < |recs| && recs'[q].hash != 0 && recs'[q].Key() == id
    {
      if id == rec.Key() {
        assert recs'[p].Key() == id;
      } else {
        var q :| 0 <= q < |recs| && recs[q].hash != 0 && recs[q].Key() == id;
        assert recs'[q].Key() == id;
      }
    }
  }

  /** `pmap_set_no_resize` on a chain-form table is map update: ADDED exactly for a new key, and on
      UPDATE the previous payload is handed back and the previous record released. */
  lemma {:induction false} InsertRefines<V>(t: Table<V>, rec: Record<V>, m: map<Id, Payload<V>>)
    requires Refines(t, m) && t.used < |t.recs| && rec.hash != 0
    ensures Insert(t, rec).Some?
    ensures var o := Insert(t, rec).value;
      && Refines(o.table, m[rec.Key() := rec.Load()])
      && |o.table.recs| == |t.recs|
      && o.back.Key() == rec.Key()
      && (rec.Key() !in m ==> o.status == Added && o.back == rec && o.freed == [] && o.table.used == t.used + 1)
      && (rec.Key() in m ==>
        o.status == Update && o.back.Load() == m[rec.Key()] && o.freed == [o.back] && o.table.used == t.used)
  {
    hide Chained, Slot, Distinct, Represents, Occ, Strays, Shaped;
    CoveredCapacity(t);
    InsertSound(t, rec);
    InsertChained(t, rec);
    var cap := |t.recs|;
    var i := StopAt(t.recs, rec.Key(), 0, t.used + 1);
    var p := Slot(rec.hash, i, cap);
    if t.recs[p].hash == 0 {
      forall q | 0 <= q < cap
        ensures t.recs[q].Key() != rec.Key()
      {
        HoleMeansAbsent(t.recs, rec.Key(), i, q);
      }
    }
    UpdateRepresents(t.recs, p, rec, m);
  }

  lemma {:induction false} StrayKeepsMap<V>(recs: seq<Record<V>>, p: nat, rec: Record<V>, m: map<Id, Payload<V>>)
    requires p < |recs| && recs[p].hash == 0 && rec.hash == 0
    requires Distinct(recs) && Chained(recs) && Represents(recs, m)
    ensures Distinct(recs[p := rec]) && Chained(recs[p := rec]) && Represents(recs[p := rec], m)
  {
    var recs' := recs[p := rec];
    forall q | 0 <= q < |recs| && recs'[q].hash != 0
      ensures PathFull(recs', recs'[q].hash, Dist(recs'[q].hash, q, |recs|))
    {
      var d := Dist(recs[q].hash, q, |recs|);
      assert PathFull(recs, recs[q].hash, d);
      forall i | 0 <= i < d
        ensures recs'[Slot(recs[q].hash, i, |recs|)].hash != 0
      {
        assert recs[Slot(recs[q].hash, i, |recs|)].hash != 0;
      }
    }
    forall id | id in m
      ensures exists q :: 0 <= q < |recs| && recs'[q].hash != 0 && recs'[q].Key() == id
    {
      var q :| 0 <= q < |recs| && recs[q].hash != 0 && recs[q].Key() == id;
      assert recs'[q].Key() == id;
    }
  }

  /** A record whose hash is the empty mark leaves the mapping as it was: it is reported ADDED, nothing
      is handed back or released. */
  lemma {:induction false} InsertStray<V>(t: Table<V>, rec: Record<V>, m: map<Id, Payload<V>>)
    requires Refines(t, m) && t.used < |t.recs| && rec.hash == 0
    ensures Insert(t, rec).Some?
    ensures var o := Insert(t, rec).value;
      && Refines(o.table, m) && |o.table.recs| == |t.recs|
      && o.status == Added && o.back == rec && o.freed == [] && o.table.used == t.used + 1
  {
    hide Chained, Slot, Distinct, Represents, Occ, Strays, Shaped;
    CoveredCapacity(t);
    InsertSound(t, rec);
    StrayKeepsMap(t.recs, Slot(rec.hash, StopAt(t.recs, rec.Key(), 0, t.used + 1), |t.recs|), rec, m);
  }

  lemma {:induction false} BlankRefines<V>(cap: nat, nil: V)
    requires 4 <= cap && exists k: nat :: cap == Pow2(k)
    ensures Refines(Table(Blank(cap, nil), 0), map[]) && Tidy(Table(Blank(cap, nil), 0))
  {
    assert Occ(Blank(cap, nil)) == {} && Strays(Blank(cap, nil)) == {};
  }

  // ----- Resizing -----

  /** The mapping a duplicate-free table stands for, chains broken or not, restricted to `recs[..i]`. */
  ghost predicate RepresentsUpTo<V>(recs: seq<Record<V>>, i: nat, m: map<Id, Payload<V>>)
    requires i <= |recs|
  {
    && (forall p :: 0 <= p < i && recs[p].hash != 0 ==> recs[p].Key() in m && m[recs[p].Key()] == recs[p].Load())
    && (forall id :: id in m ==> exists p :: 0 <= p < i && recs[p].hash != 0 && recs[p].Key() == id)
  }

  function OccUpTo<V>(recs: seq<Record<V>>, i: nat): set<nat>
    requires i <= |recs|
  {
    set p: nat | p < i && recs[p].hash != 0
  }

  /** Half-way through a resize: `t` holds exactly the records of `src[..i]`. */
  ghost predicate Rehashing<V>(src: seq<Record<V>>, i: nat, t: Table<V>, part: map<Id, Payload<V>>) {
    && i <= |src| < |t.recs|
    && Refines(t, part) && Tidy(t)
    && RepresentsUpTo(src, i, part)
    && t.used == |OccUpTo(src, i)|
  }

  lemma {:induction false} NewKey<V>(src: seq<Record<V>>, i: nat, part: map<Id, Payload<V>>)
    requires i < |src| && Distinct(src) && src[i].hash != 0 && RepresentsUpTo(src, i, part)
    ensures src[i].Key() !in part
  {
  }

  lemma {:induction false} StepUpTo<V>(src: seq<Record<V>>, i: nat, part: map<Id, Payload<V>>)
    requires i < |src| && Distinct(src) && src[i].hash != 0 && RepresentsUpTo(src, i, part)
    ensures RepresentsUpTo(src, i + 1, part[src[i].Key() := src[i].Load()])
  {
    var part' := part[src[i].Key() := src[i].Load()];
    forall id | id in part'
      ensures exists p :: 0 <= p < i + 1 && src[p].hash != 0 && src[p].Key() == id
    {
      if id == src[i].Key() {
      } else {
        var p :| 0 <= p < i && src[p].hash != 0 && src[p].Key() == id;
      }
    }
  }

  lemma {:induction false} OccUpToBound<V>(recs: seq<Record<V>>, i: nat)
    requires i <= |recs|
    ensures |OccUpTo(recs, i)| <= i
  {
    assert OccUpTo(recs, i) == Occ(recs[..i]);
    OccBound(recs[..i]);
  }

  lemma {:induction false} RehashStep<V>(src: seq<Record<V>>, i: nat, t: Table<V>, part: map<Id, Payload<V>>)
    requires i < |src| && Distinct(src) && src[i].hash != 0 && Rehashing(src, i, t, part)
    ensures Insert(t, src[i]).Some?
    ensures var o := Insert(t, src[i]).value;
      && Rehashing(src, i + 1, o.table, part[src[i].Key() := src[i].Load()])
      && o.freed == [] && |o.table.recs| == |t.recs|
  {
    hide Refines, Insert, Distinct, RepresentsUpTo, Tidy;
    OccUpToBound(src, i);
    NewKey(src, i, part);
    InsertRefines(t, src[i], part);
    InsertTidyIff(t, src[i]);
    StepUpTo(src, i, part);
    assert OccUpTo(src, i + 1) == OccUpTo(src, i) + {i};
  }

  lemma {:induction false} UpToAll<V>(src: seq<Record<V>>, part: map<Id, Payload<V>>)
    requires RepresentsUpTo(src, |src|, part)
    ensures Represents(src, part)
  {
  }

  lemma {:induction false} SkipUpTo<V>(src: seq<Record<V>>, i: nat, part: map<Id, Payload<V>>)
    requires i < |src| && src[i].hash == 0 && RepresentsUpTo(src, i, part)
    ensures RepresentsUpTo(src, i + 1, part)
  {
  }

  lemma {:induction false} SameMap<V>(recs: seq<Record<V>>, a: map<Id, Payload<V>>, b: map<Id, Payload<V>>)
    requires Represents(recs, a) && Represents(recs, b)
    ensures a == b
  {
    forall id | id in a
      ensures id in b && b[id] == a[id]
    {
      var p :| 0 <= p < |recs| && recs[p].hash != 0 && recs[p].Key() == id;
    }
    forall id | id in b
      ensures id in a
    {
      var p :| 0 <= p < |recs| && recs[p].hash != 0 && recs[p].Key() == id;
    }
  }

  lemma {:induction false} RehashRefines<V>(src: seq<Record<V>>, i: nat, t: Table<V>, part: map<Id, Payload<V>>,
        m: map<Id, Payload<V>>)
    requires Distinct(src) && Represents(src, m) && Rehashing(src, i, t, part)
    ensures Rehash(src, i, t).Some?
    ensures var (u, freed) := Rehash(src, i, t).value;
      Refines(u, m) && Tidy(u) && u.used == |Occ(src)| && |u.recs| == |t.recs| && freed == []
    decreases |src| - i
  {
    hide Refines, Insert, Represents, RepresentsUpTo, Distinct, Tidy;
    if i == |src| {
      UpToAll(src, part);
      SameMap(src, part, m);
      assert OccUpTo(src, i) == Occ(src);
    } else if src[i].hash == 0 {
      assert OccUpTo(src, i + 1) == OccUpTo(src, i);
      SkipUpTo(src, i, part);
      RehashRefines(src, i + 1, t, part, m);
    } else {
      RehashStep(src, i, t, part);
      RehashRefines(src, i + 1, Insert(t, src[i]).value.table, part[src[i].Key() := src[i].Load()], m);
    }
  }

  /** Doubling turns any duplicate-free table, its chains broken or not and its counter right or wrong,
      into chain form with the same mapping and an exact counter, and releases nothing. */
  lemma {:induction false} ResizeRestoresChains<V>(t: Table<V>, nil: V, m: map<Id, Payload<V>>)
    requires Shaped(t.recs) && Distinct(t.recs) && Represents(t.recs, m)
    ensures Resize(t, nil).Some?
    ensures var (u, freed) := Resize(t, nil).value;
      Refines(u, m) && Tidy(u) && u.used == |Occ(t.recs)| && |u.recs| == 2 * |t.recs| && freed == []
  {
    var k: nat :| |t.recs| == Pow2(k);
    assert 2 * |t.recs| == Pow2(k + 1);
    BlankRefines(2 * |t.recs|, nil);
    assert OccUpTo(t.recs, 0) == {};
    RehashRefines(t.recs, 0, Table(Blank(2 * |t.recs|, nil), 0), map[], m);
  }

  /** Before the insertion a set has at least one free slot, and after a resize an exact counter. */
  lemma {:induction false} ResizedRoom<V>(t: Table<V>, nil: V, m: map<Id, Payload<V>>)
    requires Refines(t, m) && t.used > |t.recs| * 3 / 4
    ensures Resize(t, nil).Some? && Resize(t, nil).value.1 == []
    ensures Refines(Resize(t, nil).value.0, m) && Resize(t, nil).value.0.used < |Resize(t, nil).value.0.recs|
  {
    OccBound(t.recs);
    ResizeRestoresChains(t, nil, m);
  }

  /** `pmap_set_` on a chain-form table is map update, resize included. */
  lemma {:induction false} PutRefines<V>(t: Table<V>, rec: Record<V>, nil: V, m: map<Id, Payload<V>>)
    requires Refines(t, m) && rec.hash != 0
    ensures Put(t, rec, nil).Some?
    ensures var o := Put(t, rec, nil).value;
      && Refines(o.table, m[rec.Key() := rec.Load()])
      && o.back.Key() == rec.Key()
      && (rec.Key() !in m ==> o.status == Added && o.back == rec && o.freed == [])
      && (rec.Key() in m ==> o.status == Update && o.back.Load() == m[rec.Key()] && o.freed == [o.back])
  {
    hide Resize, Insert;
    CoveredCapacity(t);
    if t.used > |t.recs| * 3 / 4 {
      ResizedRoom(t, nil, m);
      InsertRefines(Resize(t, nil).value.0, rec, m);
    } else {
      InsertRefines(t, rec, m);
    }
  }

  /** Setting a key whose hash is the empty mark changes nothing that the table stands for. */
  lemma {:induction false} PutStray<V>(t: Table<V>, rec: Record<V>, nil: V, m: map<Id, Payload<V>>)
    requires Refines(t, m) && rec.hash == 0
    ensures Put(t, rec, nil).Some?
    ensures var o := Put(t, rec, nil).value;
      Refines(o.table, m) && o.status == Added && o.back == rec && o.freed == []
  {
    hide Resize, Insert;
    CoveredCapacity(t);
    if t.used > |t.recs| * 3 / 4 {
      ResizedRoom(t, nil, m);
      InsertStray(Resize(t, nil).value.0, rec, m);
    } else {
      InsertStray(t, rec, m);
    }
  }

  // ----- Sets and resizes in arbitrary states -----

  lemma {:induction false} RehashTidy<V>(src: seq<Record<V>>, i: nat, t: Table<V>)
    requires i <= |src| && Tidy(t) && Sound(t) && t.used <= i && |src| < |t.recs|
    ensures Rehash(src, i, t).Some?
    ensures var u := Rehash(src, i, t).value.0; Tidy(u) && Sound(u) && u.used <= |src| && |u.recs| == |t.recs|
    decreases |src| - i
  {
    hide Tidy, Sound, Insert;
    if i == |src| {
    } else if src[i].hash == 0 {
      RehashTidy(src, i + 1, t);
    } else {
      InsertTidyIff(t, src[i]);
      InsertSound(t, src[i]);
      RehashTidy(src, i + 1, Insert(t, src[i]).value.table);
    }
  }

  /** A resize never runs into the `assert(0)` and leaves an exact counter, whatever the table was like. */
  lemma {:induction false} ResizeTidy<V>(t: Table<V>, nil: V)
    requires Shaped(t.recs)
    ensures Resize(t, nil).Some?
    ensures var u := Resize(t, nil).value.0; Tidy(u) && Sound(u) && u.used <= |t.recs| && |u.recs| == 2 * |t.recs|
  {
    var k: nat :| |t.recs| == Pow2(k);
    assert 2 * |t.recs| == Pow2(k + 1);
    BlankRefines(2 * |t.recs|, nil);
    RehashTidy(t.recs, 0, Table(Blank(2 * |t.recs|, nil), 0));
  }

  lemma {:induction false} PutTidy<V>(t: Table<V>, rec: Record<V>, nil: V)
    requires Tidy(t) && rec.hash != 0
    ensures Put(t, rec, nil).Some? && Tidy(Put(t, rec, nil).value.table)
  {
    if t.used > |t.recs| * 3 / 4 {
      ResizeTidy(t, nil);
      InsertTidyIff(Resize(t, nil).value.0, rec);
    } else {
      InsertTidyIff(t, rec);
    }
  }

  lemma {:induction false} PutSound<V>(t: Table<V>, rec: Record<V>, nil: V)
    requires Sound(t)
    ensures Put(t, rec, nil).Some? && Sound(Put(t, rec, nil).value.table)
  {
    hide Resize, Insert;
    if t.used > |t.recs| * 3 / 4 {
      ResizeTidy(t, nil);
      InsertSound(Resize(t, nil).value.0, rec);
    } else {
      InsertSound(t, rec);
    }
  }

  // ----- Removals in arbitrary states -----

  /** A removal keeps the counter exact if and only if it finds nothing or a record of nonzero hash. */
  lemma {:induction false} RemoveTidyIff<V>(t: Table<V>, id: Id)
    requires Tidy(t)
    ensures |Remove(t, id).recs| == |t.recs|
    ensures Tidy(Remove(t, id)) <==> id.hash != 0 || Lookup(t, id) == None
    ensures id.hash != 0 && Lookup(t, id).Some? ==> Remove(t, id).used == t.used - 1
  {
    var u := Remove(t, id);
    if Lookup(t, id).Some? {
      var p := Lookup(t, id).value;
      OccUpdate(t.recs, p, u.recs[p]);
      assert |u.recs| == |t.recs|;
      if id.hash != 0 {
        assert p in Occ(t.recs);
        assert |Occ(t.recs) - {p}| == |Occ(t.recs)| - 1;
      } else {
        assert Occ(t.recs) - {p} == Occ(t.recs);
      }
    }
  }

  /** A removal keeps everything stored covered exactly when it is not of the all-zero key, which every blank
      slot matches, or finds nothing, or the counter had room to spare or wraps. */
  lemma {:induction false} RemoveSoundIff<V>(t: Table<V>, id: Id)
    requires Sound(t)
    ensures |Remove(t, id).recs| == |t.recs|
    ensures Sound(Remove(t, id)) <==>
      id != Id(0, 0) || Lookup(t, id) == None || t.used == 0 || |Occ(t.recs)| + |Strays(t.recs)| < t.used
    ensures id != Id(0, 0) && Lookup(t, id).Some? ==> Remove(t, id).used == t.used - 1
  {
    hide Occ, Strays;
    var u := Remove(t, id);
    if Lookup(t, id).Some? {
      var p := Lookup(t, id).value;
      OccUpdate(t.recs, p, u.recs[p]);
      StraysUpdate(t.recs, p, u.recs[p]);
      SlotKind(t.recs, p);
      var occ, strays := Occ(t.recs), Strays(t.recs);
      SubsetCount(occ - {p}, occ);
      SubsetCount(strays - {p}, strays);
      assert id.hash != 0 ==> p in occ && |occ - {p}| == |occ| - 1;
      assert p !in occ ==> occ - {p} == occ;
      assert p !in strays ==> strays - {p} == strays;
      assert id.hash == 0 && id.k != 0 ==> p in strays && |strays - {p}| == |strays| - 1;
      assert |u.recs| == |t.recs|;
    }
  }

  // ----- When a set resizes -----

  /** A set doubles the table exactly when more than three quarters of it are counted as used. */
  lemma {:induction false} PutCapacity<V>(t: Table<V>, rec: Record<V>, nil: V)
    requires Sound(t)
    ensures Put(t, rec, nil).Some?
    ensures |Put(t, rec, nil).value.table.recs| == if 4 * t.used > 3 * |t.recs| then 2 * |t.recs| else |t.recs|
  {
    hide Resize, Insert;
    CoveredCapacity(t);
    if t.used > |t.recs| * 3 / 4 {
      ResizeTidy(t, nil);
      InsertSound(Resize(t, nil).value.0, rec);
    } else {
      InsertSound(t, rec);
    }
  }

  /** On a refining table with an exact counter a set keeps the counter equal to the number of keys. */
  lemma {:induction false} PutCount<V>(t: Table<V>, rec: Record<V>, nil: V, m: map<Id, Payload<V>>)
    requires Refines(t, m) && Tidy(t) && t.used == |m| && rec.hash != 0
    ensures Put(t, rec, nil).Some?
    ensures var u := Put(t, rec, nil).value.table; Tidy(u) && u.used == |m[rec.Key() := rec.Load()]|
  {
    hide Resize, Insert;
    PutTidy(t, rec, nil);
    CoveredCapacity(t);
    if t.used > |t.recs| * 3 / 4 {
      ResizedRoom(t, nil, m);
      ResizeRestoresChains(t, nil, m);
      InsertRefines(Resize(t, nil).value.0, rec, m);
    } else {
      InsertRefines(t, rec, m);
    }
    MapGrows(m, rec.Key(), rec.Load());
  }

  lemma {:induction false} MapGrows<V>(m: map<Id, Payload<V>>, id: Id, p: Payload<V>)
    ensures |m[id := p]| == |m| + (if id in m then 0 else 1)
  {
    assert m[id := p].Keys == m.Keys + {id};
    assert |m[id := p]| == |m[id := p].Keys| && |m| == |m.Keys|;
  }

  /** A removal takes one off the 32-bit counter, which wraps below zero. */
  lemma {:induction false} RemoveCounts<V>(t: Table<V>, id: Id)
    requires 0 < |t.recs| && 0 <= t.used < 4294967296 && Lookup(t, id).Some?
    ensures Remove(t, id).used < 4294967296 && (Remove(t, id).used + 1) % 4294967296 == t.used
  {
  }

  // ----- Conservation of records -----

  /** The stored records of nonzero hash, with multiplicity. */
  ghost function Bag<V>(recs: seq<Record<V>>): multiset<Record<V>> {
    if recs == [] then multiset{} else Bag(recs[..|recs| - 1]) + One(recs[|recs| - 1])
  }

  ghost function One<V>(r: Record<V>): multiset<Record<V>> {
    if r.hash != 0 then multiset{r} else multiset{}
  }

  lemma {:induction false} AddBoth<T>(a: multiset<T>, b: multiset<T>, c: multiset<T>, d: multiset<T>, z: multiset<T>)
    requires a + b == c + d
    ensures (a + z) + b == (c + z) + d
  {
    assert (a + z) + b == (a + b) + z;
    assert (c + z) + d == (c + d) + z;
  }

  /** Chaining two balances whose middle states agree. */
  lemma {:induction false} Chain<T>(u: multiset<T>, r: multiset<T>, s: multiset<T>, one: multiset<T>,
        o: multiset<T>, src: multiset<T>, f: multiset<T>, t: multiset<T>)
    requires u + r + (s + one) == o + src && o + f == t + one
    ensures u + (f + r) + s == t + src
  {
    var left, right := u + (f + r) + s, t + src;
    assert left + one == u + r + (s + one) + f;
    assert right + one == (t + one) + src;
    assert (o + src) + f == (o + f) + src;
    assert left == (left + one) - one && right == (right + one) - one;
  }

  lemma {:induction false} BagUpdate<V>(recs: seq<Record<V>>, p: nat, r: Record<V>)
    requires p < |recs|
    ensures Bag(recs[p := r]) + One(recs[p]) == Bag(recs) + One(r)
    decreases |recs|
  {
    hide One;
    var n := |recs| - 1;
    if p < n {
      BagUpdate(recs[..n], p, r);
      assert recs[p := r][..n] == recs[..n][p := r];
      AddBoth(Bag(recs[..n][p := r]), One(recs[p]), Bag(recs[..n]), One(r), One(recs[n]));
    } else {
      assert recs[p := r][..n] == recs[..n];
    }
  }

  lemma {:induction false} InsertConserves<V>(t: Table<V>, rec: Record<V>)
    requires 0 < |t.recs| && Insert(t, rec).Some?
    ensures var o := Insert(t, rec).value;
      Bag(o.table.recs) + multiset(o.freed) == Bag(t.recs) + One(rec)
  {
    hide Bag;
    var p := Slot(rec.hash, StopAt(t.recs, rec.Key(), 0, t.used + 1), |t.recs|);
    BagUpdate(t.recs, p, rec);
  }

  lemma {:induction false} InsertSize<V>(t: Table<V>, rec: Record<V>)
    requires 0 < |t.recs| && Insert(t, rec).Some?
    ensures |Insert(t, rec).value.table.recs| == |t.recs|
  {
  }

  /** One round of the re-insertion loop. */
  lemma {:induction false} RehashNext<V>(src: seq<Record<V>>, i: nat, t: Table<V>)
    requires i < |src| && 0 < |t.recs| && src[i].hash != 0 && Rehash(src, i, t).Some?
    ensures Insert(t, src[i]).Some?
    ensures var o := Insert(t, src[i]).value;
      && 0 < |o.table.recs| && Rehash(src, i + 1, o.table).Some?
      && Rehash(src, i, t).value.0 == Rehash(src, i + 1, o.table).value.0
      && multiset(Rehash(src, i, t).value.1) == multiset(o.freed) + multiset(Rehash(src, i + 1, o.table).value.1)
  {
    InsertSize(t, src[i]);
    hide Insert;
    var o := Insert(t, src[i]).value;
    var rest := Rehash(src, i + 1, o.table).value.1;
    assert multiset(o.freed + rest) == multiset(o.freed) + multiset(rest);
  }

  lemma {:induction false} BagNext<V>(recs: seq<Record<V>>, i: nat)
    requires i < |recs|
    ensures Bag(recs[..i + 1]) == Bag(recs[..i]) + One(recs[i]) && (recs[i].hash == 0 ==> One(recs[i]) == multiset{})
  {
    assert recs[..i + 1][..i] == recs[..i];
  }

  lemma {:induction false} RehashConserves<V>(src: seq<Record<V>>, i: nat, t: Table<V>)
    requires i <= |src| && 0 < |t.recs| && Rehash(src, i, t).Some?
    ensures var (u, freed) := Rehash(src, i, t).value;
      Bag(u.recs) + multiset(freed) + Bag(src[..i]) == Bag(t.recs) + Bag(src)
    decreases |src| - i
  {
    hide Insert, Bag, One;
    if i == |src| {
      assert src[..i] == src;
    } else {
      BagNext(src, i);
      if src[i].hash == 0 {
        RehashConserves(src, i + 1, t);
      } else {
        RehashNext(src, i, t);
        hide Rehash;
        InsertConserves(t, src[i]);
        var o := Insert(t, src[i]).value;
        RehashConserves(src, i + 1, o.table);
        var rest := Rehash(src, i + 1, o.table).value;
        Chain(Bag(rest.0.recs), multiset(rest.1), Bag(src[..i]), One(src[i]),
          Bag(o.table.recs), Bag(src), multiset(o.freed), Bag(t.recs));
      }
    }
  }

  lemma {:induction false} Follow<T>(o: multiset<T>, g: multiset<T>, u: multiset<T>, one: multiset<T>, f: multiset<T>,
        src: multiset<T>)
    requires o + g == u + one && u + f == src
    ensures o + (f + g) == src + one
  {
    assert o + (f + g) == (o + g) + f;
    assert src + one == (u + one) + f;
  }

  /** In every state, duplicates and broken chains included: what a set leaves in the table together with
      what it hands to `ffree` is what was in the table and the new record. */
  lemma {:induction false} PutConserves<V>(t: Table<V>, rec: Record<V>, nil: V)
    requires 0 < |t.recs| && Put(t, rec, nil).Some?
    ensures var o := Put(t, rec, nil).value;
      Bag(o.table.recs) + multiset(o.freed) == Bag(t.recs) + One(rec)
  {
    hide Insert, Rehash, Bag, One;
    if t.used > |t.recs| * 3 / 4 {
      var blank := Table(Blank(2 * |t.recs|, nil), 0);
      RehashConserves(t.recs, 0, blank);
      BlankBag(2 * |t.recs|, nil);
      assert t.recs[..0] == Blank(0, nil);
      BlankBag(0, nil);
      var (u, freed) := Resize(t, nil).value;
      assert Bag(u.recs) + multiset(freed) + multiset{} == Bag(u.recs) + multiset(freed);
      assert multiset{} + Bag(t.recs) == Bag(t.recs);
      InsertConserves(u, rec);
      var o := Insert(u, rec).value;
      assert multiset(freed + o.freed) == multiset(freed) + multiset(o.freed);
      Follow(Bag(o.table.recs), multiset(o.freed), Bag(u.recs), One(rec), multiset(freed), Bag(t.recs));
    } else {
      InsertConserves(t, rec);
    }
  }

  lemma {:induction false} BlankBag<V>(cap: nat, nil: V)
    ensures Bag(Blank(cap, nil)) == multiset{}
  {
    if cap > 0 {
      BlankBag(cap - 1, nil);
      assert Blank(cap, nil)[..cap - 1] == Blank(cap - 1, nil);
    }
  }
}
