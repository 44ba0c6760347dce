/** Lookups, removals and whole runs over the table of core/map.c. */
module ProbeRuns {
  import opened Bits
  import opened ProbeTable
  import opened Wrappers

  // ----- Lookups -----

  /** A lookup is right about every record exactly when each lies within `used` steps of its home slot. */
  predicate Reachable<V>(t: Table<V>) {
    forall p :: 0 <= p < |t.recs| && t.recs[p].hash != 0 ==> Dist(t.recs[p].hash, p, |t.recs|) <= t.used
  }

  lemma {:induction false} LookupExact<V>(t: Table<V>, p: nat)
    requires Distinct(t.recs) && p < |t.recs| && t.recs[p].hash != 0
    ensures Lookup(t, t.recs[p].Key()) == Some(p) <==> Dist(t.recs[p].hash, p, |t.recs|) <= t.used
    ensures Lookup(t, t.recs[p].Key()) != Some(p) ==> Lookup(t, t.recs[p].Key()) == None
  {
    var id := t.recs[p].Key();
    var d := Dist(id.hash, p, |t.recs|);
    var i := HitAt(t.recs, id, 0, t.used + 1);
    SlotDist(id.hash, p, |t.recs|);
    assert Hits(t.recs, id, d);
    if i <= t.used {
      assert Hits(t.recs, id, i);
      assert Slot(id.hash, i, |t.recs|) == p;
      if d > t.used {
        assert i < d < |t.recs|;
        SlotInjective(id.hash, i, d, |t.recs|);
      }
    }
  }

  lemma {:induction false} ChainedReachable<V>(t: Table<V>)
    requires 0 < |t.recs| && |Occ(t.recs)| <= t.used && Chained(t.recs)
    ensures Reachable(t)
  {
    forall p | 0 <= p < |t.recs| && t.recs[p].hash != 0
      ensures Dist(t.recs[p].hash, p, |t.recs|) <= t.used
    {
      var d := Dist(t.recs[p].hash, p, |t.recs|);
      assert PathFull(t.recs, t.recs[p].hash, d);
      RunBound(t.recs, t.recs[p].hash, d, {});
    }
  }

  /** What a lookup answers, as a payload. */
  function Fetch<V>(t: Table<V>, id: Id): Option<Payload<V>>
    requires 0 < |t.recs|
  {
    match Lookup(t, id)
    case None => None
    case Some(p) => Some(t.recs[p].Load())
  }

  function MapGet<V>(m: map<Id, Payload<V>>, id: Id): Option<Payload<V>> {
    if id in m then Some(m[id]) else None
  }

  /** In any duplicate-free state lookups answer as the represented map does iff all records are in reach. */
  lemma {:induction false} FetchExactIff<V>(t: Table<V>, m: map<Id, Payload<V>>)
    requires 0 < |t.recs| && Distinct(t.recs) && Represents(t.recs, m)
    ensures (forall id: Id :: id.hash != 0 ==> Fetch(t, id) == MapGet(m, id)) <==> Reachable(t)
  {
    if Reachable(t) {
      forall id: Id | id.hash != 0
        ensures Fetch(t, id) == MapGet(m, id)
      {
        if id in m {
          var p :| 0 <= p < |t.recs| && t.recs[p].hash != 0 && t.recs[p].Key() == id;
          LookupExact(t, p);
        }
      }
    }
    if !Reachable(t) {
      var p :| 0 <= p < |t.recs| && t.recs[p].hash != 0 && Dist(t.recs[p].hash, p, |t.recs|) > t.used;
      LookupExact(t, p);
      var id := t.recs[p].Key();
      assert id.hash != 0 && Fetch(t, id) != MapGet(m, id);
    }
  }

  // ----- Removals -----

  lemma {:induction false} RemovedShape<V>(t: Table<V>, id: Id, m: map<Id, Payload<V>>)
    requires Refines(t, m) && id.hash != 0 && Lookup(t, id).Some?
    ensures var u := Remove(t, id);
      Sound(u) && Distinct(u.recs) && Represents(u.recs, m - {id}) && u.used == t.used - 1
  {
    hide Chained, HitAt, Sound;
    var p := Lookup(t, id).value;
    var u := Remove(t, id);
    RemoveSoundIff(t, id);
    forall id' | id' in m - {id}
      ensures exists q :: 0 <= q < |u.recs| && u.recs[q].hash != 0 && u.recs[q].Key() == id'
    {
      var q :| 0 <= q < |t.recs| && t.recs[q].hash != 0 && t.recs[q].Key() == id';
      assert u.recs[q].Key() == id';
    }
  }

  /** The path to `q` and `q` itself hold `d` records besides the hole at `p`. */
  lemma {:induction false} OneHole<V>(t: Table<V>, u: Table<V>, p: nat, q: nat, d: nat)
    requires p < |t.recs| && q < |t.recs| && q != p && t.recs[q].hash != 0
    requires d == Dist(t.recs[q].hash, q, |t.recs|) && PathFull(t.recs, t.recs[q].hash, d)
    requires u.recs == t.recs[p := t.recs[p].(hash := 0, k := 0)] && |Occ(u.recs)| <= u.used
    ensures d <= u.used
  {
    SlotDist(t.recs[q].hash, q, |t.recs|);
    forall i | 0 <= i < d + 1 && u.recs[Slot(t.recs[q].hash, i, |u.recs|)].hash == 0
      ensures Slot(t.recs[q].hash, i, |u.recs|) in {p}
    {
      assert t.recs[Slot(t.recs[q].hash, i, |t.recs|)].hash != 0;
    }
    RunBound(u.recs, u.recs[q].hash, d + 1, {p});
  }

  lemma {:induction false} RemovedReachable<V>(t: Table<V>, id: Id, m: map<Id, Payload<V>>)
    requires Refines(t, m) && id.hash != 0 && Lookup(t, id).Some?
    ensures Reachable(Remove(t, id))
  {
    var p := Lookup(t, id).value;
    var u := Remove(t, id);
    RemovedShape(t, id, m);
    forall q | 0 <= q < |u.recs| && u.recs[q].hash != 0
      ensures Dist(u.recs[q].hash, q, |u.recs|) <= u.used
    {
      var d := Dist(u.recs[q].hash, q, |u.recs|);
      assert PathFull(t.recs, t.recs[q].hash, d);
      OneHole(t, u, p, q, d);
    }
  }

  /** From chain form one removal deletes that key only, and every other key is still found. */
  lemma {:induction false} RemoveOnce<V>(t: Table<V>, id: Id, m: map<Id, Payload<V>>)
    requires Refines(t, m) && id.hash != 0
    ensures var u := Remove(t, id);
      && Sound(u) && Distinct(u.recs) && Represents(u.recs, m - {id}) && Reachable(u)
      && u.used == t.used - (if id in m then 1 else 0)
      && (Tidy(t) ==> Tidy(u))
    ensures forall id': Id :: id'.hash != 0 ==> Fetch(Remove(t, id), id') == MapGet(m - {id}, id')
  {
    hide Occ, Strays, Tidy;
    var u := Remove(t, id);
    ChainedReachable(t);
    FetchExactIff(t, m);
    assert Fetch(t, id) == MapGet(m, id);
    if Tidy(t) {
      RemoveTidyIff(t, id);
    }
    RemoveSoundIff(t, id);
    if id in m {
      RemovedShape(t, id, m);
      RemovedReachable(t, id, m);
    } else {
      assert m - {id} == m;
    }
    FetchExactIff(u, m - {id});
  }

  /** Re-setting a stored key: recognised as an update, and free of duplicates, exactly when no hole
      lies between its home slot and the record. */
  lemma {:induction false} ReinsertIff<V>(t: Table<V>, rec: Record<V>, p: nat)
    requires 0 < |t.recs| && |Occ(t.recs)| <= t.used < |t.recs| && Distinct(t.recs) && rec.hash != 0
    requires p < |t.recs| && t.recs[p].Key() == rec.Key()
    ensures Insert(t, rec).Some?
    ensures Insert(t, rec).value.status == Update <==> PathFull(t.recs, rec.hash, Dist(rec.hash, p, |t.recs|))
    ensures Distinct(Insert(t, rec).value.table.recs) <==> PathFull(t.recs, rec.hash, Dist(rec.hash, p, |t.recs|))
  {
    InsertStops(t, rec);
    var cap := |t.recs|;
    var d := Dist(rec.hash, p, cap);
    var i := StopAt(t.recs, rec.Key(), 0, t.used + 1);
    var q := Slot(rec.hash, i, cap);
    SlotDist(rec.hash, p, cap);
    assert Stops(t.recs, rec.Key(), d);
    if PathFull(t.recs, rec.hash, d) {
      if i < d {
        assert t.recs[q].hash != 0;
        assert q == p;
        SlotInjective(rec.hash, i, d, cap);
      }
      assert i == d;
    } else {
      var j :| 0 <= j < d && t.recs[Slot(rec.hash, j, cap)].hash == 0;
      assert Stops(t.recs, rec.Key(), j);
      assert i <= j;
      if t.recs[q].hash != 0 {
        assert q == p;
        SlotInjective(rec.hash, i, d, cap);
      }
      var recs' := Insert(t, rec).value.table.recs;
      assert recs'[q].Key() == recs'[p].Key() && p != q;
    }
  }

  // ----- Runs -----

  datatype Op<+V> = Set(rec: Record<V>) | Get(id: Id) | Del(id: Id)
  datatype Answer<+V> = Stored(status: Status, previous: Payload<V>) | Found(load: Option<Payload<V>>) | Done

  predicate NonZero<V>(op: Op<V>) {
    match op
    case Set(rec) => rec.hash != 0
    case Get(id) => id.hash != 0
    case Del(id) => id.hash != 0
  }

  /** One call on the table; `None` when it runs into the `assert(0)`. */
  function Step<V>(t: Table<V>, op: Op<V>, nil: V): (r: Option<(Table<V>, Answer<V>)>)
    requires 0 < |t.recs|
  {
    match op
    case Set(rec) =>
      (match Put(t, rec, nil)
       case None => None
       case Some(o) => Some((o.table, Stored(o.status, o.back.Load()))))
    case Get(id) => Some((t, Found(Fetch(t, id))))
    case Del(id) => Some((Remove(t, id), Done))
  }

  /** The map reading of a call. A key whose hash is the empty mark is never remembered. */
  function MapStep<V>(m: map<Id, Payload<V>>, op: Op<V>): (map<Id, Payload<V>>, Answer<V>) {
    match op
    case Set(rec) =>
      if rec.hash == 0 then (m, Stored(Added, rec.Load()))
      else (m[rec.Key() := rec.Load()],
       if rec.Key() in m then Stored(Update, m[rec.Key()]) else Stored(Added, rec.Load()))
    case Get(id) => (m, Found(MapGet(m, id)))
    case Del(id) => (m - {id}, Done)
  }

  function Run<V>(t: Table<V>, ops: seq<Op<V>>, nil: V): Option<(Table<V>, seq<Answer<V>>)>
    decreases |ops|
  {
    if ops == [] then Some((t, []))
    else if t.recs == [] then None
    else
      match Step(t, ops[0], nil)
      case None => None
      case Some(s) =>
        match Run(s.0, ops[1..], nil)
        case None => None
        case Some(r) => Some((r.0, [s.1] + r.1))
  }

  function MapRun<V>(m: map<Id, Payload<V>>, ops: seq<Op<V>>): (map<Id, Payload<V>>, seq<Answer<V>>)
    decreases |ops|
  {
    if ops == [] then (m, [])
    else
      var (m1, a) := MapStep(m, ops[0]);
      var (m2, rest) := MapRun(m1, ops[1..]);
      (m2, [a] + rest)
  }

  /** Sets of any key and gets of keys whose hash is not the empty mark. */
  predicate SetOrGet<V>(op: Op<V>) {
    op.Set? || (op.Get? && op.id.hash != 0)
  }

  lemma {:induction false} StepRefines<V>(t: Table<V>, op: Op<V>, nil: V, m: map<Id, Payload<V>>)
    requires Refines(t, m) && SetOrGet(op)
    ensures Step(t, op, nil).Some? && Step(t, op, nil).value.1 == MapStep(m, op).1
    ensures Refines(Step(t, op, nil).value.0, MapStep(m, op).0)
  {
    hide Put, Occ, Strays, Shaped;
    match op {
      case Set(rec) =>
        if rec.hash == 0 {
          PutStray(t, rec, nil, m);
        } else {
          PutRefines(t, rec, nil, m);
        }
      case Get(_) =>
        CoveredCapacity(t);
        ChainedReachable(t);
        FetchExactIff(t, m);
      case _ =>
    }
  }

  /** Every run of sets and gets answers call by call as a finite map would. */
  lemma {:induction false} RunRefines<V>(t: Table<V>, ops: seq<Op<V>>, nil: V, m: map<Id, Payload<V>>)
    requires Refines(t, m)
    requires forall op :: op in ops ==> SetOrGet(op)
    ensures Run(t, ops, nil).Some?
    ensures Run(t, ops, nil).value.1 == MapRun(m, ops).1
    ensures Refines(Run(t, ops, nil).value.0, MapRun(m, ops).0)
    decreases |ops|
  {
    hide Step, MapStep, Occ, Strays, Chained, Distinct, Represents;
    if ops != [] {
      var op := ops[0];
      assert op in ops;
      StepRefines(t, op, nil, m);
      RunRefines(Step(t, op, nil).value.0, ops[1..], nil, MapStep(m, op).0);
    }
  }

  // ----- Every state reachable with removals -----

  /** No run of sets, gets and removals reaches the `assert(0)`, keys of hash 0 included, as long as the
      all-zero key, which every blank slot matches, is not removed. */
  lemma {:induction false} RunNeverAborts<V>(t: Table<V>, ops: seq<Op<V>>, nil: V)
    requires Sound(t)
    requires forall op :: op in ops && op.Del? ==> op.id != Id(0, 0)
    ensures Run(t, ops, nil).Some? && Sound(Run(t, ops, nil).value.0)
    decreases |ops|
  {
    hide Put, Occ, Strays, Shaped, Lookup;
    if ops != [] {
      var op := ops[0];
      assert op in ops;
      match op {
        case Set(rec) => PutSound(t, rec, nil);
        case Get(_) =>
        case Del(id) => RemoveSoundIff(t, id);
      }
      CoveredCapacity(t);
      RunNeverAborts(Step(t, op, nil).value.0, ops[1..], nil);
    }
  }

  /** Over runs on keys of nonzero hash the counter stays exact. */
  lemma {:induction false} RunKeepsCount<V>(t: Table<V>, ops: seq<Op<V>>, nil: V)
    requires Tidy(t)
    requires forall op :: op in ops ==> NonZero(op)
    ensures Run(t, ops, nil).Some?
    ensures var u := Run(t, ops, nil).value.0; Tidy(u) && u.used <= |u.recs|
    decreases |ops|
  {
    if ops == [] {
      OccBound(t.recs);
    } else {
      var op := ops[0];
      assert op in ops;
      match op {
        case Set(rec) => PutTidy(t, rec, nil);
        case Get(_) =>
        case Del(id) => RemoveTidyIff(t, id);
      }
      RunKeepsCount(Step(t, op, nil).value.0, ops[1..], nil);
    }
  }

  // ----- Creation -----

  /** `poolmap_new` picks the least power of two that is at least `max(init, 4)`. */
  lemma {:induction false} CapacityIsLeast(init: nat, k: nat)
    ensures CapacityFor(init) >= init && CapacityFor(init) >= 4
    ensures exists j: nat :: CapacityFor(init) == Pow2(j)
    ensures Pow2(k) >= init && Pow2(k) >= 4 ==> CapacityFor(init) <= Pow2(k)
  {
    var n := if init < 4 then 4 else init;
    var b := BitLength(n - 1);
    if Pow2(k) >= n {
      if k < b {
        Pow2Monotone(k, b - 1);
      } else {
        Pow2Monotone(b, k);
      }
    }
  }

  lemma {:induction false} NewRefines<V>(init: nat, nil: V)
    ensures Refines(New(init, nil), map[]) && Tidy(New(init, nil))
  {
    CapacityIsLeast(init, 0);
    BlankRefines(CapacityFor(init), nil);
  }

  /** The whole story for sets and gets: from `poolmap_new` on, the table answers as a map. */
  lemma {:induction false} RunFromNew<V>(init: nat, ops: seq<Op<V>>, nil: V)
    requires forall op :: op in ops ==> SetOrGet(op)
    ensures Run(New(init, nil), ops, nil).Some?
    ensures Run(New(init, nil), ops, nil).value.1 == MapRun(map[], ops).1
  {
    NewRefines(init, nil);
    RunRefines(New(init, nil), ops, nil, map[]);
  }

  // ----- The capacity over runs -----

  /** The least capacity from `initial` on by doubling that may hold `n` records when a set begins. */
  ghost predicate LeastCapacity(cap: nat, initial: nat, n: nat) {
    && (exists j: nat :: cap == initial * Pow2(j))
    && 4 * n <= 3 * cap
    && (cap == initial || 8 * n > 3 * cap)
  }

  lemma {:induction false} LeastStep(cap: nat, initial: nat, n: nat, n': nat)
    requires LeastCapacity(cap, initial, n) && n <= n' <= n + 1 && cap >= 4
    ensures LeastCapacity(if 4 * n' > 3 * cap then 2 * cap else cap, initial, n')
  {
    var j: nat :| cap == initial * Pow2(j);
    assert 2 * cap == initial * Pow2(j + 1);
  }

  /** The keys set by all calls but the last. */
  function Before<V>(ops: seq<Op<V>>): map<Id, Payload<V>> {
    if ops == [] then map[] else MapRun(map[], ops[..|ops| - 1]).0
  }

  lemma {:induction false} MapRunSnoc<V>(m: map<Id, Payload<V>>, ops: seq<Op<V>>, op: Op<V>)
    ensures MapRun(m, ops + [op]).0 == MapStep(MapRun(m, ops).0, op).0
    decreases |ops|
  {
    if ops == [] {
      assert ([] + [op])[1..] == [];
    } else {
      assert (ops + [op])[1..] == ops[1..] + [op];
      MapRunSnoc(MapStep(m, ops[0]).0, ops[1..], op);
    }
  }

  lemma {:induction false} RunSnoc<V>(t: Table<V>, ops: seq<Op<V>>, op: Op<V>, nil: V)
    requires Run(t, ops, nil).Some? && 0 < |Run(t, ops, nil).value.0.recs|
    requires Step(Run(t, ops, nil).value.0, op, nil).Some?
    ensures Run(t, ops + [op], nil).Some?
    ensures Run(t, ops + [op], nil).value.0 == Step(Run(t, ops, nil).value.0, op, nil).value.0
    decreases |ops|
  {
    hide Step;
    if ops == [] {
      assert [] + [op] == [op] && [op][1..] == [];
    } else {
      assert (ops + [op])[1..] == ops[1..] + [op];
      RunSnoc(Step(t, ops[0], nil).value.0, ops[1..], op, nil);
    }
  }

  /** Over sets from `poolmap_new` the table always has the least capacity, from the initial one on, whose
      load limit of three quarters allowed for the records present when the last set began. */
  lemma {:induction false} RunCapacity<V>(init: nat, ops: seq<Op<V>>, nil: V)
    requires forall op :: op in ops ==> op.Set? && op.rec.hash != 0
    ensures Run(New(init, nil), ops, nil).Some?
    ensures var u := Run(New(init, nil), ops, nil).value.0;
      && Refines(u, MapRun(map[], ops).0) && Tidy(u) && u.used == |MapRun(map[], ops).0|
      && LeastCapacity(|u.recs|, CapacityFor(init), |Before(ops)|)
    ensures |Before(ops)| <= |MapRun(map[], ops).0| <= |Before(ops)| + 1
    decreases |ops|
  {
    hide Refines, Tidy, Put, LeastCapacity, MapRun, Run, Sound;
    var t := New(init, nil);
    if ops == [] {
      NewRefines(init, nil);
      CapacityIsLeast(init, 0);
      RunEmpty(t, nil);
      LeastStart(CapacityFor(init));
      NewSize(init, nil);
    } else {
      var n := |ops| - 1;
      var front, op := ops[..n], ops[n];
      assert ops == front + [op] && op in ops;
      RunCapacity(init, front, nil);
      var before, m := Run(t, front, nil).value.0, MapRun(map[], front).0;
      RefinesSound(before, m);
      CoveredCapacity(before);
      PutRefines(before, op.rec, nil, m);
      PutCount(before, op.rec, nil, m);
      PutCapacity(before, op.rec, nil);
      MapGrows(m, op.rec.Key(), op.rec.Load());
      MapRunSnoc(map[], front, op);
      RunSnoc(t, front, op, nil);
      LeastStep(|before.recs|, CapacityFor(init), |Before(front)|, |m|);
    }
  }

  lemma {:induction false} RunEmpty<V>(t: Table<V>, nil: V)
    ensures Run(t, [], nil) == Some((t, []))
    ensures MapRun<V>(map[], []).0 == map[]
  {
  }

  lemma {:induction false} LeastStart(cap: nat)
    ensures LeastCapacity(cap, cap, 0)
  {
    assert cap == cap * Pow2(0);
  }

  lemma {:induction false} NewSize<V>(init: nat, nil: V)
    ensures |New(init, nil).recs| == CapacityFor(init) && New(init, nil).used == 0
  {
  }

  lemma {:induction false} RefinesSound<V>(t: Table<V>, m: map<Id, Payload<V>>)
    requires Refines(t, m)
    ensures Sound(t)
  {
  }
}
