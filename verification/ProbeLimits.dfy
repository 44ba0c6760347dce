/** Where the map reading of core/map.c stops: removals, and keys whose hash is the empty mark. */
module ProbeLimits {
  import opened Bits
  import opened Hash
  import opened ProbeTable
  import opened ProbeRuns
  import opened Wrappers

  /** A record for a key, with its second hash as the stored key (as plugins/pool/react.c has it). */
  function KeyRecord(key: Bytes, v: int): Record<int> {
    Record(DjbHash(key), Hash0(key), v, 0)
  }

  // The keys "a", "e", "i" and "m": all four start probing at slot 2 of a four-slot table.
  const A: Bytes := [97]
  const E: Bytes := [101]
  const I: Bytes := [105]
  const M: Bytes := [109]

  /** The hashes of a one-byte key; a byte of 128 and more counts negative, being a signed character. */
  lemma {:induction false} OneByte(c: Byte)
    ensures c < 128 ==> KeyId([c]) == Id(177573 + c, 1205063 + c)
    ensures c >= 128 ==> KeyId([c]) == Id(177573 + c - 256, 1205063 + c - 256)
  {
    var p: Bytes := [c];
    assert p[..0] == [];
    assert Fold(33, DJB_SEED, p) == 177573 + (if c < 128 then c else c - 256);
    assert Fold(31, HASH0_SEED, p) == 1205063 + (if c < 128 then c else c - 256);
  }

  lemma {:induction false} KeyHashes()
    ensures KeyId(A) == Id(177670, 1205160) && KeyId(E) == Id(177674, 1205164)
    ensures KeyId(I) == Id(177678, 1205168) && KeyId(M) == Id(177682, 1205172)
  {
    OneByte(97);
    OneByte(101);
    OneByte(105);
    OneByte(109);
  }

  /** The insertion made once the first stopping probe is known. */
  lemma {:induction false} InsertAt<V>(t: Table<V>, rec: Record<V>, i: nat)
    requires 0 < |t.recs| && i <= t.used + 1
    requires i <= t.used ==> Stops(t.recs, rec.Key(), i)
    requires forall j :: 0 <= j < i ==> !Stops(t.recs, rec.Key(), j)
    ensures StopAt(t.recs, rec.Key(), 0, t.used + 1) == i
  {
    var r := StopAt(t.recs, rec.Key(), 0, t.used + 1);
    assert r <= t.used ==> Stops(t.recs, rec.Key(), r);
  }

  const NONE: Record<int> := Record(0, 0, 0, 0)

  /** "a", "e" and "i" in a new table. */
  function Crowded(): Table<int> {
    Table([KeyRecord(I, 30), NONE, KeyRecord(A, 10), KeyRecord(E, 20)], 3)
  }

  function Filling(): seq<Op<int>> {
    [Set(KeyRecord(A, 10)), Set(KeyRecord(E, 20)), Set(KeyRecord(I, 30))]
  }

  function Answers(): seq<Answer<int>> {
    [Stored(Added, Payload(10, 0)), Stored(Added, Payload(20, 0)), Stored(Added, Payload(30, 0))]
  }

  // ----- Running calls one by one -----

  lemma {:induction false} RunCons<V>(t: Table<V>, op: Op<V>, ops: seq<Op<V>>, nil: V)
    requires 0 < |t.recs|
    ensures Run(t, [op] + ops, nil) ==
      match Step(t, op, nil)
      case None => None
      case Some(s) =>
        match Run(s.0, ops, nil)
        case None => None
        case Some(r) => Some((r.0, [s.1] + r.1))
  {
    assert ([op] + ops)[1..] == ops;
  }

  lemma {:induction false} MapRunCons<V>(m: map<Id, Payload<V>>, op: Op<V>, ops: seq<Op<V>>)
    ensures MapRun(m, [op] + ops).1 == [MapStep(m, op).1] + MapRun(MapStep(m, op).0, ops).1
  {
    assert ([op] + ops)[1..] == ops;
  }

  lemma {:induction false} NewFour()
    ensures New(4, 0) == Table([NONE, NONE, NONE, NONE], 0)
  {
    assert CapacityFor(4) == 4;
    assert Blank(4, 0) == [NONE, NONE, NONE, NONE];
  }

  /** A set that finds its hole at probe `i` of a four-slot table. */
  lemma {:induction false} FillStep(t: Table<int>, rec: Record<int>, i: nat)
    requires |t.recs| == 4 && i <= t.used <= 3 && t.recs[(rec.hash + i) % 4].hash == 0
    requires forall j :: 0 <= j < i ==> !Stops(t.recs, rec.Key(), j)
    ensures Step(t, Set(rec), 0) ==
      Some((Table(t.recs[(rec.hash + i) % 4 := rec], t.used + 1), Stored(Added, rec.Load())))
  {
    InsertAt(t, rec, i);
  }

  lemma {:induction false} FillA()
    ensures Step(Table([NONE, NONE, NONE, NONE], 0), Set(KeyRecord(A, 10)), 0)
      == Some((Table([NONE, NONE, KeyRecord(A, 10), NONE], 1), Stored(Added, Payload(10, 0))))
  {
    hide DjbHash, Hash0, Step;
    KeyHashes();
    var t := Table([NONE, NONE, NONE, NONE], 0);
    FillStep(t, KeyRecord(A, 10), 0);
    assert t.recs[2 := KeyRecord(A, 10)] == [NONE, NONE, KeyRecord(A, 10), NONE];
  }

  lemma {:induction false} FillE()
    ensures Step(Table([NONE, NONE, KeyRecord(A, 10), NONE], 1), Set(KeyRecord(E, 20)), 0)
      == Some((Table([NONE, NONE, KeyRecord(A, 10), KeyRecord(E, 20)], 2), Stored(Added, Payload(20, 0))))
  {
    hide DjbHash, Hash0, Step;
    KeyHashes();
    var t := Table([NONE, NONE, KeyRecord(A, 10), NONE], 1);
    assert Slot(177674, 0, 4) == 2;
    FillStep(t, KeyRecord(E, 20), 1);
    assert t.recs[3 := KeyRecord(E, 20)] == [NONE, NONE, KeyRecord(A, 10), KeyRecord(E, 20)];
  }

  lemma {:induction false} FillI()
    ensures Step(Table([NONE, NONE, KeyRecord(A, 10), KeyRecord(E, 20)], 2), Set(KeyRecord(I, 30)), 0)
      == Some((Crowded(), Stored(Added, Payload(30, 0))))
  {
    hide DjbHash, Hash0, Step;
    KeyHashes();
    var t := Table([NONE, NONE, KeyRecord(A, 10), KeyRecord(E, 20)], 2);
    assert Slot(177678, 0, 4) == 2 && Slot(177678, 1, 4) == 3;
    FillStep(t, KeyRecord(I, 30), 2);
    assert t.recs[0 := KeyRecord(I, 30)] == Crowded().recs;
  }

  /** The crowded table is reached from `poolmap_new` by setting three keys. */
  lemma {:induction false} CrowdedReached(rest: seq<Op<int>>)
    ensures Run(New(4, 0), Filling() + rest, 0) ==
      match Run(Crowded(), rest, 0)
      case None => None
      case Some(r) => Some((r.0, Answers() + r.1))
  {
    hide Step, KeyRecord, Run;
    NewFour();
    FillA();
    FillE();
    FillI();
    var a, e, i := Set(KeyRecord(A, 10)), Set(KeyRecord(E, 20)), Set(KeyRecord(I, 30));
    assert Filling() + rest == [a] + ([e] + ([i] + rest));
    RunCons(Table([NONE, NONE, NONE, NONE], 0), a, [e] + ([i] + rest), 0);
    RunCons(Table([NONE, NONE, KeyRecord(A, 10), NONE], 1), e, [i] + rest, 0);
    RunCons(Table([NONE, NONE, KeyRecord(A, 10), KeyRecord(E, 20)], 2), i, rest, 0);
    if Run(Crowded(), rest, 0).Some? {
      var r := Run(Crowded(), rest, 0).value.1;
      assert Answers() + r == [Answers()[0]] + ([Answers()[1]] + ([Answers()[2]] + r));
    }
  }

  function FullMap(): map<Id, Payload<int>> {
    map[][KeyId(A) := Payload(10, 0)][KeyId(E) := Payload(20, 0)][KeyId(I) := Payload(30, 0)]
  }

  lemma {:induction false} FullMapReached(rest: seq<Op<int>>)
    ensures MapRun(map[], Filling() + rest).1 == Answers() + MapRun(FullMap(), rest).1
  {
    hide MapRun, DjbHash, Hash0;
    KeyHashes();
    var none: map<Id, Payload<int>> := map[];
    var a, e, i := Set(KeyRecord(A, 10)), Set(KeyRecord(E, 20)), Set(KeyRecord(I, 30));
    assert Filling() + rest == [a] + ([e] + ([i] + rest));
    MapRunCons(none, a, [e] + ([i] + rest));
    MapRunCons(none[KeyId(A) := Payload(10, 0)], e, [i] + rest);
    MapRunCons(none[KeyId(A) := Payload(10, 0)][KeyId(E) := Payload(20, 0)], i, rest);
    var r := MapRun(FullMap(), rest).1;
    assert Answers() + r == [Answers()[0]] + ([Answers()[1]] + ([Answers()[2]] + r));
  }

  lemma {:induction false} CrowdedDistinct()
    ensures Distinct(Crowded().recs)
  {
    hide DjbHash, Hash0;
    KeyHashes();
  }

  // ----- Removals -----

  /** A removal that finds its record at slot `p` of a four-slot table. */
  lemma {:induction false} RemoveStep(t: Table<int>, p: nat)
    requires |t.recs| == 4 && p < 4 && t.recs[p].hash != 0 && t.used > 0 && Distinct(t.recs)
    requires Dist(t.recs[p].hash, p, 4) <= t.used
    ensures Step(t, Del(t.recs[p].Key()), 0) ==
      Some((Table(t.recs[p := t.recs[p].(hash := 0, k := 0)], t.used - 1), Done))
  {
    LookupExact(t, p);
  }

  function WithoutA(): Table<int> {
    Table([KeyRecord(I, 30), NONE, Record(0, 0, 10, 0), KeyRecord(E, 20)], 2)
  }

  function WithoutAE(): Table<int> {
    Table([KeyRecord(I, 30), NONE, Record(0, 0, 10, 0), Record(0, 0, 20, 0)], 1)
  }

  lemma {:induction false} RemoveA()
    ensures Step(Crowded(), Del(KeyId(A)), 0) == Some((WithoutA(), Done))
  {
    hide DjbHash, Hash0, Step, Distinct;
    KeyHashes();
    CrowdedDistinct();
    RemoveStep(Crowded(), 2);
    assert Crowded().recs[2 := Record(0, 0, 10, 0)] == WithoutA().recs;
  }

  lemma {:induction false} WithoutDistinct()
    ensures Distinct(WithoutA().recs) && Distinct(WithoutAE().recs)
  {
    hide DjbHash, Hash0;
    KeyHashes();
  }

  lemma {:induction false} RemoveE()
    ensures Step(WithoutA(), Del(KeyId(E)), 0) == Some((WithoutAE(), Done))
  {
    hide DjbHash, Hash0, Step, Distinct;
    KeyHashes();
    WithoutDistinct();
    RemoveStep(WithoutA(), 3);
    assert WithoutA().recs[3 := Record(0, 0, 20, 0)] == WithoutAE().recs;
  }

  lemma {:induction false} RunNone<V>(t: Table<V>)
    ensures forall nil: V :: Run(t, [], nil) == Some((t, []))
  {
  }

  lemma {:induction false} MapRunNone<V>(m: map<Id, Payload<V>>)
    ensures MapRun(m, []) == (m, [])
  {
  }

  /** From `poolmap_new`: after setting "a", "e" and "i" and removing the first two, "i" is still stored
      but cannot be found any more, because the probe bound has sunk below its distance. */
  lemma {:induction false} TwoRemovalsLoseARecord()
    ensures var ops := Filling() + [Del(KeyId(A)), Del(KeyId(E)), Get(KeyId(I))];
      && Run(New(4, 0), ops, 0).Some?
      && Run(New(4, 0), ops, 0).value.0 == WithoutAE() && WithoutAE().recs[0] == KeyRecord(I, 30)
      && Run(New(4, 0), ops, 0).value.1 == Answers() + [Done, Done, Found(None)]
      && MapRun(map[], ops).1 == Answers() + [Done, Done, Found(Some(Payload(30, 0)))]
  {
    hide DjbHash, Hash0, Run, MapRun, HitAt;
    var a, e, i: Op<int> := Del(KeyId(A)), Del(KeyId(E)), Get(KeyId(I));
    var t1, t2 := WithoutA(), WithoutAE();
    KeyHashes();
    CrowdedReached([a, e, i]);
    FullMapReached([a, e, i]);
    RemoveA();
    RemoveE();
    WithoutDistinct();
    LookupExact(t2, 0);
    assert [a, e, i] == [a] + ([e] + ([i] + []));
    RunCons(Crowded(), a, [e] + ([i] + []), 0);
    RunCons(t1, e, [i] + [], 0);
    RunCons(t2, i, [], 0);
    RunNone(t2);
    MapRunCons(FullMap(), a, [e] + ([i] + []));
    MapRunCons(FullMap() - {KeyId(A)}, e, [i] + []);
    MapRunCons(FullMap() - {KeyId(A)} - {KeyId(E)}, i, []);
    MapRunNone(FullMap() - {KeyId(A)} - {KeyId(E)});
  }

  function Doubled(): Table<int> {
    Table([KeyRecord(I, 30), NONE, KeyRecord(I, 31), KeyRecord(E, 20)], 3)
  }

  /** From `poolmap_new`: after setting "a", "e" and "i" and removing "a", setting "i" again takes the hole
      in front of its record. The status is ADDED and the key is stored twice. */
  lemma {:induction false} SetAfterRemovalDuplicates()
    ensures var ops := Filling() + [Del(KeyId(A)), Set(KeyRecord(I, 31))];
      && Run(New(4, 0), ops, 0) == Some((Doubled(), Answers() + [Done, Stored(Added, Payload(31, 0))]))
      && !Distinct(Doubled().recs)
      && MapRun(map[], ops).1 == Answers() + [Done, Stored(Update, Payload(30, 0))]
  {
    hide DjbHash, Hash0, Run, MapRun, Step;
    var a, i := Del(KeyId(A)), Set(KeyRecord(I, 31));
    KeyHashes();
    CrowdedReached([a, i]);
    FullMapReached([a, i]);
    RemoveA();
    FillStep(WithoutA(), KeyRecord(I, 31), 0);
    assert WithoutA().recs[2 := KeyRecord(I, 31)] == Doubled().recs;
    assert Doubled().recs[0].Key() == Doubled().recs[2].Key();
    assert [a, i] == [a] + ([i] + []);
    RunCons(Crowded(), a, [i] + [], 0);
    RunCons(WithoutA(), i, [], 0);
    RunNone(Doubled());
    var added := Stored(Added, Payload(31, 0));
    assert [Done] + ([added] + []) == [Done, added];
    MapRunCons(FullMap(), a, [i] + []);
    MapRunCons(FullMap() - {KeyId(A)}, i, []);
    MapRunNone((FullMap() - {KeyId(A)})[KeyId(I) := Payload(31, 0)]);
  }

  // ----- The all-zero key -----

  /** "vcnqexampujifz": both hashes are 0, so every blank slot matches it. */
  const Z: Bytes := [118, 99, 110, 113, 101, 120, 97, 109, 112, 117, 106, 105, 102, 122]

  /** One more character, on numbers. */
  lemma {:induction false} FoldNext(mul: nat, seed: nat, p: Bytes, i: nat, h: nat, h': nat)
    requires seed < WORD && i < |p| && Fold(mul, seed, p[..i]) == h
    requires h' == (h * mul + Signed(p[i])) % WORD
    ensures Fold(mul, seed, p[..i + 1]) == h'
  {
    assert p[..i + 1][..i] == p[..i];
  }

  lemma {:induction false} FoldNone(mul: nat, seed: nat, p: Bytes)
    requires seed < WORD
    ensures Fold(mul, seed, p[..0]) == seed && p[..|p|] == p
  {
  }

  lemma {:induction false} DjbOfZ()
    ensures Fold(33, DJB_SEED, Z) == 2147483648
  {
    hide Fold;
    FoldNone(33, DJB_SEED, Z);
    FoldNext(33, DJB_SEED, Z, 0, 5381, 177691);
    FoldNext(33, DJB_SEED, Z, 1, 177691, 5863902);
    FoldNext(33, DJB_SEED, Z, 2, 5863902, 193508876);
    FoldNext(33, DJB_SEED, Z, 3, 193508876, 2090825725);
    FoldNext(33, DJB_SEED, Z, 4, 2090825725, 277772290);
    FoldNext(33, DJB_SEED, Z, 5, 277772290, 576551098);
    FoldNext(33, DJB_SEED, Z, 6, 576551098, 1846317147);
    FoldNext(33, DJB_SEED, Z, 7, 1846317147, 798923816);
    FoldNext(33, DJB_SEED, Z, 8, 798923816, 594682264);
    FoldNext(33, DJB_SEED, Z, 9, 594682264, 2444645645);
    FoldNext(33, DJB_SEED, Z, 10, 2444645645, 3363895063);
    FoldNext(33, DJB_SEED, Z, 11, 3363895063, 3634354784);
    FoldNext(33, DJB_SEED, Z, 12, 3634354784, 3969590982);
    FoldNext(33, DJB_SEED, Z, 13, 3969590982, 2147483648);
  }

  lemma {:induction false} Hash0OfZ()
    ensures Fold(31, HASH0_SEED, Z) == 2147483648
  {
    hide Fold;
    FoldNone(31, HASH0_SEED, Z);
    FoldNext(31, HASH0_SEED, Z, 0, 38873, 1205181);
    FoldNext(31, HASH0_SEED, Z, 1, 1205181, 37360710);
    FoldNext(31, HASH0_SEED, Z, 2, 37360710, 1158182120);
    FoldNext(31, HASH0_SEED, Z, 3, 1158182120, 1543907465);
    FoldNext(31, HASH0_SEED, Z, 4, 1543907465, 616491260);
    FoldNext(31, HASH0_SEED, Z, 5, 616491260, 1931359996);
    FoldNext(31, HASH0_SEED, Z, 6, 1931359996, 4037585125);
    FoldNext(31, HASH0_SEED, Z, 7, 4037585125, 611087400);
    FoldNext(31, HASH0_SEED, Z, 8, 611087400, 1763840328);
    FoldNext(31, HASH0_SEED, Z, 9, 1763840328, 3139442733);
    FoldNext(31, HASH0_SEED, Z, 10, 3139442733, 2833444317);
    FoldNext(31, HASH0_SEED, Z, 11, 2833444317, 1937428012);
    FoldNext(31, HASH0_SEED, Z, 12, 1937428012, 4225693626);
    FoldNext(31, HASH0_SEED, Z, 13, 4225693626, 2147483648);
  }

  lemma {:induction false} AllZeroKey()
    ensures KeyId(Z) == Id(0, 0)
  {
    hide Fold;
    DjbOfZ();
    Hash0OfZ();
  }

  lemma {:induction false} RemoveBlank()
    ensures Step(Crowded(), Del(Id(0, 0)), 0) == Some((Table(Crowded().recs, 2), Done))
  {
    hide DjbHash, Hash0;
    KeyHashes();
    assert Slot(0, 1, 4) == 1;
    assert Hits(Crowded().recs, Id(0, 0), 1);
    assert Lookup(Crowded(), Id(0, 0)) == Some(1);
    assert Crowded().recs[1 := NONE] == Crowded().recs;
  }

  /** A chain-form table on which one removal, of a key never set, makes the next set of a new key run
      into the `assert(0)`. */
  lemma {:induction false} BlankRemovalAborts()
    ensures Run(New(4, 0), Filling() + [Del(KeyId(Z)), Set(KeyRecord(M, 40))], 0) == None
  {
    hide DjbHash, Hash0, Run, HitAt;
    var z, m: Op<int> := Del(KeyId(Z)), Set(KeyRecord(M, 40));
    KeyHashes();
    AllZeroKey();
    CrowdedReached([z, m]);
    RemoveBlank();
    var t := Table(Crowded().recs, 2);
    assert Slot(177682, 0, 4) == 2 && Slot(177682, 1, 4) == 3 && Slot(177682, 2, 4) == 0;
    InsertAt(t, KeyRecord(M, 40), 3);
    assert [z, m] == [z] + ([m] + []);
    RunCons(Crowded(), z, [m] + [], 0);
    RunCons(t, m, [], 0);
  }

  // ----- Keys whose hash is the empty mark -----

  const GLIDPK: Bytes := [103, 108, 105, 100, 112, 107]

  /** The empty mark is the hash of real keys ("glidpk" is one), so callers cannot take `hash != 0` for
      granted. */
  lemma {:induction false} ZeroHashKey()
    ensures DjbHash(GLIDPK) == 0
  {
    hide Fold;
    FoldNone(33, DJB_SEED, GLIDPK);
    FoldNext(33, DJB_SEED, GLIDPK, 0, 5381, 177676);
    FoldNext(33, DJB_SEED, GLIDPK, 1, 177676, 5863416);
    FoldNext(33, DJB_SEED, GLIDPK, 2, 5863416, 193492833);
    FoldNext(33, DJB_SEED, GLIDPK, 3, 193492833, 2090296293);
    FoldNext(33, DJB_SEED, GLIDPK, 4, 2090296293, 260301045);
    FoldNext(33, DJB_SEED, GLIDPK, 5, 260301045, 0);
  }

  lemma {:induction false} StrayCounted<V>(t: Table<V>, rec: Record<V>)
    requires Sound(t) && t.used < |t.recs| && rec.hash == 0
    ensures Insert(t, rec).Some?
    ensures var o := Insert(t, rec).value;
      o.status == Added && o.back == rec && o.freed == [] && o.table.used > |Occ(o.table.recs)|
  {
    hide Occ, Strays;
    CoveredCapacity(t);
    InsertStops(t, rec);
    var p := Slot(rec.hash, StopAt(t.recs, rec.Key(), 0, t.used + 1), |t.recs|);
    OccUpdate(t.recs, p, rec);
    SubsetCount(Occ(t.recs) - {p}, Occ(t.recs));
  }

  /** In every reachable state a set of such a key reports ADDED and hands nothing back, whether or not
      the key was set before, and leaves the counter above the number of stored records. */
  lemma {:induction false} ZeroHashAlwaysAdded<V>(t: Table<V>, rec: Record<V>, nil: V)
    requires Sound(t) && rec.hash == 0
    ensures Put(t, rec, nil).Some? && Put(t, rec, nil).value.status == Added && Put(t, rec, nil).value.back == rec
    ensures var u := Put(t, rec, nil).value.table; Sound(u) && u.used > |Occ(u.recs)|
  {
    hide Resize, Occ, Strays;
    CoveredCapacity(t);
    PutSound(t, rec, nil);
    if t.used > |t.recs| * 3 / 4 {
      ResizeTidy(t, nil);
      StrayCounted(Resize(t, nil).value.0, rec);
    } else {
      StrayCounted(t, rec);
    }
  }

  /** Any run of sets of such keys, the same one over and over or not: every answer is ADDED. */
  lemma {:induction false} ZeroHashRun<V>(t: Table<V>, ops: seq<Op<V>>, nil: V)
    requires Sound(t) && forall op :: op in ops ==> op.Set? && op.rec.hash == 0
    ensures Run(t, ops, nil).Some? && |Run(t, ops, nil).value.1| == |ops|
    ensures forall i :: 0 <= i < |ops| ==> Run(t, ops, nil).value.1[i] == Stored(Added, ops[i].rec.Load())
    decreases |ops|
  {
    hide Put, Sound, Occ;
    if ops != [] {
      assert ops[0] in ops;
      CoveredCapacity(t);
      ZeroHashAlwaysAdded(t, ops[0].rec, nil);
      ZeroHashRun(Put(t, ops[0].rec, nil).value.table, ops[1..], nil);
    }
  }

  lemma {:induction false} OtherSlot(h: nat, j: nat, i: nat, cap: nat)
    requires j < i < cap
    ensures Slot(h, j, cap) != Slot(h, i, cap)
  {
    if Slot(h, j, cap) == Slot(h, i, cap) {
      SlotInjective(h, j, i, cap);
    }
  }

  /** Setting the key twice: the second record silently takes the slot of the first, which is neither
      handed back nor released. */
  lemma {:induction false} ZeroHashReplacesSilently<V>(t: Table<V>, first: Record<V>, second: Record<V>)
        returns (p: nat)
    requires Sound(t) && t.used + 1 < |t.recs| && first.hash == 0 && second.Key() == first.Key()
    ensures Insert(t, first).Some? && Insert(Insert(t, first).value.table, second).Some?
    ensures p < |t.recs| && Insert(t, first).value.table.recs == t.recs[p := first]
    ensures Insert(Insert(t, first).value.table, second).value
      == Outcome(Table(t.recs[p := second], t.used + 2), Added, second, [])
  {
    hide Occ, Strays;
    CoveredCapacity(t);
    InsertStops(t, first);
    var i := StopAt(t.recs, first.Key(), 0, t.used + 1);
    p := Slot(0, i, |t.recs|);
    var u := Insert(t, first).value.table;
    forall j | 0 <= j < i
      ensures !Stops(u.recs, first.Key(), j)
    {
      assert !Stops(t.recs, first.Key(), j);
      OtherSlot(0, j, i, |t.recs|);
    }
    InsertAt(u, second, i);
    assert u.recs[p := second] == t.recs[p := second];
  }

  lemma {:induction false} NoStrays<V>(recs: seq<Record<V>>, id: Id)
    requires Strays(recs) == {} && id.hash == 0 && id.k != 0
    ensures forall p :: 0 <= p < |recs| ==> recs[p].Key() != id
  {
    forall p | 0 <= p < |recs|
      ensures recs[p].Key() != id
    {
      assert p !in Strays(recs);
    }
  }

  /** A resize forgets every such key: it is not re-inserted, and no lookup finds it afterwards. */
  lemma {:induction false} ResizeForgetsZeroHash<V>(t: Table<V>, nil: V, k: nat)
    requires Shaped(t.recs) && k != 0
    ensures Resize(t, nil).Some?
    ensures 0 < |Resize(t, nil).value.0.recs| && Fetch(Resize(t, nil).value.0, Id(0, k)) == None
  {
    hide Occ, Resize, Strays;
    ResizeTidy(t, nil);
    var u := Resize(t, nil).value.0;
    assert Strays(u.recs) == {};
    NoStrays(u.recs, Id(0, k));
  }
}
