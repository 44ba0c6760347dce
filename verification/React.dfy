/** The change detector of plugins/pool/react.c over the hash map. */
module React {
  import opened Bits
  import opened Hash
  import opened Wire
  import opened ProbeTable
  import opened ProbeRuns
  import opened LogEntries
  import opened ChangeLog
  import PM = PoolMap

  datatype Route = Applied | Failed | Ignored

  /** Every key can be hashed: the Duff loops need a byte. */
  predicate Keyed(fields: seq<Field>) {
    forall f :: f in fields ==> |f.key| > 0
  }

  /** A log entry whose value offsets fit 16 bits, as every message off the wire is. */
  predicate Packable(e: LogEntry) {
    WellFormed(e.data) && HEAD_SIZE + |e.data| < 0x1_0000
  }

  /** Where the value of the first field lies. */
  lemma {:induction false} TraceNameAt(b: Bytes)
    requires WellFormed(b) && LogSize(b) > 0
    ensures PROTOCOL_SIZE + 4 <= |b|
    ensures var start := Offset(b, 0) + LengthAt(b, 0);
      start + LengthAt(b, 1) <= |b| && b[start..start + LengthAt(b, 1)] == FieldAt(b, 0).val
  {
    hide Offset, U16At;
    InBounds(b, 0);
  }

  /** The packed `(offset, length)` of a field's value leads back to its bytes. */
  lemma {:induction false} PackedValue(e: LogEntry, i: nat)
    requires Packable(e) && i < LogSize(e.data)
    ensures var off, len := 24 + Offset(e.data, i) + KLen(e.data, i), VLen(e.data, i);
      Pack(off, len) % 65536 == off && Pack(off, len) / 65536 == len &&
      InEntry(Payload(e, Pack(off, len))) && ValueOf(Payload(e, Pack(off, len))) == FieldAt(e.data, i).val
  {
    InBounds(e.data, i);
    var off, len := HEAD_SIZE + Offset(e.data, i) + KLen(e.data, i), VLen(e.data, i);
    DivModUnique(Pack(off, len), 0x1_0000, len, off);
  }

  lemma {:induction false} NoneUnremembered()
    ensures Unremembered([]) == 0
  {
  }

  /** Stored keys have a nonzero hash. */
  lemma {:induction false} StoredKeys(t: Table<LogEntry?>, m: Contents, id: Id)
    requires Refines(t, m) && id.hash == 0
    ensures id !in m
  {
  }

  /** How many of the released records point to an entry. */
  function Refs(freed: seq<Record<LogEntry?>>, x: LogEntry): nat {
    if freed == [] then 0
    else Refs(freed[..|freed| - 1], x) + (if freed[|freed| - 1].v == x then 1 else 0)
  }

  ghost function Ids(recs: seq<Record<LogEntry?>>, n: nat, x: LogEntry): set<Id>
    requires n <= |recs|
  {
    set p | 0 <= p < n && recs[p].hash != 0 && recs[p].v == x :: recs[p].Key()
  }

  lemma {:induction false} IdsStep(recs: seq<Record<LogEntry?>>, n: nat, x: LogEntry)
    requires n < |recs| && Distinct(recs)
    ensures |Ids(recs, n + 1, x)| == |Ids(recs, n, x)| + (if recs[n].hash != 0 && recs[n].v == x then 1 else 0)
  {
    if recs[n].hash != 0 && recs[n].v == x {
      assert recs[n].Key() !in Ids(recs, n, x);
      assert Ids(recs, n + 1, x) == Ids(recs, n, x) + {recs[n].Key()};
    } else {
      assert Ids(recs, n + 1, x) == Ids(recs, n, x);
    }
  }

  lemma {:induction false} RefsAppend(freed: seq<Record<LogEntry?>>, r: Record<LogEntry?>, x: LogEntry)
    ensures Refs(freed + [r], x) == Refs(freed, x) + (if r.v == x then 1 else 0)
  {
    assert (freed + [r])[..|freed|] == freed;
  }

  lemma {:induction false} RefsOfLiveUpTo(recs: seq<Record<LogEntry?>>, n: nat, x: LogEntry)
    requires n <= |recs| && Distinct(recs)
    ensures Refs(PM.Live(recs[..n]), x) == |Ids(recs, n, x)|
  {
    if n > 0 {
      hide Ids, Distinct;
      RefsOfLiveUpTo(recs, n - 1, x);
      assert recs[..n][..n - 1] == recs[..n - 1];
      IdsStep(recs, n - 1, x);
      RefsAppend(PM.Live(recs[..n - 1]), recs[n - 1], x);
      assert PM.Live(recs[..n - 1]) + [] == PM.Live(recs[..n - 1]);
    }
  }

  /** Deleting the table releases each entry once per live record. */
  lemma {:induction false} RefsOfLive(recs: seq<Record<LogEntry?>>, m: Contents, x: LogEntry)
    requires Distinct(recs) && Represents(recs, m)
    ensures Refs(PM.Live(recs), x) == |Holders(m, x)|
  {
    RefsOfLiveUpTo(recs, |recs|, x);
    assert recs[..|recs|] == recs;
    forall id | id in Holders(m, x)
      ensures id in Ids(recs, |recs|, x)
    {
      var p :| 0 <= p < |recs| && recs[p].hash != 0 && recs[p].Key() == id;
      assert m[id] == recs[p].Load();
    }
    assert Ids(recs, |recs|, x) == Holders(m, x);
  }

  lemma {:induction false} LiveStored(recs: seq<Record<LogEntry?>>, r: Record<LogEntry?>)
    requires r in PM.Live(recs)
    ensures exists p :: 0 <= p < |recs| && recs[p] == r && r.hash != 0
  {
    if recs != [] {
      var n := |recs| - 1;
      if r in PM.Live(recs[..n]) {
        LiveStored(recs[..n], r);
        var p :| 0 <= p < n && recs[..n][p] == r && r.hash != 0;
        assert recs[p] == r;
      }
    }
  }

  class React {
    const table: PM.PoolMap<LogEntry?>
    const traceId: Id
    const keyId: Id
    ghost var contents: Contents
    ghost var past: seq<Field>  // every field stored so far, in order
    ghost var history: History
    ghost var entries: set<LogEntry>
    ghost var leaks: multiset<LogEntry>  // one per field stored under a key whose hash is the empty mark

    /** The table refines `contents`. */
    ghost predicate TableOk()
      reads this`contents, table, table.records
    {
      && table.Valid() && table.nil == null && (forall p :: table.fkey(p) == Hash0(p))
      && Refines(table.State(), contents)
    }

    ghost function Counts(): (r: map<LogEntry, int>)
      reads this`entries, entries
      ensures r.Keys == entries
    {
      map x | x in entries :: x.refc
    }

    /** `contents` stands for `history`, and every reference is accounted for: each entry's count is one
        more than its live records and leaks, plus `pending` references not yet stored for the entry `e`. */
    ghost predicate Coherent(e: LogEntry?, pending: nat)
      reads this`contents, this`history, this`entries, this`leaks, table, table.records, entries
    {
      && TableOk()
      && Mirrors(contents, history)
      && Tracked(contents, leaks, entries)
      && Conserved(Counts(), contents, leaks, e, pending)
    }

    ghost predicate Valid()
      reads this, table, table.records, entries
    {
      Coherent(null, 0) && history == Observe(map[], past, keyId).0
    }

    constructor (traceName: Bytes, key: Bytes)
      requires |traceName| > 0 && |key| > 0
      ensures Valid() && fresh(table) && fresh(table.records) && |table.records[..]| == 4
      ensures past == [] && entries == {} && leaks == multiset{}
      ensures traceId == KeyId(traceName) && keyId == KeyId(key)
    {
      table := new PM.PoolMap(4, p => Hash0(p), null);
      var t0 := DuffDjbHash(traceName);
      var t1 := DuffHash0(traceName);
      var k0 := DuffDjbHash(key);
      var k1 := DuffHash0(key);
      traceId, keyId := Id(t0, t1), Id(k0, k1);
      contents, past, history, entries, leaks := map[], [], map[], {}, multiset{};
      new;
      NewRefines<LogEntry?>(4, null);
      assert CapacityFor(4) == 4;
    }

    /** One `poolmap_set2` of a record for `e`. */
    method Insert(e: LogEntry, key: Bytes, v2: nat)
      returns (status: Status, back: Payload<LogEntry?>, released: LogEntry?)
      requires TableOk() && |key| > 0
      modifies this`contents, table, table.records
      ensures TableOk() && (table.records == old(table.records) || fresh(table.records))
      ensures contents == Recorded(old(contents), KeyId(key), Payload(e, v2))
      ensures DjbHash(key) == 0 ==> KeyId(key) !in old(contents)
      ensures KeyId(key) !in old(contents) ==> status == Added && released == null
      ensures KeyId(key) in old(contents) ==>
        status == Update && back == old(contents)[KeyId(key)] && released == back.v
    {
      hide Put, Refines;
      ghost var was, t := contents, table.State();
      if DjbHash(key) == 0 {
        StoredKeys(t, was, KeyId(key));
        PutStray(t, table.RecordFor(key, e, v2), null, was);
      } else {
        PutRefines(t, table.RecordFor(key, e, v2), null, was);
        contents := was[KeyId(key) := Payload(e, v2)];
      }
      var aborted, r, freed;
      aborted, status, r, freed := table.Set2(key, e, v2);
      back := r.Load();
      released := if |freed| > 0 then freed[0].v else null;
    }

    /** `entry_log_free` on a replaced record, if there is one. */
    method Release(x: LogEntry?)
      requires TableOk() && (x != null ==> x in entries)
      modifies if x != null then {x} else {}
      ensures TableOk()
      ensures Counts() == if x != null then old(Counts())[x := old(Counts())[x] - 1] else old(Counts())
    {
      hide TableOk;
      if x != null {
        x.refc := x.refc - 1;
      }
    }

    /** One stored field. A record it replaces gives its reference back; a key the map cannot remember
        keeps its reference for good. */
    method Store(e: LogEntry, key: Bytes, v2: nat, ghost val: Bytes, ghost pending: nat)
      returns (status: Status, back: Payload<LogEntry?>)
      requires e in entries && Coherent(e, pending + 1)
      requires |key| > 0
      requires InEntry(Payload(e, v2)) && ValueOf(Payload(e, v2)) == val
      modifies this`contents, this`history, this`leaks, table, table.records, entries
      ensures Coherent(e, pending)
      ensures table.records == old(table.records) || fresh(table.records)
      ensures history == Remember(old(history), KeyId(key), val)
      ensures leaks == Leak(old(leaks), e, LeakOf(key))
      ensures status == Update <==> KeyId(key) in old(history)
      ensures status == Update ==> InEntry(back) && ValueOf(back) == old(history)[KeyId(key)]
    {
      hide TableOk, Conserved, Mirrors, Leak, InEntry, ValueOf, KeyId, Remember, LeakOf, Recorded, Tracked;
      ghost var was, refc := contents, Counts();
      KeyIdHash(key);
      var released;
      status, back, released := Insert(e, key, v2);
      assert Counts() == refc && refc.Keys == entries;
      RecordedOnce(refc, was, leaks, history, key, Payload(e, v2), val, pending);
      history := Remember(history, KeyId(key), val);
      leaks := Leak(leaks, e, LeakOf(key));
      Release(released);
    }

    /** One round of the field loop, with the cursor `data` at field `i`. */
    method StoreField(e: LogEntry, i: nat, data: nat, ghost pending: nat) returns (changed: bool, next: nat)
      requires e in entries && Coherent(e, pending + 1)
      requires Packable(e) && i < LogSize(e.data) && data == Offset(e.data, i)
      requires Keyed([FieldAt(e.data, i)])
      modifies this`contents, this`history, this`leaks, table, table.records, entries
      ensures Coherent(e, pending)
      ensures table.records == old(table.records) || fresh(table.records)
      ensures var f := FieldAt(e.data, i);
        && history == Remember(old(history), KeyId(f.key), f.val)
        && leaks == Leak(old(leaks), e, LeakOf(f.key))
        && changed == (KeyId(f.key) == keyId && keyId in old(history) && old(history)[keyId] != f.val)
      ensures next == Offset(e.data, i) + KLen(e.data, i) + VLen(e.data, i)
    {
      hide Coherent, Offset, U16At, InEntry;
      var klen, vlen := KLen(e.data, i), VLen(e.data, i);
      InBounds(e.data, i);
      var key, val := e.data[data..data + klen], e.data[data + klen..data + klen + vlen];
      ghost var f := FieldAt(e.data, i);
      assert f == Field(key, val) && f in [f];
      PackedValue(e, i);
      var status, back := Store(e, key, Pack(HEAD_SIZE + data + klen, vlen), val, pending);
      next := data + klen + vlen;
      changed := false;
      if status == Update {
        var id0 := DuffDjbHash(key);
        var id1 := DuffHash0(key);
        if id0 == keyId.hash && id1 == keyId.k {
          changed := ValueOf(back) != val;
        }
      }
    }

    /** The field loop, over an entry whose references are already taken. */
    method StoreFields(e: LogEntry) returns (update: bool)
      requires e in entries && Packable(e) && Coherent(e, LogSize(e.data)) && Keyed(Fields(e.data))
      modifies this`contents, this`history, this`leaks, table, table.records, entries
      ensures Coherent(e, 0) && (table.records == old(table.records) || fresh(table.records))
      ensures (history, update) == Observe(old(history), Fields(e.data), keyId)
      ensures leaks == Leak(old(leaks), e, Unremembered(Fields(e.data)))
    {
      hide Observe, U16At, Offset, Coherent, Remember, Unremembered, Leak, LeakOf;
      ghost var before, leaked := history, leaks;
      var n := LogSize(e.data);
      ghost var fields := Fields(e.data);
      update := false;
      var data := DataStart(e.data);
      ObserveNothing(before, keyId);
      NoneUnremembered();
      LeakMore(leaks, e, 0, 0);
      OffsetStart(e.data);
      assert fields[..0] == [];
      for i := 0 to n
        invariant Coherent(e, n - i) && (table.records == old(table.records) || fresh(table.records))
        invariant data == Offset(e.data, i)
        invariant (history, update) == Observe(before, fields[..i], keyId)
        invariant leaks == Leak(leaked, e, Unremembered(fields[..i]))
      {
        assert fields[i] in fields;
        ObserveNext(before, fields, i, keyId);
        UnrememberedNext(fields, i);
        LeakMore(leaked, e, Unremembered(fields[..i]), LeakOf(fields[i].key));
        OffsetStep(e.data, i);
        var changed;
        changed, data := StoreField(e, i, data, n - i - 1);
        update := update || changed;
      }
      assert fields[..n] == fields;
    }

    /** The entry is taken over with one reference per field still to be stored. */
    method Begin(e: LogEntry, n: nat)
      requires Valid() && (e in entries || e.refc == 1)
      modifies this`entries, e
      ensures Coherent(e, n) && entries == old(entries) + {e}
    {
      hide TableOk, Conserved, Mirrors, Holders, Tracked;
      TrackedMore(contents, leaks, entries, entries + {e});
      ghost var refc, own := Counts(), e.refc;
      if e !in entries {
        Untracked(contents, leaks, entries, e);
      }
      ConservedBegin(refc, contents, leaks, e, own, n);
      entries := entries + {e};
      e.refc := e.refc + n;
      assert Counts() == refc[e := own + n];
    }

    lemma {:induction false} Settled(e: LogEntry)
      requires Coherent(e, 0)
      ensures Coherent(null, 0)
    {
    }

    /** Stores every field of the log and reports whether the watched key changed its value. A field whose
        key the map cannot remember costs the entry one reference for good. */
    method Append(e: LogEntry) returns (update: bool)
      requires Valid() && Packable(e) && Keyed(Fields(e.data))
      requires e in entries || e.refc == 1
      modifies this, table, table.records, entries, e
      ensures Valid() && entries == old(entries) + {e}
      ensures table.records == old(table.records) || fresh(table.records)
      ensures past == old(past) + Fields(e.data)
      ensures leaks == Leak(old(leaks), e, Unremembered(Fields(e.data)))
      ensures update <==> ChangedSince(past, |old(past)|, keyId)
      ensures Balanced()
    {
      hide Observe, Fields, Coherent, Unremembered, Leak, ChangedSince, Balanced;
      Begin(e, LogSize(e.data));
      update := StoreFields(e);
      Settled(e);
      ObserveSplit(map[], past, Fields(e.data), keyId);
      ChangeMeans(past, Fields(e.data), keyId);
      past := past + Fields(e.data);
      Balance();
    }

    /** Every known entry's count is 1, its own, plus the live map records that point to it, plus its leaks. */
    ghost predicate Balanced()
      reads this`contents, this`entries, this`leaks, entries
    {
      forall x :: x in entries ==> x.refc == 1 + |set id | id in contents && contents[id].v == x| + leaks[x]
    }

    lemma {:induction false} Balance()
      requires Coherent(null, 0)
      ensures Balanced()
    {
      forall x | x in entries
        ensures x.refc == 1 + |set id | id in contents && contents[id].v == x| + leaks[x]
      {
        assert Counts()[x] == x.refc;
        assert Holders(contents, x) == set id | id in contents && contents[id].v == x;
      }
    }

    /** Every known entry holds at least its own reference. */
    lemma {:induction false} Counted(e: LogEntry)
      requires Coherent(null, 0) && e in entries
      ensures e.refc >= 1
    {
      assert Counts()[e] == e.refc;
    }

    /** `react_apply`: logs of the configured trace are stored and routed; others pass unnoticed. */
    method Apply(e: LogEntry) returns (route: Route)
      requires Valid() && Packable(e) && (e in entries || e.refc == 1)
      requires LogSize(e.data) > 0 && |FieldAt(e.data, 0).val| > 0
      requires KeyId(FieldAt(e.data, 0).val) == traceId ==> Keyed(Fields(e.data))
      modifies this, table, table.records, entries, e
      ensures Valid() && (table.records == old(table.records) || fresh(table.records))
      ensures KeyId(FieldAt(e.data, 0).val) == traceId ==>
        && entries == old(entries) + {e} && past == old(past) + Fields(e.data)
        && leaks == Leak(old(leaks), e, Unremembered(Fields(e.data)))
        && route == (if ChangedSince(past, |old(past)|, keyId) then Applied else Failed)
        && e.refc >= 1
      ensures KeyId(FieldAt(e.data, 0).val) != traceId ==>
        && route == Ignored && past == old(past) && entries == old(entries) && leaks == old(leaks)
        && e.refc == old(e.refc)
      ensures Balanced()
    {
      hide Balanced, Coherent, Offset, U16At, FieldAt, Fields, Leak, Unremembered, ChangedSince, Observe, WellFormed, LengthAt;
      TraceNameAt(e.data);
      var start := Offset(e.data, 0) + LengthAt(e.data, 0);
      var traceName := e.data[start..start + LengthAt(e.data, 1)];
      var t0 := DuffDjbHash(traceName);
      var t1 := DuffHash0(traceName);
      if traceId.hash == t0 && traceId.k == t1 {
        var update := Append(e);
        Counted(e);
        route := if update then Applied else Failed;
      } else {
        Balance();
        route := Ignored;
      }
    }

    method ReleaseAll(freed: seq<Record<LogEntry?>>)
      requires forall i :: 0 <= i < |freed| ==> freed[i].v != null && freed[i].v in entries
      requires forall x :: x in entries ==> x.refc == 1 + leaks[x] + Refs(freed, x)
      modifies entries
      ensures forall x :: x in entries ==> x.refc == 1 + leaks[x]
    {
      for i := 0 to |freed|
        invariant forall x :: x in entries ==> x.refc == 1 + leaks[x] + Refs(freed, x) - Refs(freed[..i], x)
      {
        assert freed[..i + 1] == freed[..i] + [freed[i]];
        forall x | x in entries {
          RefsAppend(freed[..i], freed[i], x);
        }
        var x := freed[i].v;
        x.refc := x.refc - 1;
      }
      assert freed[..|freed|] == freed;
    }

    /** `poolmap_delete` gives every reference held by a record back: an entry is left with its own one and
        what it leaked, so with its own one exactly when it leaked nothing. */
    method Delete()
      requires Valid()
      modifies entries
      ensures forall x :: x in entries ==> x.refc == 1 + leaks[x]
      ensures (forall x :: x in entries ==> x.refc == 1) <==> leaks == multiset{}
    {
      hide Sound, Chained, Holders;
      var freed := table.Delete();
      ghost var recs := table.State().recs;
      forall x | x in entries
        ensures x.refc == 1 + leaks[x] + Refs(freed, x)
      {
        RefsOfLive(recs, contents, x);
        assert Counts()[x] == x.refc;
      }
      forall i | 0 <= i < |freed|
        ensures freed[i].v != null && freed[i].v in entries
      {
        LiveStored(recs, freed[i]);
      }
      ReleaseAll(freed);
      if leaks != multiset{} {
        assert exists x :: x in leaks;
      }
    }
  }
}
