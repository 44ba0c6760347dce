/** The hash map object of core/map.c, proved against the table functions. */
module PoolMap {
  import opened Bits
  import opened Hash
  import opened ProbeTable
  import opened ProbeRuns
  import opened Wrappers

  /** The occupied records in slot order. */
  function Live<V>(recs: seq<Record<V>>): seq<Record<V>> {
    if recs == [] then []
    else Live(recs[..|recs| - 1]) + (if recs[|recs| - 1].hash != 0 then [recs[|recs| - 1]] else [])
  }

  lemma {:induction false} LiveMeans<V>(recs: seq<Record<V>>, r: Record<V>)
    ensures Live<V>([]) == [] && Live(recs + [r]) == Live(recs) + (if r.hash != 0 then [r] else [])
  {
    assert (recs + [r])[..|recs|] == recs;
  }

  lemma {:induction false} DoubledShape<V>(recs: seq<Record<V>>)
    requires Shaped(recs)
    ensures forall twice: seq<Record<V>> :: |twice| == 2 * |recs| ==> Shaped(twice)
  {
    var k: nat :| |recs| == Pow2(k);
    assert 2 * |recs| == Pow2(k + 1);
  }

  /** What is left of a resize that started on `blank` and has released `freed` so far. */
  ghost predicate Resuming<V>(src: seq<Record<V>>, blank: Table<V>, i: nat, t: Table<V>, freed: seq<Record<V>>)
    requires i <= |src| && 0 < |blank.recs|
  {
    && 0 < |t.recs|
    && var rest := Rehash(src, i, t);
      rest.Some? && Rehash(src, 0, blank) == Some((rest.value.0, freed + rest.value.1))
  }

  lemma {:induction false} ResumeStart<V>(src: seq<Record<V>>, blank: Table<V>)
    requires 0 < |blank.recs| && Rehash(src, 0, blank).Some?
    ensures Resuming(src, blank, 0, blank, [])
  {
    var rest := Rehash(src, 0, blank).value;
    assert [] + rest.1 == rest.1;
  }

  /** The next re-insertion succeeds. */
  lemma {:induction false} ResumeInserts<V>(src: seq<Record<V>>, blank: Table<V>, i: nat, t: Table<V>,
        freed: seq<Record<V>>)
    requires i < |src| && 0 < |blank.recs| && src[i].hash != 0 && Resuming(src, blank, i, t, freed)
    ensures 0 < |t.recs| && Insert(t, src[i]).Some?
  {
  }

  lemma {:induction false} ResumeNext<V>(src: seq<Record<V>>, blank: Table<V>, i: nat, t: Table<V>,
        freed: seq<Record<V>>, o: Outcome<V>)
    requires i < |src| && 0 < |blank.recs| && src[i].hash != 0
    requires Resuming(src, blank, i, t, freed) && Insert(t, src[i]) == Some(o)
    ensures Resuming(src, blank, i + 1, o.table, freed + o.freed)
  {
    var rest := Rehash(src, i + 1, o.table).value.1;
    assert freed + (o.freed + rest) == freed + o.freed + rest;
  }

  lemma {:induction false} ResumeSkip<V>(src: seq<Record<V>>, blank: Table<V>, i: nat, t: Table<V>,
        freed: seq<Record<V>>)
    requires i < |src| && 0 < |blank.recs| && src[i].hash == 0 && Resuming(src, blank, i, t, freed)
    ensures Resuming(src, blank, i + 1, t, freed)
  {
  }

  lemma {:induction false} ResumeDone<V>(src: seq<Record<V>>, blank: Table<V>, t: Table<V>, freed: seq<Record<V>>)
    requires 0 < |blank.recs| && Resuming(src, blank, |src|, t, freed)
    ensures Rehash(src, 0, blank) == Some((t, freed))
  {
    assert freed + [] == freed;
  }

  /** `ffree` is a callback into foreign code; every method reports the records it was handed, in order. */
  class PoolMap<V> {
    var records: array<Record<V>>
    var mask: nat
    var usedSize: nat
    var recordSize: nat
    const fkey: Bytes -> nat
    const nil: V

    ghost function State(): Table<V>
      reads this, records
    {
      Table(records[..], usedSize)
    }

    ghost predicate Valid()
      reads this, records
    {
      recordSize == records.Length && recordSize == mask + 1 && Shaped(records[..])
    }

    function RecordFor(key: Bytes, v: V, v2: nat): Record<V> {
      Record(DjbHash(key), fkey(key), v, v2)
    }

    constructor (init: nat, fkey: Bytes -> nat, nil: V)
      ensures Valid() && fresh(records) && State() == New(init, nil)
      ensures this.fkey == fkey && this.nil == nil
    {
      var cap := CapacityFor(init);
      records := new Record<V>[cap](_ => Record(0, 0, nil, 0));
      usedSize, recordSize, mask := 0, cap, cap - 1;
      this.fkey, this.nil := fkey, nil;
      new;
      NewRefines(init, nil);
      assert records[..] == Blank(cap, nil);
    }

    /** The probe loop over at most `usedSize + 1` slots; `aborted` is the `assert(0)` behind it. */
    method SetNoResize(rec: Record<V>) returns (aborted: bool, status: Status, back: Record<V>, freed: seq<Record<V>>)
      requires Valid()
      modifies records, `usedSize
      ensures Valid()
      ensures Insert(old(State()), rec) == if aborted then None else Some(Outcome(State(), status, back, freed))
      ensures aborted ==> State() == old(State())
    {
      hide Occ, Strays;
      ghost var t := State();
      ghost var k: nat :| records.Length == Pow2(k);
      var i, idx := 0, BitAnd(rec.hash, mask);
      MaskIsMod(rec.hash, k);
      while true
        invariant 0 <= i <= usedSize && State() == t
        invariant idx == Slot(rec.hash, i, records.Length)
        invariant StopAt(t.recs, rec.Key(), 0, t.used + 1) == StopAt(t.recs, rec.Key(), i, t.used + 1)
        decreases usedSize - i
      {
        var r := records[idx];
        if r.hash == 0 {
          records[idx] := rec;
          usedSize := usedSize + 1;
          assert records[..] == t.recs[idx := rec];
          return false, Added, rec, [];
        }
        if r.hash == rec.hash && r.k == rec.k {
          records[idx] := rec;
          assert records[..] == t.recs[idx := rec];
          return false, Update, rec.(v := r.v, v2 := r.v2), [r];
        }
        SlotNext(rec.hash, i, k);
        idx := BitAnd(idx + 1, mask);
        i := i + 1;
        if i == usedSize + 1 { break; }
      }
      return true, Added, rec, [];
    }

    /** Re-inserting into a table of twice the size never runs into the `assert(0)`. */
    method Resize() returns (freed: seq<Record<V>>)
      requires Valid()
      modifies this
      ensures Valid() && fresh(records)
      ensures ProbeTable.Resize(old(State()), nil) == Some((State(), freed))
    {
      hide Insert, Tidy, Sound, Resuming, Rehash;
      ghost var t := State();
      ResizeTidy(t, nil);
      var src, oldSize := records, recordSize;
      ghost var blank := Table(Blank(2 * |t.recs|, nil), 0);
      records := new Record<V>[oldSize * 2](_ => Record(0, 0, nil, 0));
      usedSize, recordSize, mask := 0, oldSize * 2, oldSize * 2 - 1;
      assert records[..] == blank.recs;
      freed := [];
      DoubledShape(t.recs);
      assert Rehash(t.recs, 0, blank).Some?;
      ResumeStart(t.recs, blank);
      assert State() == blank;
      for i := 0 to oldSize
        invariant fresh(records) && Valid() && recordSize == 2 * oldSize
        invariant src[..] == t.recs
        invariant Resuming(t.recs, blank, i, State(), freed)
      {
        var r := src[i];
        assert r == t.recs[i];
        if r.hash != 0 {
          ghost var u, before := State(), freed;
          ResumeInserts(t.recs, blank, i, u, before);
          var aborted, status, back, f := SetNoResize(r);
          freed := freed + f;
          ResumeNext(t.recs, blank, i, u, before, Outcome(State(), status, back, f));
        } else {
          ResumeSkip(t.recs, blank, i, State(), freed);
        }
      }
      ResumeDone(t.recs, blank, State(), freed);
    }

    /** `poolmap_set2`; `poolmap_set` is the call with `v2 == 0`. From a state whose counter covers what is
        stored, keys of hash 0 included, it never aborts and leaves such a state. */
    method Set2(key: Bytes, v: V, v2: nat)
          returns (aborted: bool, status: Status, back: Record<V>, freed: seq<Record<V>>)
      requires Valid() && |key| > 0
      modifies this, records
      ensures Valid() && (records == old(records) || fresh(records))
      ensures Put(old(State()), RecordFor(key, v, v2), nil) ==
        if aborted then None else Some(Outcome(State(), status, back, freed))
      ensures Sound(old(State())) ==> !aborted && Sound(State())
    {
      hide Insert, ProbeTable.Resize, Sound, Shaped;
      ghost var t := State();
      if Sound(t) {
        PutSound(t, RecordFor(key, v, v2), nil);
      }
      var k := fkey(key);
      var hash := DuffDjbHash(key);
      freed := [];
      if usedSize > recordSize * 3 / 4 {
        freed := Resize();
      }
      var f;
      aborted, status, back, f := SetNoResize(Record(hash, k, v, v2));
      assert freed == [] ==> freed + f == f;
      freed := freed + f;
    }

    /** `poolmap_get`: the slot of the record found. */
    method Get(key: Bytes) returns (slot: Option<nat>)
      requires Valid() && |key| > 0
      ensures slot == Lookup(State(), Id(DjbHash(key), fkey(key)))
    {
      var hash := DuffDjbHash(key);
      var k := fkey(key);
      ghost var t, id := State(), Id(hash, k);
      ghost var e: nat :| records.Length == Pow2(e);
      var i, idx := 0, BitAnd(hash, mask);
      MaskIsMod(hash, e);
      while true
        invariant 0 <= i <= usedSize && idx == Slot(hash, i, records.Length)
        invariant HitAt(t.recs, id, 0, t.used + 1) == HitAt(t.recs, id, i, t.used + 1)
        decreases usedSize - i
      {
        var r := records[idx];
        if r.hash == hash && r.k == k {
          return Some(idx);
        }
        SlotNext(hash, i, e);
        idx := BitAnd(idx + 1, mask);
        i := i + 1;
        if i == usedSize + 1 { break; }
      }
      return None;
    }

    /** Clears hash and key of the record found; the 32-bit counter goes down by one. */
    method RemoveKey(key: Bytes)
      requires Valid() && |key| > 0
      modifies records, `usedSize
      ensures Valid() && State() == Remove(old(State()), Id(DjbHash(key), fkey(key)))
      ensures Sound(old(State())) && Id(DjbHash(key), fkey(key)) != Id(0, 0) ==> Sound(State())
    {
      hide Sound;
      ghost var t := State();
      if Sound(t) && Id(DjbHash(key), fkey(key)) != Id(0, 0) {
        RemoveSoundIff(t, Id(DjbHash(key), fkey(key)));
      }
      var slot := Get(key);
      if slot.Some? {
        var r := records[slot.value];
        records[slot.value] := r.(hash := 0, k := 0);
        usedSize := if usedSize == 0 then 0xffff_ffff else usedSize - 1;
        assert records[..] == t.recs[slot.value := r.(hash := 0, k := 0)];
      }
    }

    /** `poolmap_delete` hands every stored record to `ffree`, once. */
    method Delete() returns (freed: seq<Record<V>>)
      requires Valid()
      ensures freed == Live(State().recs)
    {
      freed := [];
      for i := 0 to recordSize
        invariant freed == Live(records[..i])
      {
        assert records[..i + 1][..i] == records[..i];
        if records[i].hash != 0 {
          freed := freed + [records[i]];
        }
      }
      assert records[..recordSize] == records[..];
    }
  }
}
