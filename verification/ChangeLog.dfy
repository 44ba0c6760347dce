/** What the change detector of plugins/pool/react.c observes, on values. */
module ChangeLog {
  import opened Bits
  import opened Hash
  import opened Wire
  import opened ProbeTable
  import opened LogEntries

  /** The value last seen for each key. */
  type History = map<Id, Bytes>

  function Remember(h: History, id: Id, val: Bytes): History {
    if id.hash == 0 then h else h[id := val]
  }

  /** The history after `fields`, and whether some occurrence of the watched key changed its value. Keys
      whose hash is the map's empty mark are never remembered. */
  function Observe(h: History, fields: seq<Field>, watched: Id): (r: (History, bool)) {
    if fields == [] then (h, false)
    else
      var n := |fields| - 1;
      var f, before := fields[n], Observe(h, fields[..n], watched);
      var id := KeyId(f.key);
      (Remember(before.0, id, f.val),
       before.1 || (id == watched && id in before.0 && before.0[id] != f.val))
  }

  lemma {:induction false} ObserveNext(h: History, fields: seq<Field>, i: nat, watched: Id)
    requires i < |fields|
    ensures var before, f := Observe(h, fields[..i], watched), fields[i];
      Observe(h, fields[..i + 1], watched) ==
      (Remember(before.0, KeyId(f.key), f.val),
       before.1 || (KeyId(f.key) == watched && watched in before.0 && before.0[watched] != f.val))
  {
    assert fields[..i + 1][..i] == fields[..i];
  }

  /** Index of the last occurrence of a key before position `n`, or -1. */
  function LastSeen(all: seq<Field>, n: nat, id: Id): (r: int)
    requires n <= |all|
    ensures -1 <= r < n
    ensures r >= 0 ==> KeyId(all[r].key) == id
    ensures forall i :: r < i < n ==> KeyId(all[i].key) != id
  {
    if n == 0 then -1 else if KeyId(all[n - 1].key) == id then n - 1 else LastSeen(all, n - 1, id)
  }

  /** Occurrence `j` of the watched key, which the map can remember, carries other bytes than its previous
      occurrence. */
  predicate ChangedAt(all: seq<Field>, j: nat, watched: Id)
    requires j < |all|
  {
    var i := LastSeen(all, j, watched);
    KeyId(all[j].key) == watched && watched.hash != 0 && i >= 0 && all[i].val != all[j].val
  }

  lemma {:induction false} LastSeenPrefix(all: seq<Field>, n: nat, k: nat, id: Id)
    requires n <= k <= |all|
    ensures LastSeen(all[..k], n, id) == LastSeen(all, n, id)
  {
    if n > 0 {
      LastSeenPrefix(all, n - 1, k, id);
    }
  }

  /** The history is the map of last-seen values. */
  lemma {:induction false} HistoryIsLastSeen(all: seq<Field>, watched: Id, id: Id)
    ensures var h := Observe(map[], all, watched).0;
      && (id in h <==> id.hash != 0 && LastSeen(all, |all|, id) >= 0)
      && (id in h ==> h[id] == all[LastSeen(all, |all|, id)].val)
    decreases |all|
  {
    if all != [] {
      var n := |all| - 1;
      HistoryIsLastSeen(all[..n], watched, id);
      LastSeenPrefix(all, n, n, id);
    }
  }

  lemma {:induction false} ObserveSplit(h: History, a: seq<Field>, b: seq<Field>, watched: Id)
    ensures Observe(h, a + b, watched).0 == Observe(Observe(h, a, watched).0, b, watched).0
    ensures Observe(h, a + b, watched).1 ==
      (Observe(h, a, watched).1 || Observe(Observe(h, a, watched).0, b, watched).1)
    decreases |b|
  {
    if b == [] {
      assert a + b == a;
    } else {
      var n := |b| - 1;
      ObserveSplit(h, a, b[..n], watched);
      assert (a + b)[..|a + b| - 1] == a + b[..n];
      hide KeyId;
    }
  }

  ghost predicate ChangedSince(all: seq<Field>, start: nat, watched: Id) {
    exists j :: start <= j < |all| && ChangedAt(all, j, watched)
  }

  lemma {:induction false} ChangedSinceStep(all: seq<Field>, start: nat, watched: Id)
    requires start < |all|
    ensures ChangedSince(all, start, watched)
      <==> ChangedSince(all[..|all| - 1], start, watched) || ChangedAt(all, |all| - 1, watched)
  {
    var n := |all| - 1;
    forall j | 0 <= j < n
      ensures ChangedAt(all, j, watched) == ChangedAt(all[..n], j, watched)
    {
      LastSeenPrefix(all, j, n, watched);
    }
    if ChangedSince(all[..n], start, watched) {
      var j :| start <= j < n && ChangedAt(all[..n], j, watched);
      assert ChangedAt(all, j, watched);
    }
  }

  /** The map lookup of the last field is the comparison with its previous occurrence. */
  lemma {:induction false} LastFieldChange(all: seq<Field>, watched: Id)
    requires all != []
    ensures var n, h := |all| - 1, Observe(map[], all[..|all| - 1], watched).0;
      ChangedAt(all, n, watched) <==>
      KeyId(all[n].key) == watched && watched in h && h[watched] != all[n].val
  {
    var n := |all| - 1;
    HistoryIsLastSeen(all[..n], watched, watched);
    LastSeenPrefix(all, n, n, watched);
  }

  lemma {:induction false} ObserveNothing(h: History, watched: Id)
    ensures Observe(h, [], watched) == (h, false)
  {
  }

  lemma {:induction false} NothingSince(all: seq<Field>, watched: Id)
    ensures !ChangedSince(all, |all|, watched)
  {
  }

  /** A log is reported as a change iff one of its occurrences of the watched key differs from the
      occurrence seen last, in an earlier log or earlier in the same one. First sightings never count. */
  lemma {:induction false} ChangeMeans(past: seq<Field>, log: seq<Field>, watched: Id)
    ensures Observe(Observe(map[], past, watched).0, log, watched).1
      <==> ChangedSince(past + log, |past|, watched)
    decreases |log|
  {
    hide Observe, ChangedAt, ChangedSince, Remember, KeyId;
    var h := Observe(map[], past, watched).0;
    if log == [] {
      assert past + [] == past;
      ObserveNothing(h, watched);
      NothingSince(past, watched);
    } else {
      var n := |log| - 1;
      ChangeMeans(past, log[..n], watched);
      assert (past + log)[..|past| + n] == past + log[..n] && (past + log)[|past| + n] == log[n];
      ChangedSinceStep(past + log, |past|, watched);
      ObserveSplit(map[], past, log[..n], watched);
      LastFieldChange(past + log, watched);
      ObserveNext(h, log, n, watched);
      assert log[..n + 1] == log;
    }
  }

  /** Fields `i` and `j` have the key, and none between them does. */
  ghost predicate Successive(all: seq<Field>, i: int, j: int, id: Id) {
    && 0 <= i < j < |all|
    && DjbHash(all[i].key) == id.hash && Hash0(all[i].key) == id.k
    && DjbHash(all[j].key) == id.hash && Hash0(all[j].key) == id.k
    && forall k :: i < k < j ==> !(DjbHash(all[k].key) == id.hash && Hash0(all[k].key) == id.k)
  }

  /** In terms of the fields alone: from `start` on some field of the watched key, whose hash is not 0, has
      another value than the nearest earlier field of that key. */
  lemma {:induction false} ChangedSinceMeans(all: seq<Field>, start: nat, watched: Id)
    ensures ChangedSince(all, start, watched) <==>
      watched.hash != 0 && exists i, j :: Successive(all, i, j, watched) && start <= j && all[i].val != all[j].val
  {
    if ChangedSince(all, start, watched) {
      var j :| start <= j < |all| && ChangedAt(all, j, watched);
      assert Successive(all, LastSeen(all, j, watched), j, watched);
    }
    if watched.hash != 0 && exists i, j ::
      Successive(all, i, j, watched) && start <= j && all[i].val != all[j].val {
      var i, j :| Successive(all, i, j, watched) && start <= j && all[i].val != all[j].val;
      assert LastSeen(all, j, watched) == i;
      assert ChangedAt(all, j, watched);
    }
  }

  // ----- Map records as values and reference counts -----

  type Contents = map<Id, Payload<LogEntry?>>

  /** `v2` packs a 16-bit offset into the entry (low half) and a 16-bit length. */
  function Pack(off: nat, len: nat): nat {
    off + 0x1_0000 * len
  }

  predicate InEntry(p: Payload<LogEntry?>) {
    && p.v != null
    && HEAD_SIZE <= p.v2 % 0x1_0000
    && p.v2 % 0x1_0000 - HEAD_SIZE + p.v2 / 0x1_0000 <= |p.v.data|
  }

  /** The value bytes a map record points to. */
  function ValueOf(p: Payload<LogEntry?>): Bytes
    requires InEntry(p)
  {
    var off := p.v2 % 0x1_0000 - HEAD_SIZE;
    p.v.data[off..off + p.v2 / 0x1_0000]
  }

  /** The map holds exactly the values of the history. */
  ghost predicate Mirrors(m: Contents, h: History) {
    m.Keys == h.Keys && forall id :: id in m ==> InEntry(m[id]) && ValueOf(m[id]) == h[id]
  }

  /** How many live map records point to an entry. */
  ghost function Holders(m: Contents, e: LogEntry): set<Id> {
    set id | id in m && m[id].v == e
  }

  /** Overwriting one record moves one reference from the previous entry to the new one. */
  lemma {:induction false} HoldersMove(m: Contents, id: Id, p: Payload<LogEntry?>, x: LogEntry)
    ensures |Holders(m[id := p], x)| == |Holders(m, x)|
      - (if id in m && m[id].v == x then 1 else 0) + (if p.v == x then 1 else 0)
  {
    var before, after := Holders(m, x), Holders(m[id := p], x);
    assert before - {id} == after - {id};
    assert |before| == |before - {id}| + (if id in before then 1 else 0);
    assert |after| == |after - {id}| + (if id in after then 1 else 0);
  }

  /** Every entry's count is one more than its live records and its leaks (references taken for fields whose
      key the map cannot remember), plus `pending` for the entry `e`. */
  ghost predicate Conserved(refc: map<LogEntry, int>, m: Contents, leaks: multiset<LogEntry>, e: LogEntry?,
        pending: nat)
  {
    forall x :: x in refc ==> refc[x] == 1 + |Holders(m, x)| + leaks[x] + (if x == e then pending else 0)
  }

  /** Storing a record for `e` uses up one pending reference and releases the record it replaces. */
  lemma {:induction false} ConservedStep(refc: map<LogEntry, int>, m: Contents, leaks: multiset<LogEntry>, id: Id,
        p: Payload<LogEntry?>, pending: nat)
    requires p.v != null && Conserved(refc, m, leaks, p.v, pending + 1)
    requires id in m ==> m[id].v != null && m[id].v in refc
    ensures var m' := m[id := p];
      Conserved(if id in m then refc[m[id].v := refc[m[id].v] - 1] else refc, m', leaks, p.v, pending)
  {
    forall x | x in refc {
      HoldersMove(m, id, p, x);
    }
  }

  /** `n` more leaks of an entry. */
  ghost function Leak(leaks: multiset<LogEntry>, e: LogEntry, n: nat): multiset<LogEntry> {
    leaks[e := leaks[e] + n]
  }

  lemma {:induction false} LeakMore(leaks: multiset<LogEntry>, e: LogEntry, n: nat, k: nat)
    ensures Leak(leaks, e, 0) == leaks && Leak(Leak(leaks, e, n), e, k) == Leak(leaks, e, n + k)
    ensures forall x :: x in Leak(leaks, e, n) ==> x in leaks || x == e
  {
  }

  lemma {:induction false} LeakMeans(leaks: multiset<LogEntry>, e: LogEntry, n: nat)
    ensures forall x :: Leak(leaks, e, n)[x] == leaks[x] + if x == e then n else 0
  {
  }

  /** A record the map cannot remember turns a pending reference into a leaked one. */
  lemma {:induction false} ConservedLeak(refc: map<LogEntry, int>, m: Contents, leaks: multiset<LogEntry>,
        e: LogEntry, pending: nat)
    requires Conserved(refc, m, leaks, e, pending + 1)
    ensures Conserved(refc, m, Leak(leaks, e, 1), e, pending)
  {
  }

  /** Taking `n` references for an entry, known or new with its own one, makes them pending. */
  lemma {:induction false} ConservedBegin(refc: map<LogEntry, int>, m: Contents, leaks: multiset<LogEntry>,
        e: LogEntry, own: int, n: nat)
    requires Conserved(refc, m, leaks, null, 0)
    requires if e in refc then own == refc[e] else own == 1 && Holders(m, e) == {} && leaks[e] == 0
    ensures Conserved(refc[e := own + n], m, leaks, e, n)
  {
  }

  /** All entries pointed to or leaked are known. */
  ghost predicate Tracked(m: Contents, leaks: multiset<LogEntry>, entries: set<LogEntry>) {
    && (forall id :: id in m ==> m[id].v in entries)
    && (forall x :: x in leaks ==> x in entries)
  }

  lemma {:induction false} TrackedMore(m: Contents, leaks: multiset<LogEntry>, entries: set<LogEntry>,
        more: set<LogEntry>)
    requires Tracked(m, leaks, entries) && entries <= more
    ensures Tracked(m, leaks, more)
  {
  }

  lemma {:induction false} Untracked(m: Contents, leaks: multiset<LogEntry>, entries: set<LogEntry>, e: LogEntry)
    requires e !in entries && Tracked(m, leaks, entries)
    ensures Holders(m, e) == {} && leaks[e] == 0
  {
  }

  function LeakOf(key: Bytes): nat {
    if DjbHash(key) == 0 then 1 else 0
  }

  /** How many fields have a key the map cannot remember. */
  function Unremembered(fields: seq<Field>): nat {
    if fields == [] then 0
    else Unremembered(fields[..|fields| - 1]) + LeakOf(fields[|fields| - 1].key)
  }

  lemma {:induction false} UnrememberedNext(fields: seq<Field>, i: nat)
    requires i < |fields|
    ensures Unremembered(fields[..i + 1]) == Unremembered(fields[..i]) + LeakOf(fields[i].key)
  {
    assert fields[..i + 1][..i] == fields[..i];
  }

  function ZeroKeys(fields: seq<Field>): set<int> {
    set i | 0 <= i < |fields| && DjbHash(fields[i].key) == 0
  }

  lemma {:induction false} ZeroKeysNext(fields: seq<Field>)
    requires fields != []
    ensures var n := |fields| - 1;
      |ZeroKeys(fields)| == |ZeroKeys(fields[..n])| + LeakOf(fields[n].key)
  {
    hide DjbHash;
    var n := |fields| - 1;
    assert ZeroKeys(fields) == ZeroKeys(fields[..n]) + if DjbHash(fields[n].key) == 0 then {n} else {};
  }

  lemma {:induction false} UnrememberedIs(fields: seq<Field>)
    ensures Unremembered(fields) == |ZeroKeys(fields)|
  {
    if fields == [] {
      assert ZeroKeys(fields) == {};
    } else {
      hide ZeroKeys, LeakOf;
      UnrememberedIs(fields[..|fields| - 1]);
      ZeroKeysNext(fields);
    }
  }

  /** It is the number of fields whose key hashes to 0. */
  lemma {:induction false} UnrememberedCount(fields: seq<Field>)
    ensures Unremembered(fields) == |set i | 0 <= i < |fields| && DjbHash(fields[i].key) == 0|
  {
    assert Unremembered(fields) == |ZeroKeys(fields)| by {
      hide ZeroKeys, LeakOf;
      UnrememberedIs(fields);
    }
  }

  /** There is no such field if and only if every key has a nonzero hash. */
  lemma {:induction false} UnrememberedZeroIff(fields: seq<Field>)
    ensures Unremembered(fields) == 0 <==> forall f :: f in fields ==> DjbHash(f.key) != 0
  {
    if fields != [] {
      UnrememberedZeroIff(fields[..|fields| - 1]);
      assert fields == fields[..|fields| - 1] + [fields[|fields| - 1]];
    }
  }

  lemma {:induction false} MirrorsAt(m: Contents, h: History, id: Id)
    requires Mirrors(m, h)
    ensures id in m <==> id in h
    ensures id in m ==> InEntry(m[id]) && ValueOf(m[id]) == h[id]
  {
  }

  lemma {:induction false} MirrorsStep(m: Contents, h: History, id: Id, p: Payload<LogEntry?>)
    requires Mirrors(m, h) && InEntry(p)
    ensures Mirrors(m[id := p], h[id := ValueOf(p)])
  {
  }

  /** The map after a record was stored. */
  function Recorded(m: Contents, id: Id, p: Payload<LogEntry?>): Contents {
    if id.hash == 0 then m else m[id := p]
  }

  lemma {:induction false} KeyIdHash(key: Bytes)
    ensures KeyId(key).hash == DjbHash(key)
  {
  }

  /** One stored field, seen from map, history and counts together. */
  lemma {:induction false} RecordedOnce(refc: map<LogEntry, int>, m: Contents, leaks: multiset<LogEntry>, h: History,
      key: Bytes, p: Payload<LogEntry?>, val: Bytes, pending: nat)
    requires p.v != null && InEntry(p) && ValueOf(p) == val
    requires Mirrors(m, h) && Conserved(refc, m, leaks, p.v, pending + 1)
    requires (KeyId(key).hash == 0 ==> KeyId(key) !in m) && Tracked(m, leaks, refc.Keys) && p.v in refc
    ensures var id := KeyId(key);
      && Mirrors(Recorded(m, id, p), Remember(h, id, val))
      && (id in m ==> m[id].v != null && m[id].v in refc)
      && Conserved(if id in m then refc[m[id].v := refc[m[id].v] - 1] else refc,
                   Recorded(m, id, p), Leak(leaks, p.v, LeakOf(key)), p.v, pending)
      && (id in m <==> id in h) && (id in m ==> InEntry(m[id]) && ValueOf(m[id]) == h[id])
      && Tracked(Recorded(m, id, p), Leak(leaks, p.v, LeakOf(key)), refc.Keys)
  {
    hide Mirrors, Conserved, InEntry, ValueOf, KeyId, Leak;
    var id := KeyId(key);
    KeyIdHash(key);
    MirrorsAt(m, h, id);
    LeakMore(leaks, p.v, LeakOf(key), 0);
    LeakMore(leaks, p.v, 0, 0);
    if id.hash == 0 {
      ConservedLeak(refc, m, leaks, p.v, pending);
    } else {
      ConservedStep(refc, m, leaks, id, p, pending);
      MirrorsStep(m, h, id, p);
    }
  }
}
