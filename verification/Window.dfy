/** The sliding window of plugins/pool/time.c, on values. */
module Window {
  import opened Bits

  const WORD64: nat := 0x1_0000_0000_0000_0000

  datatype Item = Item(time: nat, refc: int, data: Bytes)

  /** `current - time` in `uint64_t` arithmetic. */
  function Elapsed(now: nat, time: nat): nat {
    (now - time) % WORD64
  }

  /** How many entries at the front have expired. */
  function ExpiredPrefix(w: seq<Item>, now: nat, interval: nat): (n: nat)
    ensures n <= |w|
    ensures forall i :: 0 <= i < n ==> Elapsed(now, w[i].time) >= interval
    ensures n < |w| ==> Elapsed(now, w[n].time) < interval
  {
    if w == [] || Elapsed(now, w[0].time) < interval then 0
    else 1 + ExpiredPrefix(w[1..], now, interval)
  }

  /** `LogList_check_timer`: one reference less for every expired entry, up to the first young one. */
  function CheckTimer(w: seq<Item>, now: nat, interval: nat): (r: seq<Item>)
    ensures |r| == |w|
  {
    var n := ExpiredPrefix(w, now, interval);
    seq(|w|, i requires 0 <= i < |w| => if i < n then w[i].(refc := w[i].refc - 1) else w[i])
  }

  function DeadPrefix(w: seq<Item>): (n: nat)
    ensures n <= |w|
    ensures forall i :: 0 <= i < n ==> w[i].refc < 0
    ensures n < |w| ==> w[n].refc >= 0
  {
    if w == [] || w[0].refc >= 0 then 0 else 1 + DeadPrefix(w[1..])
  }

  /** What `LogList_check_interval` and the tail link leave in front of a new entry: everything is
      given up when the tail is dead, else the dead entries at the front are. */
  function Retained(w: seq<Item>): seq<Item> {
    if w != [] && w[|w| - 1].refc < 0 then [] else w[DeadPrefix(w)..]
  }

  function Appended(w: seq<Item>, x: Item, interval: nat): seq<Item> {
    Retained(CheckTimer(w, x.time, interval)) + [x]
  }

  /** The window after a run of appends. */
  function After(arrivals: seq<Item>, interval: nat): seq<Item> {
    if arrivals == [] then []
    else
      var n := |arrivals| - 1;
      Appended(After(arrivals[..n], interval), arrivals[n], interval)
  }

  lemma {:induction false} AfterSnoc(arrivals: seq<Item>, x: Item, interval: nat)
    ensures After(arrivals + [x], interval) == Appended(After(arrivals, interval), x, interval)
  {
    assert (arrivals + [x])[..|arrivals|] == arrivals;
  }

  // ----- An independent reading of the window -----

  /** Times are nondecreasing machine words and entries arrive with a nonnegative count. */
  predicate Ordered(a: seq<Item>) {
    && (forall i :: 0 <= i < |a| ==> a[i].refc >= 0 && a[i].time < WORD64)
    && (forall i, j :: 0 <= i < j < |a| ==> a[i].time <= a[j].time)
  }

  /** How many later appends, among the first `n`, saw arrival `k` expired. */
  function Expiries(a: seq<Item>, n: nat, k: nat, interval: nat): nat
    requires k < |a| && n <= |a|
  {
    if n <= k + 1 then 0
    else Expiries(a, n - 1, k, interval) + (if a[n - 1].time - a[k].time >= interval then 1 else 0)
  }

  /** Arrival `k` with one reference less for each append that saw it expired. */
  function Aged(a: seq<Item>, k: nat, interval: nat): Item
    requires k < |a|
  {
    a[k].(refc := a[k].refc - Expiries(a, |a|, k, interval))
  }

  /** The arrivals from `s` on, aged. */
  function AgedFrom(a: seq<Item>, s: nat, interval: nat): (r: seq<Item>)
    requires s <= |a|
    ensures |r| == |a| - s
  {
    seq(|a| - s, i requires 0 <= i < |a| - s => Aged(a, s + i, interval))
  }

  lemma {:induction false} ExpiriesPrefix(a: seq<Item>, n: nat, m: nat, k: nat, interval: nat)
    requires k < n <= m <= |a|
    ensures Expiries(a[..m], n, k, interval) == Expiries(a, n, k, interval)
  {
    if n > k + 1 {
      ExpiriesPrefix(a, n - 1, m, k, interval);
    }
  }

  /** Later arrivals expire no more often than earlier ones. */
  lemma {:induction false} ExpiriesMonotone(a: seq<Item>, n: nat, j: nat, k: nat, interval: nat)
    requires Ordered(a) && j <= k < |a| && n <= |a|
    ensures Expiries(a, n, k, interval) <= Expiries(a, n, j, interval)
  {
    if n > k + 1 {
      ExpiriesMonotone(a, n - 1, j, k, interval);
    }
  }

  /** An entry that ever expired is expired now. */
  lemma {:induction false} OnceExpired(a: seq<Item>, n: nat, k: nat, interval: nat)
    requires Ordered(a) && k < n <= |a| && Expiries(a, n, k, interval) > 0
    ensures a[n - 1].time - a[k].time >= interval
  {
    if n > k + 1 && a[n - 1].time - a[k].time < interval {
      OnceExpired(a, n - 1, k, interval);
    }
  }

  lemma {:induction false} AgedStep(a: seq<Item>, k: nat, interval: nat)
    requires Ordered(a) && k < |a| - 1
    ensures var n := |a| - 1;
      Aged(a, k, interval) == (if a[n].time - a[k].time >= interval
        then Aged(a[..n], k, interval).(refc := Aged(a[..n], k, interval).refc - 1)
        else Aged(a[..n], k, interval))
  {
    ExpiriesPrefix(a, |a| - 1, |a| - 1, k, interval);
  }

  lemma {:induction false} ElapsedPlain(a: seq<Item>, n: nat, k: nat)
    requires Ordered(a) && k <= n < |a|
    ensures Elapsed(a[n].time, a[k].time) == a[n].time - a[k].time
  {
    assert 0 <= a[n].time - a[k].time < WORD64;
    DivModUnique(a[n].time - a[k].time, WORD64, 0, a[n].time - a[k].time);
  }

  /** The front run of expired entries is all of the expired ones, since times are ordered. */
  lemma {:induction false} PrefixIsExpired(a: seq<Item>, s: nat, i: nat, interval: nat)
    requires Ordered(a) && s < |a| && i < |a| - 1 - s
    ensures var n := |a| - 1;
      i < ExpiredPrefix(AgedFrom(a[..n], s, interval), a[n].time, interval) <==> a[n].time - a[s + i].time >= interval
  {
    hide Expiries, Elapsed;
    var n := |a| - 1;
    var w := AgedFrom(a[..n], s, interval);
    var p := ExpiredPrefix(w, a[n].time, interval);
    ElapsedPlain(a, n, s + i);
    assert w[i] == Aged(a[..n], s + i, interval);
    if i >= p {
      assert w[p].time == Aged(a[..n], s + p, interval).time == a[s + p].time;
      ElapsedPlain(a, n, s + p);
      assert a[s + p].time <= a[s + i].time;
    }
  }

  /** Checking the timer ages the retained arrivals by the new append. */
  lemma {:induction false} CheckTimerAges(a: seq<Item>, s: nat, interval: nat)
    requires Ordered(a) && s < |a|
    ensures var n := |a| - 1;
      CheckTimer(AgedFrom(a[..n], s, interval), a[n].time, interval) == AgedFrom(a, s, interval)[..n - s]
  {
    hide Expiries, Elapsed, Ordered;
    var n := |a| - 1;
    var w := AgedFrom(a[..n], s, interval);
    forall i | 0 <= i < n - s
      ensures CheckTimer(w, a[n].time, interval)[i] == AgedFrom(a, s, interval)[i]
    {
      AgedStep(a, s + i, interval);
      PrefixIsExpired(a, s, i, interval);
    }
  }

  lemma {:induction false} AgedTail(a: seq<Item>, s: nat, d: nat, interval: nat)
    requires s < |a| && d < |a| - s
    ensures AgedFrom(a, s, interval)[..|a| - 1 - s][d..] + [a[|a| - 1]] == AgedFrom(a, s + d, interval)
  {
    assert Aged(a, |a| - 1, interval) == a[|a| - 1];
  }

  lemma {:induction false} AgedAt(a: seq<Item>, s: nat, i: int, interval: nat)
    requires s < |a|
    ensures 0 <= i < |a| - 1 - s ==> AgedFrom(a, s, interval)[..|a| - 1 - s][i] == Aged(a, s + i, interval)
  {
  }

  lemma {:induction false} RetainedIsSuffix(w: seq<Item>) returns (d: nat)
    ensures d <= |w| && Retained(w) == w[d..]
    ensures d > 0 ==> w[d - 1].refc < 0
    ensures d < |w| ==> w[d].refc >= 0
    ensures w != [] && w[|w| - 1].refc < 0 ==> d == |w|
    ensures w != [] && w[|w| - 1].refc >= 0 ==> d < |w| && forall i :: 0 <= i < d ==> w[i].refc < 0
  {
    d := if w != [] && w[|w| - 1].refc < 0 then |w| else DeadPrefix(w);
  }

  /** One append gives up the first `d` retained arrivals, the last of which is dead. */
  lemma {:induction false} AppendAged(a: seq<Item>, s: nat, interval: nat) returns (d: nat)
    requires Ordered(a) && s < |a| && After(a[..|a| - 1], interval) == AgedFrom(a[..|a| - 1], s, interval)
    ensures d < |a| - s && After(a, interval) == AgedFrom(a, s + d, interval)
    ensures d > 0 ==> Aged(a, s + d - 1, interval).refc < 0
    ensures s + d < |a| - 1 ==> Aged(a, s + d, interval).refc >= 0
    ensures s < |a| - 1 && Aged(a, |a| - 2, interval).refc < 0 ==> s + d == |a| - 1
    ensures s < |a| - 1 && Aged(a, |a| - 2, interval).refc >= 0 ==>
      s + d < |a| - 1 && forall k :: s <= k < s + d ==> Aged(a, k, interval).refc < 0
  {
    hide CheckTimer, Aged, AgedFrom, Ordered, Retained;
    CheckTimerAges(a, s, interval);
    var w := AgedFrom(a, s, interval)[..|a| - 1 - s];
    d := RetainedIsSuffix(w);
    AgedTail(a, s, d, interval);
    AgedAt(a, s, d - 1, interval);
    AgedAt(a, s, d, interval);
    AgedAt(a, s, |a| - 2 - s, interval);
    forall k | s <= k < s + d && k < |a| - 1
      ensures Aged(a, k, interval) == w[k - s]
    {
      AgedAt(a, s, k - s, interval);
    }
  }

  lemma {:induction false} NoArrivals(interval: nat)
    ensures After([], interval) == AgedFrom([], 0, interval)
  {
  }

  // ----- Which suffix it is -----

  /** The first `n` appends saw arrival `k` expired no more often than its count allows. */
  predicate Live(a: seq<Item>, n: nat, k: nat, interval: nat)
    requires k < n <= |a|
  {
    Expiries(a, n, k, interval) <= a[k].refc
  }

  /** Append `m` finds the tail dead: its predecessor came without spare references and at least an
      interval earlier. */
  predicate TailReset(a: seq<Item>, m: nat, interval: nat) {
    2 <= m <= |a| && a[m - 2].refc == 0 && a[m - 1].time - a[m - 2].time >= interval
  }

  /** Arrival `j` is live and no later append found the tail dead. */
  ghost predicate Kept(a: seq<Item>, j: nat, interval: nat) {
    j < |a| && Live(a, |a|, j, interval) && forall m :: j + 2 <= m <= |a| ==> !TailReset(a, m, interval)
  }

  lemma {:induction false} AgedLive(a: seq<Item>, k: nat, interval: nat)
    requires k < |a|
    ensures Aged(a, k, interval).refc >= 0 <==> Live(a, |a|, k, interval)
  {
  }

  lemma {:induction false} TailDeadIff(a: seq<Item>, interval: nat)
    requires Ordered(a) && |a| >= 2
    ensures Live(a, |a|, |a| - 2, interval) <==> !TailReset(a, |a|, interval)
  {
    assert Expiries(a, |a| - 1, |a| - 2, interval) == 0;
  }

  /** What is live after an append was live before it. */
  lemma {:induction false} LiveBefore(a: seq<Item>, k: nat, interval: nat)
    requires k < |a| - 1
    ensures Live(a, |a|, k, interval) ==> Live(a[..|a| - 1], |a| - 1, k, interval)
  {
    ExpiriesPrefix(a, |a| - 1, |a| - 1, k, interval);
  }

  lemma {:induction false} KeptStep(a: seq<Item>, j: nat, interval: nat)
    requires j < |a| - 1
    ensures Kept(a, j, interval) <==>
      Kept(a[..|a| - 1], j, interval) && Live(a, |a|, j, interval) && !TailReset(a, |a|, interval)
  {
    var front := a[..|a| - 1];
    forall m | j + 2 <= m < |a|
      ensures TailReset(front, m, interval) == TailReset(a, m, interval)
    {
    }
    LiveBefore(a, j, interval);
  }

  lemma {:induction false} LastKept(a: seq<Item>, interval: nat)
    requires Ordered(a) && a != []
    ensures Kept(a, |a| - 1, interval)
  {
  }

  lemma {:induction false} KeptBounds(a: seq<Item>, j: nat, interval: nat)
    requires Kept(a, j, interval)
    ensures j < |a|
  {
  }

  /** A later arrival that is live is kept as well. */
  lemma {:induction false} KeptLater(a: seq<Item>, j: nat, k: nat, interval: nat)
    requires Kept(a, j, interval) && j <= k < |a|
    ensures Live(a, |a|, k, interval) ==> Kept(a, k, interval)
  {
  }

  /** For arbitrary initial counts: the window starts at the first arrival that is kept. */
  lemma {:induction false} WindowStart(a: seq<Item>, interval: nat) returns (s: nat)
    requires Ordered(a)
    ensures s <= |a| && After(a, interval) == AgedFrom(a, s, interval)
    ensures a != [] ==> Kept(a, s, interval) && forall j :: 0 <= j < s ==> !Kept(a, j, interval)
    decreases |a|
  {
    hide After, AgedFrom, Aged, Expiries, Kept, Live, TailReset;
    s := 0;
    NoArrivals(interval);
    if a != [] {
      var n := |a| - 1;
      var s0 := WindowStart(a[..n], interval);
      var d := AppendAged(a, s0, interval);
      s := s0 + d;
      LastKept(a, interval);
      if n > 0 {
        KeptBounds(a[..n], s0, interval);
        AgedLive(a, n - 1, interval);
        TailDeadIff(a, interval);
        AgedLive(a, s, interval);
        if s < n {
          KeptLater(a[..n], s0, s, interval);
          LiveBefore(a, s, interval);
          KeptStep(a, s, interval);
        }
        forall j | 0 <= j < s
          ensures !Kept(a, j, interval)
        {
          KeptStep(a, j, interval);
          AgedLive(a, j, interval);
        }
      }
    }
  }

  /** The tail test of an append gives up a live entry exactly when it finds the tail dead while some
      arrival kept so far is still live. */
  lemma {:induction false} TailTestLosesIff(a: seq<Item>, interval: nat)
    requires Ordered(a) && |a| >= 2
    ensures var n := |a| - 1;
      var w := CheckTimer(After(a[..n], interval), a[n].time, interval);
      Retained(w) != w[DeadPrefix(w)..] <==>
        TailReset(a, |a|, interval) && exists k :: 0 <= k < n && Kept(a[..n], k, interval) && Live(a, |a|, k, interval)
  {
    hide After, CheckTimer, AgedFrom, Aged, Expiries, Kept, Live, TailReset;
    var n := |a| - 1;
    var s := WindowStart(a[..n], interval);
    KeptBounds(a[..n], s, interval);
    CheckTimerAges(a, s, interval);
    var w := AgedFrom(a, s, interval)[..n - s];
    forall k | s <= k < n
      ensures w[k - s] == Aged(a, k, interval) && (w[k - s].refc >= 0 <==> Live(a, |a|, k, interval))
      ensures Live(a, |a|, k, interval) ==> Kept(a[..n], k, interval)
    {
      AgedAt(a, s, k - s, interval);
      AgedLive(a, k, interval);
      LiveBefore(a, k, interval);
      KeptLater(a[..n], s, k, interval);
    }
    TailDeadIff(a, interval);
    assert w[|w| - 1] == w[n - 1 - s];
    var d := DeadPrefix(w);
    if TailReset(a, |a|, interval) {
      assert Retained(w) == [];
      if d < |w| {
        assert w[s + d - s].refc >= 0 && Kept(a[..n], s + d, interval);
        assert w[d..] != [];
      } else if k :| 0 <= k < n && Kept(a[..n], k, interval) && Live(a, |a|, k, interval) {
        assert w[k - s].refc >= 0;
      }
    } else {
      assert Retained(w) == w[d..];
    }
  }

  lemma {:induction false} FirstAppend(a: seq<Item>, interval: nat)
    requires |a| == 1
    ensures var w := CheckTimer(After(a[..0], interval), a[0].time, interval);
      Retained(w) == w[DeadPrefix(w)..]
  {
    assert a[..0] == [];
  }

  /** With initial counts of at least one, common or not, no append finds the tail dead: the window starts
      exactly at the first live arrival, and nothing but the dead front is ever given up. */
  lemma {:induction false} WindowOfCounted(a: seq<Item>, interval: nat) returns (s: nat)
    requires a != [] && Ordered(a) && forall i :: 0 <= i < |a| ==> a[i].refc >= 1
    ensures s < |a| && After(a, interval) == AgedFrom(a, s, interval)
    ensures Live(a, |a|, s, interval) && forall j :: 0 <= j < s ==> !Live(a, |a|, j, interval)
    ensures forall m: nat :: !TailReset(a, m, interval)
    ensures var w := CheckTimer(After(a[..|a| - 1], interval), a[|a| - 1].time, interval);
      Retained(w) == w[DeadPrefix(w)..]
  {
    hide After, AgedFrom, CheckTimer, Expiries, Live, Retained, DeadPrefix;
    s := WindowStart(a, interval);
    forall j | 0 <= j < s
      ensures !Live(a, |a|, j, interval)
    {
      assert !Kept(a, j, interval);
    }
    if |a| >= 2 {
      TailTestLosesIff(a, interval);
    } else {
      FirstAppend(a, interval);
    }
  }

  /** Three arrivals, one of them without spare references, of which the tail test gives up a live one. */
  lemma {:induction false} LiveEntryLost(x: Bytes)
    ensures var a := [Item(0, 5, x), Item(0, 0, x), Item(10, 0, x)];
      Live(a, 3, 0, 10) && After(a, 10) == [Item(10, 0, x)]
  {
    var a := [Item(0, 5, x), Item(0, 0, x), Item(10, 0, x)];
    assert Expiries(a, 2, 0, 10) == 0;
    var s := WindowStart(a, 10);
    assert TailReset(a, 3, 10);
    assert s == 2;
    assert AgedFrom(a, 2, 10) == [Aged(a, 2, 10)];
  }

  // ----- Bounds -----

  /** After any run the window is a suffix of the arrivals, each aged by the appends that saw it
      expired; whatever the initial counts, nothing younger than the interval has been given up. */
  lemma {:induction false} WindowIsSuffix(a: seq<Item>, interval: nat) returns (s: nat)
    requires Ordered(a)
    ensures s <= |a| && After(a, interval) == AgedFrom(a, s, interval)
    ensures forall k :: 0 <= k < s ==> a[|a| - 1].time - a[k].time >= interval
    decreases |a|
  {
    hide After, AgedFrom, Expiries;
    s := 0;
    NoArrivals(interval);
    if a != [] {
      var n := |a| - 1;
      var s0 := WindowIsSuffix(a[..n], interval);
      var d := AppendAged(a, s0, interval);
      s := s0 + d;
      forall k | 0 <= k < s
        ensures a[n].time - a[k].time >= interval
      {
        if d > 0 {
          OnceExpired(a, |a|, s - 1, interval);
          assert a[k].time <= a[s - 1].time;
        } else {
          assert a[..n][n - 1].time - a[..n][k].time >= interval;
          assert a[n - 1].time <= a[n].time;
        }
      }
    }
  }

  lemma {:induction false} ExactBoundary(a: seq<Item>, n: nat, s0: nat, s: nat, k: nat, interval: nat, r: nat)
    requires Ordered(a) && s0 <= s <= n == |a| - 1 && k < |a| && forall i :: 0 <= i < |a| ==> a[i].refc == r
    requires k < s0 ==> Expiries(a[..n], n, k, interval) > r
    requires s > s0 ==> Aged(a, s - 1, interval).refc < 0
    requires s < n ==> Aged(a, s, interval).refc >= 0
    ensures k >= s <==> Expiries(a, |a|, k, interval) <= r
  {
    if k < s0 {
      ExpiriesPrefix(a, n, n, k, interval);
    } else if k < s {
      ExpiriesMonotone(a, |a|, k, s - 1, interval);
    } else if s < n {
      ExpiriesMonotone(a, |a|, s, k, interval);
    }
  }

  /** With one common initial count `r`, the window is exactly the arrivals seen expired at most `r`
      times, in order. */
  lemma {:induction false} WindowExact(a: seq<Item>, interval: nat, r: nat) returns (s: nat)
    requires Ordered(a) && forall i :: 0 <= i < |a| ==> a[i].refc == r
    ensures s <= |a| && After(a, interval) == AgedFrom(a, s, interval)
    ensures forall k :: 0 <= k < |a| ==> (k >= s <==> Expiries(a, |a|, k, interval) <= r)
    decreases |a|
  {
    hide After, AgedFrom, Expiries;
    s := 0;
    NoArrivals(interval);
    if a != [] {
      var n := |a| - 1;
      var s0 := WindowExact(a[..n], interval, r);
      var d := AppendAged(a, s0, interval);
      s := s0 + d;
      forall k | 0 <= k < |a|
        ensures k >= s <==> Expiries(a, |a|, k, interval) <= r
      {
        assert k < s0 ==> Expiries(a[..n], |a[..n]|, k, interval) > r;
        ExactBoundary(a, n, s0, s, k, interval, r);
      }
    }
  }

  lemma {:induction false} CountsSortedFrom(a: seq<Item>, n: nat, s: nat, interval: nat, r: nat)
    requires Ordered(a) && s <= n == |a| - 1 && forall i :: 0 <= i < |a| ==> a[i].refc == r
    requires forall k :: s <= k < n ==> Expiries(a[..n], n, k, interval) <= r
    ensures forall i, j :: 0 <= i <= j < |a| - s ==>
      -1 <= AgedFrom(a, s, interval)[i].refc <= AgedFrom(a, s, interval)[j].refc
  {
    forall i, j | 0 <= i <= j < |a| - s
      ensures -1 <= AgedFrom(a, s, interval)[i].refc <= AgedFrom(a, s, interval)[j].refc
    {
      ExpiriesMonotone(a, |a|, s + i, s + j, interval);
      assert AgedFrom(a, s, interval)[i] == Aged(a, s + i, interval);
      assert AgedFrom(a, s, interval)[j] == Aged(a, s + j, interval);
      if s + i < n {
        ExpiriesPrefix(a, n, n, s + i, interval);
        assert Expiries(a, |a|, s + i, interval) <= Expiries(a, n, s + i, interval) + 1;
      } else {
        assert Expiries(a, |a|, s + i, interval) == 0;
      }
    }
  }

  lemma {:induction false} PrefixExact(a: seq<Item>, n: nat, interval: nat, r: nat) returns (s: nat)
    requires n <= |a| && Ordered(a) && forall i :: 0 <= i < |a| ==> a[i].refc == r
    ensures s <= n && After(a[..n], interval) == AgedFrom(a[..n], s, interval)
    ensures forall k :: s <= k < n ==> Expiries(a[..n], n, k, interval) <= r
  {
    s := WindowExact(a[..n], interval, r);
  }

  /** With one common initial count: whenever the tail is tested, counts never decrease along the list and
      never fall below -1. */
  lemma {:induction false} CountsSorted(a: seq<Item>, interval: nat, r: nat)
    requires a != [] && Ordered(a) && forall i :: 0 <= i < |a| ==> a[i].refc == r
    ensures var w := CheckTimer(After(a[..|a| - 1], interval), a[|a| - 1].time, interval);
      forall i, j :: 0 <= i <= j < |w| ==> -1 <= w[i].refc <= w[j].refc
  {
    hide CheckTimer, After, AgedFrom, Ordered, Expiries;
    var n := |a| - 1;
    var s := PrefixExact(a, n, interval, r);
    CheckTimerAges(a, s, interval);
    CountsSortedFrom(a, n, s, interval, r);
    var w := AgedFrom(a, s, interval)[..n - s];
    forall i, j | 0 <= i <= j < |w|
      ensures -1 <= w[i].refc <= w[j].refc
    {
      assert w[i] == AgedFrom(a, s, interval)[i] && w[j] == AgedFrom(a, s, interval)[j];
    }
  }

  /** The single test of the tail in `LogList_check_interval` is sound: with one common initial count a
      dead tail means that every entry is dead, so nothing but the dead front is ever given up. */
  lemma {:induction false} TailTestSound(a: seq<Item>, interval: nat, r: nat)
    requires a != [] && Ordered(a) && forall i :: 0 <= i < |a| ==> a[i].refc == r
    ensures var w := CheckTimer(After(a[..|a| - 1], interval), a[|a| - 1].time, interval);
      && (w != [] && w[|w| - 1].refc < 0 ==> forall i :: 0 <= i < |w| ==> w[i].refc == -1)
      && Retained(w) == w[DeadPrefix(w)..]
  {
    hide CheckTimer, After, Ordered;
    CountsSorted(a, interval, r);
    var w := CheckTimer(After(a[..|a| - 1], interval), a[|a| - 1].time, interval);
    if w != [] && w[|w| - 1].refc < 0 {
      forall i | 0 <= i < |w|
        ensures w[i].refc == -1
      {
        assert -1 <= w[i].refc <= w[|w| - 1].refc;
      }
    }
  }

  // ----- The definitions in numbers -----

  /** How often an arrival was seen expired: once for each later append at least an interval after it. */
  lemma {:induction false} ExpiriesCount(a: seq<Item>, n: nat, k: nat, interval: nat)
    requires k < n <= |a|
    ensures Expiries(a, n, k, interval) == |set j | k < j < n && a[j].time - a[k].time >= interval|
  {
    var s := set j | k < j < n && a[j].time - a[k].time >= interval;
    if n == k + 1 {
      assert s == {};
    } else {
      ExpiriesCount(a, n - 1, k, interval);
      var t := set j | k < j < n - 1 && a[j].time - a[k].time >= interval;
      assert s == t + if a[n - 1].time - a[k].time >= interval then {n - 1} else {};
    }
  }

  /** The entries of a window: time and data as they came, the count less the expiries. */
  lemma {:induction false} AgedMeans(a: seq<Item>, s: nat, i: nat, interval: nat)
    requires s + i < |a|
    ensures AgedFrom(a, s, interval)[i].time == a[s + i].time && AgedFrom(a, s, interval)[i].data == a[s + i].data
    ensures AgedFrom(a, s, interval)[i].refc
      == a[s + i].refc - |set j | s + i < j < |a| && a[j].time - a[s + i].time >= interval|
  {
    assert AgedFrom(a, s, interval)[i] == Aged(a, s + i, interval);
    ExpiriesCount(a, |a|, s + i, interval);
  }

  /** 64-bit subtraction of times, also when the clock steps back. */
  lemma {:induction false} ElapsedMeans(now: nat, time: nat)
    requires now < 18446744073709551616 && time < 18446744073709551616
    ensures now >= time ==> Elapsed(now, time) == now - time
    ensures now < time ==> Elapsed(now, time) == 18446744073709551616 - (time - now)
  {
    DivModUnique(now - time, WORD64, if now < time then -1 else 0, Elapsed(now, time));
  }

  lemma {:induction false} AppendedOne(x: Item, y: Item, interval: nat)
    ensures After([x, y], interval) ==
      if Elapsed(y.time, x.time) < interval then (if x.refc < 0 then [y] else [x, y])
      else if x.refc < 1 then [y] else [x.(refc := x.refc - 1), y]
  {
    assert [x, y][..1] == [x] && [x][..0] == [];
    assert After([x], interval) == [x];
    var w := CheckTimer([x], y.time, interval);
    assert w == [if Elapsed(y.time, x.time) < interval then x else x.(refc := x.refc - 1)];
    assert w[..] == w && w[1..] == [];
    assert DeadPrefix(w) == if w[0].refc >= 0 then 0 else 1 + DeadPrefix(w[1..]);
  }

  /** Two arrivals with interval 10: nine apart both stay as they are; ten apart the first loses a reference
      and stays while it has one to lose; and when the clock steps back the first counts as long expired. */
  lemma {:induction false} WindowExamples(x: Bytes)
    ensures After([Item(0, 0, x), Item(9, 0, x)], 10) == [Item(0, 0, x), Item(9, 0, x)]
    ensures After([Item(0, 1, x), Item(10, 1, x)], 10) == [Item(0, 0, x), Item(10, 1, x)]
    ensures After([Item(0, 0, x), Item(10, 0, x)], 10) == [Item(10, 0, x)]
    ensures After([Item(10, 0, x), Item(5, 0, x)], 10) == [Item(5, 0, x)]
  {
    AppendedOne(Item(0, 0, x), Item(9, 0, x), 10);
    AppendedOne(Item(0, 1, x), Item(10, 1, x), 10);
    AppendedOne(Item(0, 0, x), Item(10, 0, x), 10);
    AppendedOne(Item(10, 0, x), Item(5, 0, x), 10);
    ElapsedMeans(9, 0);
    ElapsedMeans(10, 0);
    ElapsedMeans(5, 10);
  }
}
