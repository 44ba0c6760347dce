/** A timer plugin (plugins/pool/time.c) feeding an aggregator (plugins/pool/statics.c). */
module Aggregator {
  import opened LogEntries
  import opened Window
  import TW = TimeWindow

  const WORD32: nat := 0x1_0000_0000

  /** The user's callbacks, read as functions. */
  datatype Callbacks = Callbacks(finit: nat -> nat, step: (nat, Item) -> nat, fexit: nat -> nat)

  /** A call of the aggregator's own successor, with the 32-bit state passed on. */
  datatype Routed = ToApply(item: Item, state: nat) | ToFailed(item: Item, state: nat)

  datatype Agg = Agg(context: nat, routed: seq<Routed>)

  /** `statics_apply`, one call. */
  function Step(cb: Callbacks, a: Agg, item: Item, state: nat): Agg {
    if state == 0 then Agg(cb.finit(a.context), a.routed)
    else if state == 1 then Agg(cb.step(a.context, item), a.routed)
    else
      var data := if state == 2 then cb.fexit(a.context) else 0;
      Agg(a.context, a.routed + [if data != 0 then ToApply(item, data % WORD32) else ToFailed(item, data % WORD32)])
  }

  function StepAll(cb: Callbacks, a: Agg, items: seq<Item>, state: nat): Agg {
    if items == [] then a
    else Step(cb, StepAll(cb, a, items[..|items| - 1], state), items[|items| - 1], state)
  }

  function FoldLeft(step: (nat, Item) -> nat, context: nat, items: seq<Item>): nat {
    if items == [] then context
    else step(FoldLeft(step, context, items[..|items| - 1]), items[|items| - 1])
  }

  /** Start, every retained entry, finish. */
  function Deliver(cb: Callbacks, a: Agg, item: Item, window: seq<Item>, start: nat, cont: nat, finish: nat): Agg {
    Step(cb, StepAll(cb, Step(cb, a, item, start), window, cont), item, finish)
  }

  lemma {:induction false} StepAllFolds(cb: Callbacks, a: Agg, items: seq<Item>)
    ensures StepAll(cb, a, items, 1) == Agg(FoldLeft(cb.step, a.context, items), a.routed)
  {
    if items != [] {
      StepAllFolds(cb, a, items[..|items| - 1]);
    }
  }

  /** With the flags 0, 1, 2 the aggregator computes `fexit` of the left fold of the step function over
      exactly the window, from `finit` of the old context, and routes to `apply` iff it is nonzero. */
  lemma {:induction false} DeliverMeans(cb: Callbacks, a: Agg, item: Item, window: seq<Item>)
    ensures var folded := FoldLeft(cb.step, cb.finit(a.context), window);
      Deliver(cb, a, item, window, 0, 1, 2) == Agg(folded, a.routed +
        [if cb.fexit(folded) != 0 then ToApply(item, cb.fexit(folded) % WORD32) else ToFailed(item, 0)])
  {
    StepAllFolds(cb, Step(cb, a, item, 0), window);
  }

  class Statics {
    var context: nat
    var routed: seq<Routed>
    const cb: Callbacks

    ghost function State(): Agg
      reads this
    {
      Agg(context, routed)
    }

    constructor (cb: Callbacks)
      ensures this.cb == cb && State() == Agg(0, [])
    {
      this.cb, context, routed := cb, 0, [];
    }

    method Apply(item: Item, state: nat)
      modifies this
      ensures State() == Step(cb, old(State()), item, state)
    {
      var data := 0;
      match state {
        case 0 =>
          context := cb.finit(context);
          return;
        case 1 =>
          context := cb.step(context, item);
          return;
        case 2 =>
          data := cb.fexit(context);
        case _ =>
      }
      if data != 0 {
        routed := routed + [ToApply(item, data % WORD32)];
      } else {
        routed := routed + [ToFailed(item, data % WORD32)];
      }
    }
  }

  class Timer {
    const list: TW.LogList
    const next: Statics
    const timer: nat
    const flagStart: nat
    const flagCont: nat
    const flagFinish: nat
    ghost var arrivals: seq<Item>

    /** The list holds the window of everything that ever arrived. */
    ghost predicate Valid()
      reads this, list, list.head, list.nodes
    {
      list.Valid() && list.Contents() == After(arrivals, timer)
    }

    constructor (next: Statics, timer: nat, flagStart: nat, flagCont: nat, flagFinish: nat)
      requires timer > 0
      ensures Valid() && arrivals == [] && fresh(list) && fresh(list.head)
      ensures this.next == next && this.timer == timer
      ensures this.flagStart == flagStart && this.flagCont == flagCont && this.flagFinish == flagFinish
    {
      list := new TW.LogList();
      this.next, this.timer, arrivals := next, timer, [];
      this.flagStart, this.flagCont, this.flagFinish := flagStart, flagCont, flagFinish;
    }

    ghost predicate Incoming(e: LogEntry)
      reads e, list
    {
      e !in list.nodes && e != list.head && e.next == null
    }

    function ItemOf(e: LogEntry): Item
      reads e
    {
      Item(e.time, e.refc, e.data)
    }

    /** `timer_failed` only buffers. */
    method Failed(e: LogEntry)
      requires Valid() && Incoming(e)
      modifies this, list, list.head, list.nodes
      ensures Valid() && arrivals == old(arrivals) + [Item(e.time, old(e.refc), e.data)]
      ensures list.head == old(list.head) && forall x :: x in list.nodes ==> x in old(list.nodes) || fresh(x)
    {
      hide TW.Linked, TW.ItemsOf, After, Appended;
      AfterSnoc(arrivals, ItemOf(e), timer);
      arrivals := arrivals + [ItemOf(e)];
      list.Append(e, timer);
    }

    method DeliverWindow()
      requires list.Valid()
      modifies next
      ensures next.State() == StepAll(next.cb, old(next.State()), list.Contents(), flagCont)
    {
      hide TW.Linked, TW.ItemsOf, Step;
      ghost var started, window, n := next.State(), list.Contents(), 0;
      var head := list.head.next;
      while head != null
        invariant 0 <= n <= |window| && head == if n < |window| then list.nodes[n] else null
        invariant next.State() == StepAll(next.cb, started, window[..n], flagCont)
        invariant list.Valid() && list.Contents() == window
        decreases |window| - n
      {
        TW.LinkedAt(list.nodes, n);
        var after := head.next;
        assert ItemOf(head) == window[n];
        assert window[..n + 1][..n] == window[..n];
        next.Apply(ItemOf(head), flagCont);
        head := after;
        n := n + 1;
      }
      assert window[..n] == window;
    }

    /** The calls of the aggregator: start, every entry of the list, finish. */
    method Report(item: Item)
      requires list.Valid()
      modifies next
      ensures next.State() ==
        Deliver(next.cb, old(next.State()), item, list.Contents(), flagStart, flagCont, flagFinish)
    {
      hide TW.Linked, TW.ItemsOf, Step, StepAll;
      next.Apply(item, flagStart);
      DeliverWindow();
      next.Apply(item, flagFinish);
    }

    /** `timer_apply` buffers, then delivers the whole window between a start and a finish call. */
    method Apply(e: LogEntry)
      requires Valid() && Incoming(e)
      modifies this, list, list.head, list.nodes, next
      ensures Valid() && arrivals == old(arrivals) + [Item(e.time, old(e.refc), e.data)]
      ensures list.head == old(list.head) && forall x :: x in list.nodes ==> x in old(list.nodes) || fresh(x)
      ensures next.State() ==
        Deliver(next.cb, old(next.State()), Item(e.time, old(e.refc), e.data), After(arrivals, timer),
                flagStart, flagCont, flagFinish)
    {
      hide TW.Linked, TW.ItemsOf, After, Deliver;
      var item := ItemOf(e);
      Failed(e);
      Report(item);
    }
  }

  /** What one call does in each state; a state above 2, such as one aggregator may hand to the next, is
      reported and routed to failed with 0. */
  lemma {:induction false} StepMeans(cb: Callbacks, a: Agg, item: Item, state: nat)
    ensures state == 0 ==> Step(cb, a, item, state) == Agg(cb.finit(a.context), a.routed)
    ensures state == 1 ==> Step(cb, a, item, state) == Agg(cb.step(a.context, item), a.routed)
    ensures state == 2 && cb.fexit(a.context) != 0 ==>
      Step(cb, a, item, state) == Agg(a.context, a.routed + [ToApply(item, cb.fexit(a.context) % 4294967296)])
    ensures state > 2 || (state == 2 && cb.fexit(a.context) == 0) ==>
      Step(cb, a, item, state) == Agg(a.context, a.routed + [ToFailed(item, 0)])
  {
  }

  /** A fold takes the entries in order. */
  lemma {:induction false} FoldMeans(step: (nat, Item) -> nat, context: nat, items: seq<Item>, item: Item)
    ensures FoldLeft(step, context, []) == context
    ensures FoldLeft(step, context, items + [item]) == step(FoldLeft(step, context, items), item)
  {
    assert (items + [item])[..|items|] == items;
  }
}
