/** The linked list behind the time window (plugins/pool/time.c) and the aggregator it feeds
    (plugins/pool/statics.c). */
module TimeWindow {
  import opened LogEntries
  import opened Window

  function ItemsOf(es: seq<LogEntry>): (r: seq<Item>)
    reads es`refc
    ensures |r| == |es|
    ensures forall i :: 0 <= i < |es| ==> r[i] == Item(es[i].time, es[i].refc, es[i].data)
  {
    if es == [] then [] else [Item(es[0].time, es[0].refc, es[0].data)] + ItemsOf(es[1..])
  }

  lemma {:induction false} ItemsSuffix(es: seq<LogEntry>, n: nat)
    requires n <= |es|
    ensures ItemsOf(es[n..]) == ItemsOf(es)[n..]
  {
  }

  lemma {:induction false} ItemsSnoc(es: seq<LogEntry>, e: LogEntry)
    ensures ItemsOf(es + [e]) == ItemsOf(es) + [Item(e.time, e.refc, e.data)]
  {
  }

  /** The entries form an acyclic chain of links ending in null. */
  ghost predicate Linked(es: seq<LogEntry>)
    reads es`next
  {
    && (forall i, j :: 0 <= i < j < |es| ==> es[i] != es[j])
    && (forall i :: 0 <= i < |es| - 1 ==> es[i].next == es[i + 1])
    && (es != [] ==> es[|es| - 1].next == null)
  }

  lemma {:induction false} LinkedAt(es: seq<LogEntry>, i: nat)
    requires Linked(es) && i < |es|
    ensures es[i].next == if i + 1 < |es| then es[i + 1] else null
    ensures forall j :: 0 <= j < |es| && j != i ==> es[j] != es[i]
  {
  }

  lemma {:induction false} LinkedSuffix(es: seq<LogEntry>, n: nat)
    requires Linked(es) && n <= |es|
    ensures Linked(es[n..])
  {
  }

  lemma {:induction false} LinkedSnoc(es: seq<LogEntry>, e: LogEntry)
    requires e !in es && e.next == null && (es != [] ==> es[|es| - 1].next == e)
    requires forall i, j :: 0 <= i < j < |es| ==> es[i] != es[j]
    requires forall i :: 0 <= i < |es| - 1 ==> es[i].next == es[i + 1]
    ensures Linked(es + [e])
  {
  }

  lemma {:induction false} RetainedCases(w: seq<Item>)
    ensures w == [] || w[|w| - 1].refc < 0 ==> Retained(w) == []
    ensures w != [] && w[|w| - 1].refc >= 0 ==> Retained(w) == w[DeadPrefix(w)..] != []
  {
  }

  lemma {:induction false} Ticked(w: seq<Item>, items: seq<Item>, now: nat, interval: nat)
    requires |items| == |w|
    requires forall j :: 0 <= j < |w| ==>
      items[j] == w[j].(refc := if j < ExpiredPrefix(w, now, interval) then w[j].refc - 1 else w[j].refc)
    ensures items == Window.CheckTimer(w, now, interval)
  {
  }

  class LogList {
    var head: LogEntry  // the sentinel
    var tail: LogEntry
    ghost var nodes: seq<LogEntry>  // the entries behind the sentinel, in link order

    /** The entries form an acyclic chain from the sentinel to null. */
    ghost predicate Chain()
      reads this`nodes, this`head, head, nodes`next
    {
      && head.refc >= 0 && head !in nodes && Linked(nodes)
      && head.next == if nodes == [] then null else nodes[0]
    }

    ghost predicate Valid()
      reads this, head, nodes`next
    {
      Chain() && tail == if nodes == [] then head else nodes[|nodes| - 1]
    }

    ghost function Contents(): (r: seq<Item>)
      reads this`nodes, nodes`refc
    {
      ItemsOf(nodes)
    }

    constructor ()
      ensures Valid() && fresh(head) && nodes == [] && Contents() == []
    {
      var sentinel := new LogEntry(0xffff_ffff_ffff_ffff, [], 1);
      head, tail, nodes := sentinel, sentinel, [];
    }

    method CheckTimer(now: nat, interval: nat)
      requires Valid()
      modifies nodes`refc
      ensures Valid() && Contents() == Window.CheckTimer(old(Contents()), now, interval)
    {
      hide ItemsOf, Elapsed, Linked, ExpiredPrefix, Window.CheckTimer;
      ghost var w := Contents();
      ghost var n := ExpiredPrefix(w, now, interval);
      var e := head.next;
      ghost var i := 0;
      while e != null
        invariant 0 <= i <= n && Valid()
        invariant e == if i < |nodes| then nodes[i] else null
        invariant forall j :: 0 <= j < |w| ==> nodes[j].refc == if j < i then w[j].refc - 1 else w[j].refc
        decreases |nodes| - i
      {
        assert e.time == w[i].time;
        if Elapsed(now, e.time) < interval {
          break;
        }
        LinkedAt(nodes, i);
        e.refc := e.refc - 1;
        e := e.next;
        i := i + 1;
      }
      Ticked(w, Contents(), now, interval);
    }

    /** Walks over the dead entries at the front and unlinks them: `prev->h.next = e`. */
    method DropDead()
      requires Chain()
      modifies this`nodes, head`next
      ensures Chain() && nodes == old(nodes[DeadPrefix(Contents())..])
      ensures Contents() == old(Contents())[DeadPrefix(old(Contents()))..]
    {
      hide ItemsOf, Linked, DeadPrefix;
      ghost var w := Contents();
      var e, prev := head.next, head;
      ghost var n := 0;
      while e != null
        invariant 0 <= n <= DeadPrefix(w) && e == if n < |nodes| then nodes[n] else null
        decreases |nodes| - n
        modifies {}
      {
        LinkedAt(nodes, n);
        var next := e.next;
        assert w[n].refc == e.refc;
        if e.refc >= 0 {
          break;
        }
        e := next;
        n := n + 1;
      }
      LinkedSuffix(nodes, n);
      ItemsSuffix(nodes, n);
      prev.next := e;
      nodes := nodes[n..];
    }

    lemma {:induction false} TailIsLast()
      requires Valid()
      ensures nodes != [] ==> Contents()[|nodes| - 1].refc == tail.refc
    {
    }

    /** A dead tail makes the sentinel the tail, even when a live entry stays linked behind it;
        `Link` then overwrites that link. */
    method CheckInterval()
      requires Valid()
      modifies this, head`next
      ensures Chain() && head == old(head) && nodes == old(nodes[DeadPrefix(Contents())..])
      ensures Contents() == old(Contents())[DeadPrefix(old(Contents()))..]
      ensures old(tail.refc) < 0 ==> tail == head
      ensures old(tail.refc) >= 0 ==> tail == if nodes == [] then head else nodes[|nodes| - 1]
    {
      hide ItemsOf, Linked, DeadPrefix;
      TailIsLast();
      ghost var was := nodes;
      if tail.refc < 0 {
        tail := head;
      }
      DropDead();
      assert tail != head ==> nodes != [] && nodes[|nodes| - 1] == was[|was| - 1];
    }

    /** Links a new entry behind the tail; whatever hung there is cut off. */
    method Link(e: LogEntry)
      requires Chain() && (tail == head || (nodes != [] && tail == nodes[|nodes| - 1]))
      requires e !in nodes && e != head && e.next == null
      modifies this`tail, this`nodes, tail`next
      ensures Valid()
      ensures nodes == (if old(tail) == head then [] else old(nodes)) + [e]
    {
      ghost var kept := if tail == head then [] else nodes;
      tail.next := e;
      tail := e;
      LinkedSnoc(kept, e);
      nodes := kept + [e];
    }

    /** What the two checks leave linked up to the tail. */
    method Expire(now: nat, interval: nat)
      requires Valid()
      modifies this, head`next, nodes`refc
      ensures Chain() && head == old(head) && (forall x :: x in nodes ==> x in old(nodes))
      ensures tail == head || (tail in nodes && tail == nodes[|nodes| - 1])
      ensures (if tail == head then [] else Contents()) == Retained(Window.CheckTimer(old(Contents()), now, interval))
    {
      hide Linked, ItemsOf, Window.CheckTimer, DeadPrefix, Retained;
      CheckTimer(now, interval);
      ghost var w := Contents();
      TailIsLast();
      RetainedCases(w);
      CheckInterval();
    }

    /** The timer check, the dead front (or all, behind a dead tail) given up, a copy of `log` linked in. */
    method Append(log: LogEntry, interval: nat)
      requires Valid() && log !in nodes && log != head && log.next == null
      modifies this, head`next, nodes
      ensures Valid() && head == old(head)
      ensures forall x :: x in nodes ==> x in old(nodes) || fresh(x)
      ensures Contents() == Appended(old(Contents()), Item(log.time, log.refc, log.data), interval)
    {
      hide Linked, ItemsOf, Window.CheckTimer, Retained;
      Expire(log.time, interval);
      var e := new LogEntry(log.time, log.data, log.refc);
      ghost var kept := if tail == head then [] else nodes;
      ghost var items := ItemsOf(kept);
      ItemsSnoc(kept, e);
      ItemsSnoc([], e);
      Link(e);
      assert nodes == kept + [e];
    }
  }
}
