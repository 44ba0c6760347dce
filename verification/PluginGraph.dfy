/** Memoised initialisation of the plugin graph (plugins/pool/pool_plugin.c and the Create functions
    of the plugins, which all initialise `apply` first and `failed` second). */
module PluginGraph {

  class Plugin {
    var flags: nat
    var apply: Plugin?
    var failed: Plugin?
    var creates: nat  // how often Create ran on this node

    constructor (apply: Plugin?, failed: Plugin?)
      ensures flags == 0 && this.apply == apply && this.failed == failed && creates == 0
    {
      this.apply, this.failed, flags, creates := apply, failed, 0, 0;
    }
  }

  datatype Edges = Edges(apply: Plugin?, failed: Plugin?)

  /** The successors as configured, before any initialisation. */
  type Graph = map<Plugin, Edges>

  /** Closed under successors, and every edge goes down in rank: the graph is acyclic. */
  ghost predicate Acyclic(g: Graph, rank: map<Plugin, nat>) {
    && rank.Keys == g.Keys
    && forall n :: n in g ==>
      && (g[n].apply != null ==> g[n].apply in g && rank[g[n].apply] < rank[n])
      && (g[n].failed != null ==> g[n].failed in g && rank[g[n].failed] < rank[n])
  }

  /** The nodes that initialising `p` has to create: those reached without passing a finished one. */
  ghost function Todo(g: Graph, rank: map<Plugin, nat>, done: set<Plugin>, p: Plugin?): (t: set<Plugin>)
    requires Acyclic(g, rank) && (p != null ==> p in g)
    ensures t <= g.Keys && t !! done
    ensures forall n :: n in t ==> p != null && rank[n] <= rank[p]
    decreases if p != null && p in rank then 1 + rank[p] else 0
  {
    if p == null || p in done then {}
    else {p} + Todo(g, rank, done, g[p].apply) + Todo(g, rank, done, g[p].failed)
  }

  ghost predicate Edge(g: Graph, a: Plugin, b: Plugin) {
    a in g && (g[a].apply == b || g[a].failed == b)
  }

  /** A path from `p` to `n` that avoids finished nodes. */
  ghost predicate Path(g: Graph, done: set<Plugin>, p: Plugin, path: seq<Plugin>, n: Plugin) {
    && 0 < |path| && path[0] == p && path[|path| - 1] == n
    && (forall i :: 0 <= i < |path| ==> path[i] in g && path[i] !in done)
    && (forall i :: 0 <= i < |path| - 1 ==> Edge(g, path[i], path[i + 1]))
  }

  lemma {:induction false} PathCons(g: Graph, done: set<Plugin>, p: Plugin, q: Plugin, path: seq<Plugin>, n: Plugin)
    requires p in g && p !in done && Edge(g, p, q) && Path(g, done, q, path, n)
    ensures Path(g, done, p, [p] + path, n)
  {
    var longer := [p] + path;
    forall i | 0 <= i < |longer| - 1
      ensures Edge(g, longer[i], longer[i + 1])
    {
      if i > 0 {
        assert Edge(g, path[i - 1], path[i]);
      }
    }
  }

  /** What is to do is exactly what is reachable through unfinished nodes. */
  lemma {:induction false} TodoReachable(g: Graph, rank: map<Plugin, nat>, done: set<Plugin>, p: Plugin, n: Plugin)
    requires Acyclic(g, rank) && p in g
    ensures n in Todo(g, rank, done, p) <==> exists path :: Path(g, done, p, path, n)
    decreases rank[p]
  {
    if p !in done {
      var a, f := g[p].apply, g[p].failed;
      if a != null { TodoReachable(g, rank, done, a, n); }
      if f != null { TodoReachable(g, rank, done, f, n); }
      if n in Todo(g, rank, done, p) {
        if n == p {
          assert Path(g, done, p, [p], n);
        } else {
          var q: Plugin := if n in Todo(g, rank, done, a) then a else f;
          var path :| Path(g, done, q, path, n);
          PathCons(g, done, p, q, path, n);
        }
      }
      if path :| Path(g, done, p, path, n) {
        if |path| > 1 {
          var rest := path[1..];
          assert Edge(g, path[0], path[1]);
          forall i | 0 <= i < |rest| - 1
            ensures Edge(g, rest[i], rest[i + 1])
          {
            assert Edge(g, path[i + 1], path[i + 2]);
          }
          assert Path(g, done, path[1], rest, n);
        }
      }
    }
  }

  /** `s` contains the unfinished successors of its members. */
  ghost predicate ClosedUnder(g: Graph, done: set<Plugin>, s: set<Plugin>)
    requires s <= g.Keys
  {
    forall n :: n in s ==>
      && (g[n].apply != null ==> g[n].apply in s || g[n].apply in done)
      && (g[n].failed != null ==> g[n].failed in s || g[n].failed in done)
  }

  lemma {:induction false} TodoClosed(g: Graph, rank: map<Plugin, nat>, done: set<Plugin>, p: Plugin?)
    requires Acyclic(g, rank) && (p != null ==> p in g)
    ensures ClosedUnder(g, done, Todo(g, rank, done, p))
    decreases if p != null then 1 + rank[p] else 0
  {
    if p != null && p !in done {
      TodoClosed(g, rank, done, g[p].apply);
      TodoClosed(g, rank, done, g[p].failed);
    }
  }

  /** Once a closed set is finished, only the rest is left to do. */
  lemma {:induction false} TodoAfter(g: Graph, rank: map<Plugin, nat>, done: set<Plugin>, s: set<Plugin>, p: Plugin?)
    requires Acyclic(g, rank) && (p != null ==> p in g) && s <= g.Keys && ClosedUnder(g, done, s)
    ensures Todo(g, rank, done + s, p) == Todo(g, rank, done, p) - s
    ensures p in s ==> Todo(g, rank, done, p) <= s
    decreases if p != null then 1 + rank[p] else 0
  {
    if p != null && p !in done {
      TodoAfter(g, rank, done, s, g[p].apply);
      TodoAfter(g, rank, done, s, g[p].failed);
    }
  }

  /** A null successor becomes the nop plugin; other edges stay. */
  function Filled(e: Edges, nop: Plugin): Edges {
    Edges(if e.apply == null then nop else e.apply, if e.failed == null then nop else e.failed)
  }

  lemma {:induction false} TodoOf(g: Graph, rank: map<Plugin, nat>, done: set<Plugin>, p: Plugin)
    requires Acyclic(g, rank) && p in g && p !in done
    ensures p !in Todo(g, rank, done, g[p].apply) + Todo(g, rank, done, g[p].failed)
    ensures p in Todo(g, rank, done, p)
    ensures Todo(g, rank, done, p) - {p} == Todo(g, rank, done, g[p].apply) + Todo(g, rank, done, g[p].failed)
  {
  }

  // ----- Whole-graph snapshots -----

  datatype Node = Node(flags: nat, edges: Edges, creates: nat)

  type Snapshot = map<Plugin, Node>

  ghost function Done(s: Snapshot): set<Plugin> {
    set n | n in s && s[n].flags != 0
  }

  lemma {:induction false} DoneAt(s: Snapshot, n: Plugin)
    requires n in s
    ensures n in Done(s) <==> s[n].flags != 0
  {
  }

  ghost function FilledEdges(g: Graph, nop: Plugin, n: Plugin): Edges
    requires n in g
  {
    if n == nop then g[n] else Filled(g[n], nop)
  }

  /** A created and finished node: null successors filled in, flag set, Create run once more. */
  ghost function Finish(g: Graph, nop: Plugin, s: Snapshot, t: set<Plugin>): (r: Snapshot)
    requires s.Keys == g.Keys
    ensures r.Keys == g.Keys
  {
    map n | n in g :: if n in t then Node(1, FilledEdges(g, nop, n), s[n].creates + 1) else s[n]
  }

  /** Unfinished nodes below `bound` still carry their configured edges. */
  ghost predicate Untouched(g: Graph, rank: map<Plugin, nat>, s: Snapshot, bound: nat)
    requires s.Keys == g.Keys == rank.Keys
  {
    forall n :: n in g && s[n].flags == 0 && rank[n] < bound ==> s[n].edges == g[n]
  }

  lemma {:induction false} FinishTwice(g: Graph, nop: Plugin, s: Snapshot, a: set<Plugin>, b: set<Plugin>)
    requires s.Keys == g.Keys && a !! b
    ensures Finish(g, nop, Finish(g, nop, s, a), b) == Finish(g, nop, s, a + b)
  {
  }

  lemma {:induction false} FinishOther(g: Graph, nop: Plugin, s: Snapshot, t: set<Plugin>, p: Plugin, x: Node)
    requires s.Keys == g.Keys && p in g && p !in t
    ensures Finish(g, nop, s[p := x], t) == Finish(g, nop, s, t)[p := x]
  {
  }

  lemma {:induction false} DoneAfter(g: Graph, nop: Plugin, s: Snapshot, t: set<Plugin>)
    requires s.Keys == g.Keys && t <= g.Keys
    ensures Done(Finish(g, nop, s, t)) == Done(s) + t
  {
  }

  lemma {:induction false} Overwrite(s: Snapshot, p: Plugin, x: Node, y: Node)
    ensures s[p := x][p := y] == s[p := y]
  {
  }

  lemma {:induction false} AcyclicAt(g: Graph, rank: map<Plugin, nat>, p: Plugin)
    requires Acyclic(g, rank) && p in g
    ensures p in rank && rank.Keys == g.Keys
    ensures g[p].apply != null ==> g[p].apply in g && rank[g[p].apply] < rank[p]
    ensures g[p].failed != null ==> g[p].failed in g && rank[g[p].failed] < rank[p]
    ensures forall done :: p !in Todo(g, rank, done, g[p].apply) && p !in Todo(g, rank, done, g[p].failed)
  {
  }

  lemma {:induction false} UntouchedLess(g: Graph, rank: map<Plugin, nat>, s: Snapshot, bound: nat, less: nat)
    requires s.Keys == g.Keys == rank.Keys && Untouched(g, rank, s, bound) && less <= bound
    ensures Untouched(g, rank, s, less)
  {
  }

  lemma {:induction false} UntouchedExcept(g: Graph, rank: map<Plugin, nat>, s: Snapshot, p: Plugin, x: Node)
    requires s.Keys == g.Keys == rank.Keys && p in g && Untouched(g, rank, s, rank[p])
    ensures Untouched(g, rank, s[p := x], rank[p])
  {
  }

  lemma {:induction false} StepDone(g: Graph, s: Snapshot, p: Plugin, x: Node)
    requires s.Keys == g.Keys && p in g && s[p].flags == x.flags
    ensures Done(s[p := x]) == Done(s)
  {
  }

  lemma {:induction false} FinishSelf(g: Graph, nop: Plugin, s: Snapshot, t: set<Plugin>, p: Plugin)
    requires s.Keys == g.Keys && p in t && p in g
    ensures Finish(g, nop, s, t - {p})[p := Node(1, FilledEdges(g, nop, p), s[p].creates + 1)] == Finish(g, nop, s, t)
  {
  }

  lemma {:induction false} NothingTodo(g: Graph, rank: map<Plugin, nat>, done: set<Plugin>, p: Plugin?)
    requires Acyclic(g, rank) && (p == null || (p in g && p in done))
    ensures Todo(g, rank, done, p) == {}
  {
  }

  lemma {:induction false} FinishNone(g: Graph, nop: Plugin, s: Snapshot)
    requires s.Keys == g.Keys
    ensures Finish(g, nop, s, {}) == s
  {
  }

  lemma {:induction false} StillUntouched(g: Graph, rank: map<Plugin, nat>, nop: Plugin, s: Snapshot, t: set<Plugin>,
        p: Plugin)
    requires s.Keys == g.Keys == rank.Keys && p in g && t <= g.Keys && p !in t
    requires Untouched(g, rank, s, rank[p] + 1)
    ensures Untouched(g, rank, Finish(g, nop, s, t), rank[p])
    ensures Done(Finish(g, nop, s, t)) == Done(s) + t
    ensures Finish(g, nop, s, t)[p] == s[p]
  {
  }

  class Initialiser {
    const nop: Plugin
    ghost const g: Graph
    ghost const rank: map<Plugin, nat>

    ghost predicate Ready() {
      Acyclic(g, rank) && nop in g && g[nop] == Edges(null, null)
    }

    constructor (nop: Plugin, ghost g: Graph, ghost rank: map<Plugin, nat>)
      requires Acyclic(g, rank) && nop in g && g[nop] == Edges(null, null)
      ensures Ready() && this.nop == nop && this.g == g && this.rank == rank
    {
      this.nop, this.g, this.rank := nop, g, rank;
    }

    ghost function Snap(): (s: Snapshot)
      reads g.Keys
      ensures s.Keys == g.Keys
    {
      map n | n in g :: Node(n.flags, Edges(n.apply, n.failed), n.creates)
    }

    function NodeOf(n: Plugin): Node
      reads n
    {
      Node(n.flags, Edges(n.apply, n.failed), n.creates)
    }

    /** Assignments to one node change one entry of the snapshot. */
    twostate lemma OneChanged(p: Plugin)
      requires p in g && forall n :: n in g && n != p ==> NodeOf(n) == old(NodeOf(n))
      ensures Snap() == old(Snap())[p := NodeOf(p)]
    {
    }

    /** Every node of `t` was created once, flagged and linked; every other node is as in `s`. */
    ghost predicate Initialised(s: Snapshot, t: set<Plugin>)
      requires s.Keys == g.Keys
      reads g.Keys
    {
      forall n :: n in g ==>
        if n !in t then n.flags == s[n].flags && n.creates == s[n].creates && Edges(n.apply, n.failed) == s[n].edges
        else
          && n.flags == 1 && n.creates == s[n].creates + 1
          && (n != nop ==> n.apply == if g[n].apply == null then nop else g[n].apply)
          && (n != nop ==> n.failed == if g[n].failed == null then nop else g[n].failed)
          && (n == nop ==> n.apply == null && n.failed == null)
    }

    lemma {:induction false} SnapAt(p: Plugin)
      requires p in g
      ensures Snap()[p] == NodeOf(p)
    {
    }

    lemma {:induction false} SnapInitialised(s: Snapshot, t: set<Plugin>)
      requires Ready() && s.Keys == g.Keys && Snap() == Finish(g, nop, s, t)
      ensures Initialised(s, t)
    {
      forall n | n in g
        ensures Snap()[n] == NodeOf(n)
        ensures Finish(g, nop, s, t)[n] == Snap()[n]
      {
        SnapAt(n);
      }
    }

    /** `p->apply = pool_plugin_init(p->apply)`, seen from the rest of the graph `s` and from `p` itself, `x`. */
    method FillApply(p: Plugin, ghost s: Snapshot, ghost x: Node)
      requires Ready() && p in g && s.Keys == g.Keys && s[p].flags == x.flags == 0 && x.edges.apply == g[p].apply
      requires Untouched(g, rank, s, rank[p]) && Snap() == s[p := x]
      modifies g.Keys
      ensures Snap() == Finish(g, nop, s, Todo(g, rank, Done(s), g[p].apply))
        [p := x.(edges := x.edges.(apply := Filled(g[p], nop).apply))]
      decreases rank[p], 3
    {
      hide Todo, Finish, Snap, Untouched, Acyclic, Done, FilledEdges;
      SnapAt(p);
      AcyclicAt(g, rank, p);
      StepDone(g, s, p, x);
      UntouchedExcept(g, rank, s, p, x);
      FinishOther(g, nop, s, Todo(g, rank, Done(s), g[p].apply), p, x);
      ghost var filled := Finish(g, nop, s, Todo(g, rank, Done(s), g[p].apply));
      var r := Init(p.apply, rank[p]);
      assert Snap() == filled[p := x];
      SnapAt(p);
      label Ready:
      p.apply := r;
      OneChanged@Ready(p);
      Overwrite(filled, p, x, NodeOf(p));
    }

    /** `p->failed = pool_plugin_init(p->failed)`. */
    method FillFailed(p: Plugin, ghost s: Snapshot, ghost x: Node)
      requires Ready() && p in g && s.Keys == g.Keys && s[p].flags == x.flags == 0 && x.edges.failed == g[p].failed
      requires Untouched(g, rank, s, rank[p]) && Snap() == s[p := x]
      modifies g.Keys
      ensures Snap() == Finish(g, nop, s, Todo(g, rank, Done(s), g[p].failed))
        [p := x.(edges := x.edges.(failed := Filled(g[p], nop).failed))]
      decreases rank[p], 3
    {
      hide Todo, Finish, Snap, Untouched, Acyclic, Done, FilledEdges;
      SnapAt(p);
      AcyclicAt(g, rank, p);
      StepDone(g, s, p, x);
      UntouchedExcept(g, rank, s, p, x);
      FinishOther(g, nop, s, Todo(g, rank, Done(s), g[p].failed), p, x);
      ghost var filled := Finish(g, nop, s, Todo(g, rank, Done(s), g[p].failed));
      var r := Init(p.failed, rank[p]);
      assert Snap() == filled[p := x];
      SnapAt(p);
      label Ready:
      p.failed := r;
      OneChanged@Ready(p);
      Overwrite(filled, p, x, NodeOf(p));
    }

    method CreateSuccessors(p: Plugin, ghost s: Snapshot)
      requires Ready() && p in g && p != nop && s.Keys == g.Keys && s[p].flags == 0 && s[p].edges == g[p]
      requires Untouched(g, rank, s, rank[p] + 1) && Snap() == s[p := Node(0, g[p], s[p].creates + 1)]
      modifies g.Keys
      ensures Snap() == Finish(g, nop, s, Todo(g, rank, Done(s), p) - {p})
        [p := Node(0, FilledEdges(g, nop, p), s[p].creates + 1)]
      decreases rank[p] + 1, 0
    {
      hide Todo, Finish, Snap, Untouched, ClosedUnder, Acyclic;
      AcyclicAt(g, rank, p);
      ghost var done, a, f := Done(s), g[p].apply, g[p].failed;
      ghost var first, second := Todo(g, rank, done, a), Todo(g, rank, done, f) - Todo(g, rank, done, a);
      TodoOf(g, rank, done, p);
      UntouchedLess(g, rank, s, rank[p] + 1, rank[p]);
      FillApply(p, s, Node(0, g[p], s[p].creates + 1));
      TodoClosed(g, rank, done, a);
      TodoAfter(g, rank, done, first, f);
      StillUntouched(g, rank, nop, s, first, p);
      FillFailed(p, Finish(g, nop, s, first), Node(0, Edges(FilledEdges(g, nop, p).apply, f), s[p].creates + 1));
      FinishTwice(g, nop, s, first, second);
      assert first + second == Todo(g, rank, done, p) - {p};
    }

    /** The Create function of any plugin: successors first, then itself; nop has none. */
    method Create(p: Plugin) returns (r: Plugin)
      requires Ready() && p in g && p.flags == 0 && Untouched(g, rank, Snap(), rank[p] + 1)
      modifies g.Keys
      ensures r == p
      ensures var s := old(Snap());
        Snap() == Finish(g, nop, s, Todo(g, rank, Done(s), p) - {p})
          [p := Node(0, FilledEdges(g, nop, p), s[p].creates + 1)]
      decreases rank[p] + 1, 1
    {
      hide Todo, Finish, Snap;
      ghost var s := Snap();
      SnapAt(p);
      TodoOf(g, rank, Done(s), p);
      p.creates := p.creates + 1;
      OneChanged(p);
      StepDone(g, s, p, NodeOf(p));
      if p == nop {
        NothingTodo(g, rank, Done(s), null);
        FinishNone(g, nop, s);
        assert Todo(g, rank, Done(s), p) - {p} == {};
        return nop;
      }
      CreateSuccessors(p, s);
      return p;
    }

    /** `pool_plugin_init`: null becomes nop, a finished node is returned as it is, and otherwise
        exactly the unfinished nodes reachable from `p` are created, once each. */
    method Init(p: Plugin?, ghost bound: nat) returns (r: Plugin)
      requires Ready() && (p != null ==> p in g && rank[p] < bound) && Untouched(g, rank, Snap(), bound)
      modifies g.Keys
      ensures r == if p == null then nop else p
      ensures Snap() == Finish(g, nop, old(Snap()), Todo(g, rank, Done(old(Snap())), p))
      ensures Initialised(old(Snap()), Todo(g, rank, Done(old(Snap())), p))
      decreases bound, 2
    {
      hide Todo, Finish, Snap, Untouched, Acyclic, Done, FilledEdges, Initialised;
      ghost var s := Snap();
      if p != null {
        SnapAt(p);
        AcyclicAt(g, rank, p);
        DoneAt(s, p);
        UntouchedLess(g, rank, s, bound, rank[p] + 1);
      }
      if p == null || p.flags != 0 {
        NothingTodo(g, rank, Done(s), p);
        FinishNone(g, nop, s);
        SnapInitialised(s, {});
        return if p == null then nop else p;
      }
      TodoOf(g, rank, Done(s), p);
      FinishSelf(g, nop, s, Todo(g, rank, Done(s), p), p);
      var q := Create(p);
      SnapAt(p);
      label Created:
      q.flags := q.flags + 1 - q.flags % 2;
      OneChanged@Created(p);
      SnapInitialised(s, Todo(g, rank, Done(s), p));
      return q;
    }
  }

  lemma {:induction false} UntouchedAfter(g: Graph, rank: map<Plugin, nat>, nop: Plugin, s: Snapshot, t: set<Plugin>,
        bound: nat)
    requires s.Keys == g.Keys == rank.Keys && Untouched(g, rank, s, bound)
    ensures Untouched(g, rank, Finish(g, nop, s, t), bound)
  {
  }

  /** Initialising another node `q` afterwards, which may share successors with `p`, creates only what
      `p` did not reach; and initialising `p` a second time changes nothing. */
  lemma {:induction false} SecondCall(g: Graph, rank: map<Plugin, nat>, nop: Plugin, s: Snapshot, p: Plugin,
        q: Plugin, bound: nat)
    requires Acyclic(g, rank) && s.Keys == g.Keys && p in g && q in g && Untouched(g, rank, s, bound)
    ensures var first, second := Todo(g, rank, Done(s), p), Todo(g, rank, Done(s), q);
      var once := Finish(g, nop, s, first);
      && Untouched(g, rank, once, bound)
      && Finish(g, nop, once, Todo(g, rank, Done(once), q)) == Finish(g, nop, s, first + second)
      && Finish(g, nop, once, Todo(g, rank, Done(once), p)) == once
  {
    hide Todo, Finish, Acyclic, Untouched, ClosedUnder, Done;
    AcyclicAt(g, rank, p);
    var first, second := Todo(g, rank, Done(s), p), Todo(g, rank, Done(s), q);
    var once := Finish(g, nop, s, first);
    DoneAfter(g, nop, s, first);
    UntouchedAfter(g, rank, nop, s, first, bound);
    TodoClosed(g, rank, Done(s), p);
    TodoAfter(g, rank, Done(s), first, q);
    TodoAfter(g, rank, Done(s), first, p);
    FinishTwice(g, nop, s, first, second - first);
    assert first + (second - first) == first + second;
    assert first - first == {};
    FinishNone(g, nop, once);
  }

  /** After an initialisation of the nodes `t`: each of them is flagged, was created once more and has its
      configured successors with nop for a missing one (nop itself keeps none); all other nodes are as before. */
  lemma {:induction false} FinishMeans(g: Graph, nop: Plugin, s: Snapshot, t: set<Plugin>, n: Plugin)
    requires s.Keys == g.Keys && n in g
    ensures var r := Finish(g, nop, s, t)[n];
      && (n !in t ==> r == s[n])
      && (n in t ==> r.flags == 1 && r.creates == s[n].creates + 1)
      && (n in t && n != nop ==> r.edges.apply == if g[n].apply == null then nop else g[n].apply)
      && (n in t && n != nop ==> r.edges.failed == if g[n].failed == null then nop else g[n].failed)
      && (n in t && n == nop ==> r.edges == g[n])
  {
  }
}
