/** The viewer's code generator (logpool-viewer/scene.cpp): a node tree becomes a C program that clones
    one plugin per node and links the clones. Programs are lists of statements instead of text. */
module Codegen {
  import opened Wrappers

  /** A configuration node; its `apply` and `failed` children may be missing. */
  datatype Tree = Node(kind: string, conf: string, apply: Option<Tree>, failed: Option<Tree>)

  datatype Stmt =
    | Clone(p: nat, kind: string)       // struct pool_plugin_<kind> *p<p> = POOL_PLUGIN_CLONE(...)
    | SetApply(p: nat, target: nat)     // p<p>->base.apply = &p<target>->base
    | SetFailed(p: nat, target: nat)    // p<p>->base.failed = &p<target>->base
    | Configure(p: nat, conf: string)   // the block of field assignments of makeConf

  // ----- What the generated program does -----

  datatype Cell = Cell(kind: string, conf: string, apply: Option<nat>, failed: Option<nat>)

  type Heap = map<nat, Cell>

  /** Redeclaring a variable or using an undeclared one is an error. */
  function Exec1(s: Stmt, h: Heap): Option<Heap> {
    if s.Clone? then
      if s.p in h then None else Some(h[s.p := Cell(s.kind, "", None, None)])
    else if s.p !in h then None
    else
      match s
      case SetApply(p, t) => if t in h then Some(h[p := h[p].(apply := Some(t))]) else None
      case SetFailed(p, t) => if t in h then Some(h[p := h[p].(failed := Some(t))]) else None
      case Configure(p, conf) => Some(h[p := h[p].(conf := conf)])
  }

  function Exec(prog: seq<Stmt>, h: Heap): Option<Heap> {
    if prog == [] then Some(h)
    else
      match Exec1(prog[0], h)
      case None => None
      case Some(h') => Exec(prog[1..], h')
  }

  /** Unfolding the heap graph from cell `i` gives the tree `t`. */
  predicate Unfolds(h: Heap, i: nat, t: Tree)
    decreases t
  {
    && i in h && h[i].kind == t.kind && h[i].conf == t.conf
    && (match t.apply
        case None => h[i].apply == None
        case Some(c) => h[i].apply.Some? && Unfolds(h, h[i].apply.value, c))
    && (match t.failed
        case None => h[i].failed == None
        case Some(c) => h[i].failed.Some? && Unfolds(h, h[i].failed.value, c))
  }

  /** The unfolding is unique. */
  lemma {:induction false} UnfoldsUnique(h: Heap, i: nat, t: Tree, u: Tree)
    requires Unfolds(h, i, t) && Unfolds(h, i, u)
    ensures t == u
    decreases t
  {
    if t.apply.Some? { UnfoldsUnique(h, h[i].apply.value, t.apply.value, u.apply.value); }
    if t.failed.Some? { UnfoldsUnique(h, h[i].failed.value, t.failed.value, u.failed.value); }
  }

  // ----- The emitted statements as functions of the tree -----

  function SizeOf(t: Option<Tree>): nat {
    match t
    case None => 0
    case Some(n) => 1 + SizeOf(n.apply) + SizeOf(n.failed)
  }

  function Size(t: Tree): nat {
    1 + SizeOf(t.apply) + SizeOf(t.failed)
  }

  function Inits(t: Option<Tree>, b: nat): seq<Stmt> {
    match t
    case None => []
    case Some(n) => [Clone(b, n.kind)] + Inits(n.apply, b + 1) + Inits(n.failed, b + 1 + SizeOf(n.apply))
  }

  function Chains(t: Option<Tree>, b: nat): seq<Stmt> {
    match t
    case None => []
    case Some(n) =>
      var f := b + 1 + SizeOf(n.apply);
      (if n.apply.Some? then [SetApply(b, b + 1)] else []) + Chains(n.apply, b + 1)
      + ((if n.failed.Some? then [SetFailed(b, f)] else []) + Chains(n.failed, f))
  }

  function Confs(t: Option<Tree>, b: nat): seq<Stmt> {
    match t
    case None => []
    case Some(n) => [Configure(b, n.conf)] + Confs(n.apply, b + 1) + Confs(n.failed, b + 1 + SizeOf(n.apply))
  }

  /** The first free index after some roots. */
  function Base(roots: seq<Option<Tree>>): nat {
    if roots == [] then 0 else Base(roots[..|roots| - 1]) + SizeOf(roots[|roots| - 1])
  }

  function RootProgram(t: Option<Tree>, b: nat): seq<Stmt> {
    Inits(t, b) + Chains(t, b) + Confs(t, b)
  }

  function Program(roots: seq<Option<Tree>>): seq<Stmt> {
    if roots == [] then []
    else
      var n := |roots| - 1;
      Program(roots[..n]) + RootProgram(roots[n], Base(roots[..n]))
  }

  function CellFor(n: Tree, b: nat, applied: bool, linked: bool, configured: bool): Cell {
    Cell(n.kind, if configured then n.conf else "",
         if applied && n.apply.Some? then Some(b + 1) else None,
         if linked && n.failed.Some? then Some(b + 1 + SizeOf(n.apply)) else None)
  }

  /** Cells `b .. b + size - 1` in preorder, as far as `linked` and `configured` say. */
  function Built(t: Option<Tree>, b: nat, linked: bool, configured: bool): Heap {
    match t
    case None => map[]
    case Some(n) =>
      map[b := CellFor(n, b, linked, linked, configured)]
      + Built(n.apply, b + 1, linked, configured)
      + Built(n.failed, b + 1 + SizeOf(n.apply), linked, configured)
  }

  lemma {:induction false} NoCells(h: Heap, b: nat, linked: bool, configured: bool)
    ensures h + Built(None, b, linked, configured) == h
    ensures Exec([], h) == Some(h)
    ensures Inits(None, b) == [] && Chains(None, b) == [] && Confs(None, b) == []
  {
    var none: Heap := map[];
    assert Built(None, b, linked, configured) == none;
    assert h + none == h;
  }

  lemma {:induction false} BuiltOf(n: Tree, b: nat, linked: bool, configured: bool)
    ensures Built(Some(n), b, linked, configured) == map[b := CellFor(n, b, linked, linked, configured)]
      + Built(n.apply, b + 1, linked, configured) + Built(n.failed, b + 1 + SizeOf(n.apply), linked, configured)
  {
  }

  /** The root's cell and its children's cells written in turn. */
  lemma {:induction false} BuiltAssemble(h: Heap, n: Tree, b: nat, linked: bool, configured: bool)
    ensures h[b := CellFor(n, b, linked, linked, configured)] + Built(n.apply, b + 1, linked, configured)
      + Built(n.failed, b + 1 + SizeOf(n.apply), linked, configured) == h + Built(Some(n), b, linked, configured)
  {
    hide Built, CellFor;
    BuiltOf(n, b, linked, configured);
    var own: Heap := map[b := CellFor(n, b, linked, linked, configured)];
    var applied, failed := Built(n.apply, b + 1, linked, configured),
      Built(n.failed, b + 1 + SizeOf(n.apply), linked, configured);
    assert h[b := CellFor(n, b, linked, linked, configured)] == h + own;
    assert h + own + applied + failed == h + (own + applied + failed);
  }

  lemma {:induction false} InitsOf(n: Tree, b: nat)
    ensures Inits(Some(n), b) == [Clone(b, n.kind)] + Inits(n.apply, b + 1) + Inits(n.failed, b + 1 + SizeOf(n.apply))
    ensures Confs(Some(n), b) ==
      [Configure(b, n.conf)] + Confs(n.apply, b + 1) + Confs(n.failed, b + 1 + SizeOf(n.apply))
  {
  }

  lemma {:induction false} ChainsOf(n: Tree, b: nat)
    ensures var f := b + 1 + SizeOf(n.apply);
      Chains(Some(n), b) == (if n.apply.Some? then [SetApply(b, b + 1)] else []) + Chains(n.apply, b + 1)
        + ((if n.failed.Some? then [SetFailed(b, f)] else []) + Chains(n.failed, f))
  {
  }

  class Generator {
    var init: seq<Stmt>
    var chain: seq<Stmt>
    var conf: seq<Stmt>

    constructor ()
      ensures init == chain == conf == []
    {
      init, chain, conf := [], [], [];
    }

    lemma {:induction false} Regroup(s: seq<Stmt>, a: seq<Stmt>, b: seq<Stmt>, c: seq<Stmt>, d: seq<Stmt>)
      ensures s + (a + b + (c + d)) == s + a + b + c + d
      ensures c == [] ==> s + (a + b + d) == s + a + b + d
    {
    }

    /** The accumulators after the node's own statements and its children's, in emission order. */
    lemma {:induction false} EmittedSome(n: Tree, b: nat, i: seq<Stmt>, l: seq<Stmt>, c: seq<Stmt>)
      ensures var f := b + 1 + SizeOf(n.apply);
        && i + Inits(Some(n), b) == i + [Clone(b, n.kind)] + Inits(n.apply, b + 1) + Inits(n.failed, f)
        && c + Confs(Some(n), b) == c + [Configure(b, n.conf)] + Confs(n.apply, b + 1) + Confs(n.failed, f)
        && l + Chains(Some(n), b) == l + (if n.apply.Some? then [SetApply(b, b + 1)] else []) + Chains(n.apply, b + 1)
           + (if n.failed.Some? then [SetFailed(b, f)] else []) + Chains(n.failed, f)
    {
      hide Inits, Confs, Chains;
      var f := b + 1 + SizeOf(n.apply);
      InitsOf(n, b);
      ChainsOf(n, b);
      Regroup(i, [Clone(b, n.kind)], Inits(n.apply, b + 1), [], Inits(n.failed, f));
      Regroup(c, [Configure(b, n.conf)], Confs(n.apply, b + 1), [], Confs(n.failed, f));
      Regroup(l, if n.apply.Some? then [SetApply(b, b + 1)] else [], Chains(n.apply, b + 1),
              if n.failed.Some? then [SetFailed(b, f)] else [], Chains(n.failed, f));
    }

    /** `nodeToCode`; `index` is the shared counter, on return the last index used. */
    method NodeToCode(n: Tree, index: nat) returns (index': nat)
      modifies this
      ensures init == old(init) + Inits(Some(n), index)
      ensures chain == old(chain) + Chains(Some(n), index)
      ensures conf == old(conf) + Confs(Some(n), index)
      ensures index' == index + Size(n) - 1
      decreases n
    {
      hide Inits, Chains, Confs;
      var base := index;
      index' := index;
      init := init + [Clone(base, n.kind)];
      conf := conf + [Configure(base, n.conf)];
      NoCells(map[], base + 1, false, false);
      NoCells(map[], base + 1 + SizeOf(n.apply), false, false);
      if n.apply.Some? {
        index' := index' + 1;
        chain := chain + [SetApply(base, index')];
        index' := NodeToCode(n.apply.value, index');
      }
      if n.failed.Some? {
        index' := index' + 1;
        chain := chain + [SetFailed(base, index')];
        index' := NodeToCode(n.failed.value, index');
      }
      EmittedSome(n, base, old(init), old(chain), old(conf));
    }

    lemma {:induction false} ProgramNone()
      ensures Program([]) == [] && Base([]) == 0 && SizeOf(None) == 0
    {
    }

    lemma {:induction false} ProgramNext(roots: seq<Option<Tree>>, i: nat)
      requires i < |roots|
      ensures Program(roots[..i + 1]) ==
        Program(roots[..i]) + (if roots[i].Some? then RootProgram(roots[i], Base(roots[..i])) else [])
      ensures Base(roots[..i + 1]) == Base(roots[..i]) + SizeOf(roots[i])
    {
      assert roots[..i + 1][..i] == roots[..i];
    }

    lemma {:induction false} RootOf(n: Tree, b: nat)
      ensures [] + Inits(Some(n), b) + ([] + Chains(Some(n), b)) + ([] + Confs(Some(n), b)) == RootProgram(Some(n), b)
      ensures SizeOf(Some(n)) == Size(n)
    {
    }

    /** `codegen`: every root that is a node, with the three accumulators flushed after each. */
    method Generate(roots: seq<Option<Tree>>) returns (program: seq<Stmt>)
      requires init == chain == conf == []
      modifies this
      ensures program == Program(roots)
    {
      hide Program, Base, Inits, Chains, Confs, RootProgram, Size, SizeOf;
      program := [];
      var idx := 0;
      ProgramNone();
      for i := 0 to |roots|
        invariant init == chain == conf == []
        invariant program == Program(roots[..i]) && idx == Base(roots[..i])
      {
        ProgramNext(roots, i);
        if roots[i].Some? {
          RootOf(roots[i].value, idx);
          idx := NodeToCode(roots[i].value, idx);
          idx := idx + 1;
          program := program + (init + chain + conf);
          init, chain, conf := [], [], [];
        }
      }
      assert roots[..|roots|] == roots;
    }
  }

  // ----- The heap built for one tree -----

  lemma {:induction false} BuiltKeys(t: Option<Tree>, b: nat, linked: bool, configured: bool)
    ensures forall i: nat :: i in Built(t, b, linked, configured) <==> b <= i < b + SizeOf(t)
  {
    if t.Some? {
      BuiltKeys(t.value.apply, b + 1, linked, configured);
      BuiltKeys(t.value.failed, b + 1 + SizeOf(t.value.apply), linked, configured);
    }
  }

  lemma {:induction false} ExecSplit(p: seq<Stmt>, q: seq<Stmt>, h: Heap)
    ensures Exec(p + q, h) == match Exec(p, h) case None => None case Some(h') => Exec(q, h')
    decreases |p|
  {
    if p == [] {
      assert p + q == q;
    } else {
      assert (p + q)[1..] == p[1..] + q;
      match Exec1(p[0], h)
      case None =>
      case Some(h') => ExecSplit(p[1..], q, h');
    }
  }

  lemma {:induction false} ExecThen(p: seq<Stmt>, q: seq<Stmt>, h: Heap, h1: Heap, h2: Heap)
    requires Exec(p, h) == Some(h1) && Exec(q, h1) == Some(h2)
    ensures Exec(p + q, h) == Some(h2)
  {
    ExecSplit(p, q, h);
  }

  ghost predicate Fresh(h: Heap, b: nat, n: nat) {
    forall i: nat :: b <= i < b + n ==> i !in h
  }

  lemma {:induction false} ExecOne(s: Stmt, h: Heap)
    ensures Exec([s], h) == Exec1(s, h)
    ensures Exec([], h) == Some(h)
  {
  }

  lemma {:induction false} InitsRun(t: Option<Tree>, b: nat, h: Heap)
    requires Fresh(h, b, SizeOf(t))
    ensures Exec(Inits(t, b), h) == Some(h + Built(t, b, false, false))
  {
    hide Exec, Built, Inits;
    if t.Some? {
      var n := t.value;
      var f := b + 1 + SizeOf(n.apply);
      var s, a, e := [Clone(b, n.kind)], Inits(n.apply, b + 1), Inits(n.failed, f);
      var h1 := h[b := CellFor(n, b, false, false, false)];
      ExecOne(Clone(b, n.kind), h);
      var h2 := h1 + Built(n.apply, b + 1, false, false);
      InitsRun(n.apply, b + 1, h1);
      ExecThen(s, a, h, h1, h2);
      BuiltKeys(n.apply, b + 1, false, false);
      InitsRun(n.failed, f, h2);
      ExecThen(s + a, e, h, h2, h2 + Built(n.failed, f, false, false));
      BuiltAssemble(h, n, b, false, false);
      InitsOf(n, b);
    } else {
      NoCells(h, b, false, false);
    }
  }

  /** `h` contains the cells of `part`. */
  ghost predicate Contains(h: Heap, part: Heap) {
    forall i :: i in part ==> i in h && h[i] == part[i]
  }

  lemma {:induction false} ContainsSum(h: Heap, x: Heap, y: Heap)
    requires Contains(h, x + y) && forall i :: i in x ==> i !in y
    ensures Contains(h, x) && Contains(h, y)
  {
    forall i | i in x
      ensures i in h && h[i] == x[i]
    {
      assert i in x + y && (x + y)[i] == x[i];
    }
  }

  lemma {:induction false} ContainsKeys(h: Heap, part: Heap)
    requires Contains(h, part)
    ensures part.Keys <= h.Keys
  {
  }

  lemma {:induction false} ContainsOne(h: Heap, i: nat, x: Cell)
    requires Contains(h, map[i := x])
    ensures i in h && h[i] == x
  {
    assert i in map[i := x];
  }

  lemma {:induction false} ContainsParts(h: Heap, n: Tree, b: nat, linked: bool, configured: bool)
    requires Contains(h, Built(Some(n), b, linked, configured))
    ensures b in h && h[b] == CellFor(n, b, linked, linked, configured)
    ensures Contains(h, Built(n.apply, b + 1, linked, configured))
    ensures Contains(h, Built(n.failed, b + 1 + SizeOf(n.apply), linked, configured))
  {
    hide Built, CellFor, Contains;
    BuiltOf(n, b, linked, configured);
    BuiltKeys(n.apply, b + 1, linked, configured);
    BuiltKeys(n.failed, b + 1 + SizeOf(n.apply), linked, configured);
    var own: Heap := map[b := CellFor(n, b, linked, linked, configured)];
    var applied := Built(n.apply, b + 1, linked, configured);
    ContainsSum(h, own + applied, Built(n.failed, b + 1 + SizeOf(n.apply), linked, configured));
    ContainsSum(h, own, applied);
    ContainsOne(h, b, CellFor(n, b, linked, linked, configured));
  }

  /** Writing cells outside `part` keeps it. */
  lemma {:induction false} ContainsCell(h: Heap, part: Heap, b: nat, x: Cell, other: Heap)
    requires Contains(h, part) && b !in part && forall i :: i in other ==> i !in part
    ensures Contains(h[b := x] + other, part)
    ensures other == map[] ==> Contains(h[b := x], part)
  {
  }

  lemma {:induction false} LinkApply(n: Tree, b: nat, h: Heap)
    requires Contains(h, Built(Some(n), b, false, false))
    ensures Exec(if n.apply.Some? then [SetApply(b, b + 1)] else [], h) ==
      Some(h[b := CellFor(n, b, true, false, false)])
  {
    hide Built, Contains, Exec;
    ContainsParts(h, n, b, false, false);
    BuiltKeys(n.apply, b + 1, false, false);
    if n.apply.Some? {
      ContainsKeys(h, Built(n.apply, b + 1, false, false));
    }
    assert h[b := h[b]] == h;
    ExecOne(SetApply(b, b + 1), h);
  }

  lemma {:induction false} FailedDeclared(n: Tree, b: nat, h: Heap)
    requires Contains(h, Built(Some(n), b, false, false)) && n.failed.Some?
    ensures b + 1 + SizeOf(n.apply) in h
  {
    hide Built, Contains;
    ContainsParts(h, n, b, false, false);
    BuiltKeys(n.failed, b + 1 + SizeOf(n.apply), false, false);
    ContainsKeys(h, Built(n.failed, b + 1 + SizeOf(n.apply), false, false));
  }

  lemma {:induction false} LinkFailed(n: Tree, b: nat, h: Heap, part: Heap, x: Cell, y: Cell)
    requires Contains(h, Built(Some(n), b, false, false))
    requires x == CellFor(n, b, true, false, false) && y == CellFor(n, b, true, true, false)
    requires b !in part
    ensures Exec(if n.failed.Some? then [SetFailed(b, b + 1 + SizeOf(n.apply))] else [], h[b := x] + part) ==
      Some(h[b := y] + part)
  {
    hide Exec, Built, Contains;
    var f := b + 1 + SizeOf(n.apply);
    var h' := h[b := x] + part;
    ContainsParts(h, n, b, false, false);
    if n.failed.Some? {
      FailedDeclared(n, b, h);
      ExecOne(SetFailed(b, f), h');
      assert h'[b] == x && x.(failed := Some(f)) == y;
      assert h'[b := y] == h[b := y] + part;
    } else {
      ExecOne(SetFailed(b, f), h');
      assert x == y;
    }
  }

  lemma {:induction false} ChainsRun(t: Option<Tree>, b: nat, h: Heap)
    requires Contains(h, Built(t, b, false, false))
    ensures Exec(Chains(t, b), h) == Some(h + Built(t, b, true, false))
  {
    hide Exec, Built, Chains, Contains, CellFor;
    if t.Some? {
      var n := t.value;
      var f := b + 1 + SizeOf(n.apply);
      var applies := if n.apply.Some? then [SetApply(b, b + 1)] else [];
      var faileds := if n.failed.Some? then [SetFailed(b, f)] else [];
      var x, y := CellFor(n, b, true, false, false), CellFor(n, b, true, true, false);
      var h1 := h[b := x];
      var part := Built(n.apply, b + 1, true, false);
      var h2, h3 := h1 + part, h[b := y] + part;
      var h4 := h3 + Built(n.failed, f, true, false);
      ContainsParts(h, n, b, false, false);
      LinkApply(n, b, h);
      BuiltKeys(n.apply, b + 1, false, false);
      ContainsCell(h, Built(n.apply, b + 1, false, false), b, x, map[]);
      ChainsRun(n.apply, b + 1, h1);
      ExecThen(applies, Chains(n.apply, b + 1), h, h1, h2);
      BuiltKeys(n.apply, b + 1, true, false);
      LinkFailed(n, b, h, part, x, y);
      BuiltKeys(n.failed, f, false, false);
      ContainsCell(h, Built(n.failed, f, false, false), b, y, part);
      ChainsRun(n.failed, f, h3);
      ExecThen(faileds, Chains(n.failed, f), h2, h3, h4);
      ExecThen(applies + Chains(n.apply, b + 1), faileds + Chains(n.failed, f), h, h2, h4);
      BuiltAssemble(h, n, b, true, false);
      ChainsOf(n, b);
    } else {
      NoCells(h, b, true, false);
    }
  }

  lemma {:induction false} ConfigureCell(n: Tree, b: nat, h: Heap)
    requires Contains(h, Built(Some(n), b, true, false))
    ensures Exec([Configure(b, n.conf)], h) == Some(h[b := CellFor(n, b, true, true, true)])
  {
    ContainsParts(h, n, b, true, false);
    ExecOne(Configure(b, n.conf), h);
  }

  lemma {:induction false} ConfsRun(t: Option<Tree>, b: nat, h: Heap)
    requires Contains(h, Built(t, b, true, false))
    ensures Exec(Confs(t, b), h) == Some(h + Built(t, b, true, true))
  {
    hide Exec, Built, Confs, Contains, CellFor;
    if t.Some? {
      var n := t.value;
      var f := b + 1 + SizeOf(n.apply);
      var s, a, e := [Configure(b, n.conf)], Confs(n.apply, b + 1), Confs(n.failed, f);
      var y := CellFor(n, b, true, true, true);
      var h1 := h[b := y];
      var part := Built(n.apply, b + 1, true, true);
      var h2 := h1 + part;
      ContainsParts(h, n, b, true, false);
      ConfigureCell(n, b, h);
      BuiltKeys(n.apply, b + 1, true, false);
      ContainsCell(h, Built(n.apply, b + 1, true, false), b, y, map[]);
      ConfsRun(n.apply, b + 1, h1);
      ExecThen(s, a, h, h1, h2);
      BuiltKeys(n.apply, b + 1, true, true);
      BuiltKeys(n.failed, f, true, false);
      ContainsCell(h, Built(n.failed, f, true, false), b, y, part);
      ConfsRun(n.failed, f, h2);
      ExecThen(s + a, e, h, h2, h2 + Built(n.failed, f, true, true));
      BuiltAssemble(h, n, b, true, true);
      InitsOf(n, b);
    } else {
      NoCells(h, b, true, true);
    }
  }

  lemma {:induction false} Overlay(h: Heap, x: Heap, y: Heap)
    requires x.Keys == y.Keys
    ensures h + x + y == h + y
  {
  }

  /** One root's statements run without error on any heap that leaves its indices free, and add
      exactly the cells of its tree. */
  lemma {:induction false} RootRun(t: Option<Tree>, b: nat, h: Heap)
    requires Fresh(h, b, SizeOf(t))
    ensures Exec(RootProgram(t, b), h) == Some(h + Built(t, b, true, true))
  {
    hide Exec, Built, Inits, Chains, Confs;
    BuiltKeys(t, b, false, false);
    BuiltKeys(t, b, true, false);
    BuiltKeys(t, b, true, true);
    var d, l, c := Built(t, b, false, false), Built(t, b, true, false), Built(t, b, true, true);
    InitsRun(t, b, h);
    ChainsRun(t, b, h + d);
    Overlay(h, d, l);
    ConfsRun(t, b, h + l);
    Overlay(h, l, c);
    ExecThen(Inits(t, b), Chains(t, b), h, h + d, h + l);
    ExecThen(Inits(t, b) + Chains(t, b), Confs(t, b), h, h + l, h + c);
  }

  lemma {:induction false} BuiltUnfolds(t: Tree, b: nat, h: Heap)
    requires Contains(h, Built(Some(t), b, true, true))
    ensures Unfolds(h, b, t)
    decreases t
  {
    hide Built, Contains;
    ContainsParts(h, t, b, true, true);
    if t.apply.Some? { BuiltUnfolds(t.apply.value, b + 1, h); }
    if t.failed.Some? { BuiltUnfolds(t.failed.value, b + 1 + SizeOf(t.apply), h); }
  }

  lemma {:induction false} UnfoldsKept(h: Heap, h': Heap, i: nat, t: Tree)
    requires Unfolds(h, i, t) && Contains(h', h)
    ensures Unfolds(h', i, t)
    decreases t
  {
    if t.apply.Some? { UnfoldsKept(h, h', h[i].apply.value, t.apply.value); }
    if t.failed.Some? { UnfoldsKept(h, h', h[i].failed.value, t.failed.value); }
  }

  /** The whole generated program runs without error and, for every root, builds a graph that unfolds
      to exactly that root's tree. Root `k` owns the indices from `Base(roots[..k])` on, one per node;
      nothing else is allocated, so `p0` exists iff some root does. */
  lemma {:induction false} ProgramBuilds(roots: seq<Option<Tree>>)
    ensures Exec(Program(roots), map[]).Some?
    ensures var h := Exec(Program(roots), map[]).value;
      && (forall i: nat :: i in h <==> i < Base(roots))
      && (forall k :: 0 <= k < |roots| && roots[k].Some? ==> Unfolds(h, Base(roots[..k]), roots[k].value))
    decreases |roots|
  {
    if roots != [] {
      var n := |roots| - 1;
      var front, b := roots[..n], Base(roots[..n]);
      ProgramBuilds(front);
      var h := Exec(Program(front), map[]).value;
      ExecSplit(Program(front), RootProgram(roots[n], b), map[]);
      RootRun(roots[n], b, h);
      BuiltKeys(roots[n], b, true, true);
      var h' := h + Built(roots[n], b, true, true);
      forall k | 0 <= k < |roots| && roots[k].Some?
        ensures Unfolds(h', Base(roots[..k]), roots[k].value)
      {
        if k < n {
          assert front[..k] == roots[..k];
          UnfoldsKept(h, h', Base(roots[..k]), roots[k].value);
        } else {
          BuiltUnfolds(roots[n].value, b, h');
        }
      }
    }
  }

  lemma {:induction false} LeafCode(n: Tree, b: nat)
    requires n.apply == None && n.failed == None
    ensures Inits(Some(n), b) == [Clone(b, n.kind)] && Confs(Some(n), b) == [Configure(b, n.conf)]
    ensures Chains(Some(n), b) == [] && SizeOf(Some(n)) == 1
  {
  }

  lemma {:induction false} RootParts(n: Tree, b: nat)
    ensures RootProgram(Some(n), b) == Inits(Some(n), b) + Chains(Some(n), b) + Confs(Some(n), b)
    ensures SizeOf(Some(n)) == 1 + SizeOf(n.apply) + SizeOf(n.failed)
  {
  }

  lemma {:induction false} ProgramLast(roots: seq<Option<Tree>>, t: Option<Tree>)
    ensures Program([]) == [] && Base([]) == 0
    ensures t == None ==> Program(roots + [t]) == Program(roots) && Base(roots + [t]) == Base(roots)
    ensures t.Some? ==> Program(roots + [t]) == Program(roots) + RootProgram(t, Base(roots))
    ensures t.Some? ==> Base(roots + [t]) == Base(roots) + SizeOf(t)
  {
    assert (roots + [t])[..|roots|] == roots;
  }

  /** A node with both children, then a root without: the declarations, links and configurations. */
  lemma {:induction false} ProgramExample(a: Tree, b: Tree, c: Tree)
    requires a == Node("React", "A", Some(b), Some(c))
    requires b == Node("Timer", "B", None, None) && c == Node("Print", "C", None, None)
    ensures Program([None, Some(a), Some(b)]) == [
      Clone(0, "React"), Clone(1, "Timer"), Clone(2, "Print"),
      SetApply(0, 1), SetFailed(0, 2),
      Configure(0, "A"), Configure(1, "B"), Configure(2, "C"),
      Clone(3, "Timer"), Configure(3, "B")]
  {
    hide Inits, Chains, Confs, Program, Base, SizeOf, RootProgram;
    var none: Option<Tree> := None;
    var roots := [none, Some(a), Some(b)];
    LeafCode(b, 1);
    LeafCode(c, 2);
    LeafCode(b, 3);
    InitsOf(a, 0);
    ChainsOf(a, 0);
    RootParts(a, 0);
    RootParts(b, 3);
    ProgramLast([none, Some(a)], Some(b));
    ProgramLast([none], Some(a));
    ProgramLast([], none);
    assert [none, Some(a)] + [Some(b)] == roots && [none] + [Some(a)] == [none, Some(a)] && [] + [none] == [none];
  }
}
