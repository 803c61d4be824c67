/** Reachable integer values (RIV): for every basic block, the integer-typed
    values defined in the blocks that dominate it. The function is given as
    blocks, the dominator tree as a recursive `DomNode`, and the result is a
    map from block to a set of values. */
module Riv {
  import opened IR

  /** A node of the dominator tree: a block and the nodes it immediately
      dominates, in `DomTreeNode` child order. */
  datatype DomNode = DomNode(block: BlockId, children: seq<DomNode>)

  type RivMap = map<BlockId, set<Value>>

  type Edge = (BlockId, BlockId)

  /** `MapVector::lookup`: a missing key reads as the empty set. */
  function Lookup(m: RivMap, b: BlockId): set<Value> {
    if b in m then m[b] else {}
  }

  function EntryId(f: Function): BlockId
    requires |f.blocks| > 0
  {
    f.blocks[0].id
  }

  // ---------------------------------------------------------------------
  // Step 1: the integer values defined locally in each block

  /** The integer-typed instructions of `insts`, as values. */
  function IntDefs(insts: seq<Inst>): set<Value>
  {
    if insts == [] then {}
    else
      var i := insts[|insts| - 1];
      IntDefs(insts[..|insts| - 1]) + (if i.ty.IntTy? then {InstV(i.id)} else {})
  }

  lemma {:induction false} IntDefsExactly(insts: seq<Inst>)
    ensures forall v :: v in IntDefs(insts) <==> exists i :: i in insts && i.ty.IntTy? && v == InstV(i.id)
  {
    if insts != [] {
      var init := insts[..|insts| - 1];
      IntDefsExactly(init);
      assert insts == init + [insts[|insts| - 1]];
    }
  }

  /** The integer values defined in the blocks of `blocks` whose id is `p`;
      `defined_values_map[p]` accumulates exactly these. */
  function DefsIn(blocks: seq<Block>, p: BlockId): set<Value>
  {
    if blocks == [] then {}
    else
      var b := blocks[|blocks| - 1];
      DefsIn(blocks[..|blocks| - 1], p) + (if b.id == p then IntDefs(Insts(b)) else {})
  }

  /** In a function whose blocks have distinct ids, a block's local set is
      exactly its own integer-typed instructions. */
  lemma {:induction false} DefsInOfBlock(blocks: seq<Block>, k: nat)
    requires k < |blocks|
    requires forall i, j :: 0 <= i < j < |blocks| ==> blocks[i].id != blocks[j].id
    ensures DefsIn(blocks, blocks[k].id) == IntDefs(Insts(blocks[k]))
  {
    var n := |blocks| - 1;
    if k == n {
      DefsInAbsent(blocks[..n], blocks[k].id);
    } else {
      DefsInOfBlock(blocks[..n], k);
    }
  }

  lemma {:induction false} DefsInAbsent(blocks: seq<Block>, p: BlockId)
    requires forall j :: 0 <= j < |blocks| ==> blocks[j].id != p
    ensures DefsIn(blocks, p) == {}
  {
    if blocks != [] {
      DefsInAbsent(blocks[..|blocks| - 1], p);
    }
  }

  /** Lines 48-54 of riv.cc: one entry per block, holding the block's
      integer-typed instructions. */
  method LocalDefinitions(f: Function) returns (defs: RivMap)
    ensures defs.Keys == set b | b in f.blocks :: b.id
    ensures forall p :: Lookup(defs, p) == DefsIn(f.blocks, p)
  {
    defs := map[];
    for k := 0 to |f.blocks|
      invariant defs.Keys == set b | b in f.blocks[..k] :: b.id
      invariant forall p :: Lookup(defs, p) == DefsIn(f.blocks[..k], p)
    {
      var bb := f.blocks[k];
      var values := Lookup(defs, bb.id);
      var all := Insts(bb);
      for j := 0 to |all|
        invariant values == Lookup(defs, bb.id) + IntDefs(all[..j])
      {
        assert all[..j + 1][..j] == all[..j];
        if all[j].ty.IntTy? {
          values := values + {InstV(all[j].id)};
        }
      }
      assert all[..|all|] == all;
      var done := f.blocks[..k + 1];
      assert done == f.blocks[..k] + [bb];
      forall p
        ensures Lookup(defs[bb.id := values], p) == DefsIn(done, p)
      {
        assert done[..k] == f.blocks[..k];
      }
      defs := defs[bb.id := values];
    }
    assert f.blocks[..|f.blocks|] == f.blocks;
  }

  // ---------------------------------------------------------------------
  // Step 2: the values available on entry to the function

  function IntGlobals(gs: seq<Global>): set<Value>
  {
    if gs == [] then {}
    else
      var g := gs[|gs| - 1];
      IntGlobals(gs[..|gs| - 1]) + (if g.ty.IntTy? then {GlobalV(g.id)} else {})
  }

  function IntArgs(args: seq<Arg>): set<Value>
  {
    if args == [] then {}
    else
      var a := args[|args| - 1];
      IntArgs(args[..|args| - 1]) + (if a.ty.IntTy? then {ArgV(a.id)} else {})
  }

  function Seeds(gs: seq<Global>, args: seq<Arg>): set<Value>
  {
    IntGlobals(gs) + IntArgs(args)
  }

  lemma {:induction false} IntGlobalsExactly(gs: seq<Global>)
    ensures forall v :: v in IntGlobals(gs) <==> exists g :: g in gs && g.ty.IntTy? && v == GlobalV(g.id)
  {
    if gs != [] {
      IntGlobalsExactly(gs[..|gs| - 1]);
      assert gs == gs[..|gs| - 1] + [gs[|gs| - 1]];
    }
  }

  lemma {:induction false} IntArgsExactly(args: seq<Arg>)
    ensures forall v :: v in IntArgs(args) <==> exists a :: a in args && a.ty.IntTy? && v == ArgV(a.id)
  {
    if args != [] {
      IntArgsExactly(args[..|args| - 1]);
      assert args == args[..|args| - 1] + [args[|args| - 1]];
    }
  }

  /** Lines 58-67 of riv.cc: the entry set holds exactly the integer-typed
      globals of the module and the integer-typed arguments. */
  method EntrySeeds(gs: seq<Global>, args: seq<Arg>) returns (s: set<Value>)
    ensures s == Seeds(gs, args)
    ensures forall v :: v in s <==>
      (exists g :: g in gs && g.ty.IntTy? && v == GlobalV(g.id)) ||
      (exists a :: a in args && a.ty.IntTy? && v == ArgV(a.id))
  {
    s := {};
    for k := 0 to |gs|
      invariant s == IntGlobals(gs[..k])
    {
      assert gs[..k + 1][..k] == gs[..k];
      if gs[k].ty.IntTy? {
        s := s + {GlobalV(gs[k].id)};
      }
    }
    assert gs[..|gs|] == gs;
    for k := 0 to |args|
      invariant s == IntGlobals(gs) + IntArgs(args[..k])
    {
      assert args[..k + 1][..k] == args[..k];
      if args[k].ty.IntTy? {
        s := s + {ArgV(args[k].id)};
      }
    }
    assert args[..|args|] == args;
    IntGlobalsExactly(gs);
    IntArgsExactly(args);
  }

  // ---------------------------------------------------------------------
  // The dominator tree

  function Size(t: DomNode): nat
    decreases t
  {
    1 + ForestSize(t.children)
  }

  function ForestSize(s: seq<DomNode>): nat
    decreases s
  {
    if s == [] then 0 else ForestSize(s[..|s| - 1]) + Size(s[|s| - 1])
  }

  /** The parent-to-child pairs of the tree, by block. */
  ghost function Edges(t: DomNode): set<Edge>
    decreases t
  {
    Direct(t) + ForestEdges(t.children)
  }

  ghost function Direct(t: DomNode): set<Edge>
  {
    set c | c in t.children :: (t.block, c.block)
  }

  ghost function ForestEdges(s: seq<DomNode>): set<Edge>
    decreases s
  {
    if s == [] then {} else ForestEdges(s[..|s| - 1]) + Edges(s[|s| - 1])
  }

  /** Every block of the tree, with multiplicity. */
  ghost function TreeBlocks(t: DomNode): multiset<BlockId>
    decreases t
  {
    multiset{t.block} + ForestBlocks(t.children)
  }

  ghost function ForestBlocks(s: seq<DomNode>): multiset<BlockId>
    decreases s
  {
    if s == [] then multiset{} else ForestBlocks(s[..|s| - 1]) + TreeBlocks(s[|s| - 1])
  }

  /** Every node of the tree, with multiplicity. */
  ghost function TreeNodes(t: DomNode): multiset<DomNode>
    decreases t
  {
    multiset{t} + ForestNodes(t.children)
  }

  ghost function ForestNodes(s: seq<DomNode>): multiset<DomNode>
    decreases s
  {
    if s == [] then multiset{} else ForestNodes(s[..|s| - 1]) + TreeNodes(s[|s| - 1])
  }

  /** The blocks at the roots of the trees of a forest. */
  ghost function Bag(s: seq<DomNode>): multiset<BlockId>
  {
    if s == [] then multiset{} else Bag(s[..|s| - 1]) + multiset{s[|s| - 1].block}
  }

  /** The set of blocks at the roots of the trees of a forest. */
  ghost function TopSet(s: seq<DomNode>): set<BlockId>
  {
    if s == [] then {} else TopSet(s[..|s| - 1]) + {s[|s| - 1].block}
  }

  ghost function Targets(es: set<Edge>): set<BlockId>
  {
    set e | e in es :: e.1
  }

  /** A dominator tree names every block at most once. */
  ghost predicate DistinctTree(t: DomNode)
  {
    forall b | b in TreeBlocks(t) :: TreeBlocks(t)[b] == 1
  }

  lemma {:induction false} ForestSizeAppend(a: seq<DomNode>, b: seq<DomNode>)
    ensures ForestSize(a + b) == ForestSize(a) + ForestSize(b)
    decreases |b|
  {
    if b == [] {
      assert a + b == a;
    } else {
      var n := |b| - 1;
      var ab := a + b;
      assert ab[..|ab| - 1] == a + b[..n];
      assert ab[|ab| - 1] == b[n];
      ForestSizeAppend(a, b[..n]);
      ForestSizeUnfold(ab); ForestSizeUnfold(b);
    }
  }

  lemma {:induction false} ForestEdgesAppend(a: seq<DomNode>, b: seq<DomNode>)
    ensures ForestEdges(a + b) == ForestEdges(a) + ForestEdges(b)
    decreases |b|
  {
    if b == [] {
      assert a + b == a;
    } else {
      var n := |b| - 1;
      var ab := a + b;
      assert ab[..|ab| - 1] == a + b[..n];
      assert ab[|ab| - 1] == b[n];
      ForestEdgesAppend(a, b[..n]);
      ForestEdgesUnfold(ab); ForestEdgesUnfold(b);
    }
  }

  lemma {:induction false} ForestBlocksAppend(a: seq<DomNode>, b: seq<DomNode>)
    ensures ForestBlocks(a + b) == ForestBlocks(a) + ForestBlocks(b)
    decreases |b|
  {
    if b == [] {
      assert a + b == a;
    } else {
      var n := |b| - 1;
      var ab := a + b;
      assert ab[..|ab| - 1] == a + b[..n];
      assert ab[|ab| - 1] == b[n];
      ForestBlocksAppend(a, b[..n]);
      ForestBlocksUnfold(ab); ForestBlocksUnfold(b);
    }
  }

  lemma {:induction false} ForestNodesAppend(a: seq<DomNode>, b: seq<DomNode>)
    ensures ForestNodes(a + b) == ForestNodes(a) + ForestNodes(b)
    decreases |b|
  {
    if b == [] {
      assert a + b == a;
    } else {
      var n := |b| - 1;
      var ab := a + b;
      assert ab[..|ab| - 1] == a + b[..n];
      assert ab[|ab| - 1] == b[n];
      ForestNodesAppend(a, b[..n]);
      ForestNodesUnfold(ab); ForestNodesUnfold(b);
    }
  }

  // Appending one tree to a forest, for the functions that recur on the
  // last tree

  lemma SnocSize(s: seq<DomNode>, t: DomNode)
    ensures ForestSize(s + [t]) == ForestSize(s) + Size(t)
  {
    assert (s + [t])[..|s|] == s;
  }

  lemma SnocEdges(s: seq<DomNode>, t: DomNode)
    ensures ForestEdges(s + [t]) == ForestEdges(s) + Edges(t)
  {
    assert (s + [t])[..|s|] == s;
  }

  lemma SnocBlocks(s: seq<DomNode>, t: DomNode)
    ensures ForestBlocks(s + [t]) == ForestBlocks(s) + TreeBlocks(t)
  {
    assert (s + [t])[..|s|] == s;
  }

  lemma SnocNodes(s: seq<DomNode>, t: DomNode)
    ensures ForestNodes(s + [t]) == ForestNodes(s) + TreeNodes(t)
  {
    assert (s + [t])[..|s|] == s;
  }

  lemma SnocBag(s: seq<DomNode>, t: DomNode)
    ensures Bag(s + [t]) == Bag(s) + multiset{t.block}
  {
    assert (s + [t])[..|s|] == s;
  }

  lemma SnocTopSet(s: seq<DomNode>, t: DomNode)
    ensures TopSet(s + [t]) == TopSet(s) + {t.block}
  {
    assert (s + [t])[..|s|] == s;
  }

  lemma ForestSizeUnfold(s: seq<DomNode>)
    requires s != []
    ensures ForestSize(s) == ForestSize(s[..|s| - 1]) + Size(s[|s| - 1])
  {
  }

  lemma ForestEdgesUnfold(s: seq<DomNode>)
    requires s != []
    ensures ForestEdges(s) == ForestEdges(s[..|s| - 1]) + Edges(s[|s| - 1])
  {
  }

  lemma ForestBlocksUnfold(s: seq<DomNode>)
    requires s != []
    ensures ForestBlocks(s) == ForestBlocks(s[..|s| - 1]) + TreeBlocks(s[|s| - 1])
  {
  }

  lemma ForestNodesUnfold(s: seq<DomNode>)
    requires s != []
    ensures ForestNodes(s) == ForestNodes(s[..|s| - 1]) + TreeNodes(s[|s| - 1])
  {
  }

  lemma {:induction false} BagInForest(s: seq<DomNode>)
    ensures Bag(s) <= ForestBlocks(s)
  {
    if s != [] {
      BagInForest(s[..|s| - 1]);
    }
  }

  /** The edges from `t` to its first `i` children. */
  ghost function DirectUpTo(t: DomNode, i: nat): set<Edge>
    requires i <= |t.children|
  {
    set j | 0 <= j < i :: (t.block, t.children[j].block)
  }

  lemma DirectUpToStep(t: DomNode, i: nat)
    requires i < |t.children|
    ensures DirectUpTo(t, i + 1) == DirectUpTo(t, i) + {(t.block, t.children[i].block)}
  {
  }

  lemma DirectUpToAll(t: DomNode)
    ensures DirectUpTo(t, 0) == {}
    ensures DirectUpTo(t, |t.children|) == Direct(t)
  {
  }

  lemma TakeSnoc<T>(s: seq<T>, i: nat)
    requires i < |s|
    ensures s[..i + 1] == s[..i] + [s[i]]
  {
  }

  /** Pushing the next child onto a stack that holds the earlier ones. */
  lemma PushStep<T>(base: seq<T>, s: seq<T>, i: nat)
    requires i < |s|
    ensures base + s[..i + 1] == (base + s[..i]) + [s[i]]
  {
    assert s[..i + 1] == s[..i] + [s[i]];
  }

  lemma TakeAll<T>(s: seq<T>)
    ensures s[..|s|] == s && s[0..] == s
  {
  }

  // ---------------------------------------------------------------------
  // Step 3 as written: every child receives its parent's local set, twice

  /** The values block `b` receives from the edges `es` into it. */
  ghost function FromEdges(f: Function, es: set<Edge>, b: BlockId): set<Value>
  {
    set e, v | e in es && e.1 == b && v in DefsIn(f.blocks, e.0) :: v
  }

  ghost function SeedPart(gs: seq<Global>, f: Function, b: BlockId): set<Value>
    requires |f.blocks| > 0
  {
    if b == EntryId(f) then Seeds(gs, f.args) else {}
  }

  /** What riv.cc computes once the edges `es` have been processed: the entry
      seeds, and for each processed edge the parent's local values. */
  ghost predicate IsAsWritten(r: RivMap, gs: seq<Global>, f: Function, es: set<Edge>)
    requires |f.blocks| > 0
  {
    && r.Keys == {EntryId(f)} + Targets(es)
    && forall b | b in r :: r[b] == AsWrittenSet(gs, f, es, b)
  }

  /** The set riv.cc gives block `b` once the edges `es` are processed. */
  ghost function AsWrittenSet(gs: seq<Global>, f: Function, es: set<Edge>, b: BlockId): set<Value>
    requires |f.blocks| > 0
  {
    SeedPart(gs, f, b) + FromEdges(f, es, b)
  }

  lemma TargetsAdd(es: set<Edge>, p: BlockId, c: BlockId)
    ensures Targets(es + {(p, c)}) == Targets(es) + {c}
  {
  }

  lemma FromEdgesAdd(f: Function, es: set<Edge>, p: BlockId, c: BlockId, b: BlockId)
    ensures FromEdges(f, es + {(p, c)}, b)
         == FromEdges(f, es, b) + (if b == c then DefsIn(f.blocks, p) else {})
  {
  }

  lemma FromEdgesNone(f: Function, es: set<Edge>, c: BlockId)
    requires c !in Targets(es)
    ensures FromEdges(f, es, c) == {}
  {
    forall e | e in es
      ensures e.1 != c
    {
      assert e.1 in Targets(es);
    }
  }

  /** The set of one block after the edge `(p, c)` is processed. */
  lemma AsWrittenAt(r: RivMap, gs: seq<Global>, f: Function, es: set<Edge>, p: BlockId, c: BlockId,
                    b: BlockId)
    requires |f.blocks| > 0
    requires IsAsWritten(r, gs, f, es)
    requires b in r || b == c
    ensures r[c := Lookup(r, c) + DefsIn(f.blocks, p)][b] == AsWrittenSet(gs, f, es + {(p, c)}, b)
  {
    FromEdgesAdd(f, es, p, c, b);
    if b == c && c !in r {
      FromEdgesNone(f, es, c);
    }
  }

  lemma AsWrittenStep(r: RivMap, gs: seq<Global>, f: Function, es: set<Edge>, p: BlockId, c: BlockId)
    requires |f.blocks| > 0
    requires IsAsWritten(r, gs, f, es)
    ensures IsAsWritten(r[c := Lookup(r, c) + DefsIn(f.blocks, p)], gs, f, es + {(p, c)})
  {
    var es' := es + {(p, c)};
    var r' := r[c := Lookup(r, c) + DefsIn(f.blocks, p)];
    KeysStep(r, EntryId(f), es, p, c, Lookup(r, c) + DefsIn(f.blocks, p));
    forall b | b in r'
      ensures r'[b] == AsWrittenSet(gs, f, es', b)
    {
      AsWrittenAt(r, gs, f, es, p, c, b);
    }
  }

  /** Giving the target of a new edge a set keeps the keys equal to the
      entry and the targets of the processed edges. */
  lemma KeysStep(r: RivMap, entry: BlockId, es: set<Edge>, p: BlockId, c: BlockId, v: set<Value>)
    requires r.Keys == {entry} + Targets(es)
    ensures r[c := v].Keys == {entry} + Targets(es + {(p, c)})
  {
    TargetsAdd(es, p, c);
  }

  // Popping `parent` off the worklist and pushing its children

  lemma PopEdges(done: set<Edge>, stack: seq<DomNode>, all: set<Edge>)
    requires stack != [] && done + ForestEdges(stack) == all
    ensures var parent := stack[|stack| - 1];
      (done + Direct(parent)) + ForestEdges(stack[..|stack| - 1] + parent.children) == all
  {
    ForestEdgesUnfold(stack);
    ForestEdgesAppend(stack[..|stack| - 1], stack[|stack| - 1].children);
  }

  lemma PopNodes(order: seq<DomNode>, stack: seq<DomNode>, nodes: multiset<DomNode>)
    requires stack != [] && multiset(order) + ForestNodes(stack) == nodes
    ensures var parent := stack[|stack| - 1];
      multiset(order + [parent]) + ForestNodes(stack[..|stack| - 1] + parent.children) == nodes
  {
    ForestNodesUnfold(stack);
    ForestNodesAppend(stack[..|stack| - 1], stack[|stack| - 1].children);
  }

  lemma PopSize(stack: seq<DomNode>)
    requires stack != []
    ensures ForestSize(stack[..|stack| - 1] + stack[|stack| - 1].children) < ForestSize(stack)
  {
    ForestSizeUnfold(stack);
    ForestSizeAppend(stack[..|stack| - 1], stack[|stack| - 1].children);
  }

  /** One iteration of the inner loop of riv.cc:83-94 as written: the child
      receives `parent`'s local values, inserted twice. */
  method VisitChild(gs: seq<Global>, f: Function, parent: BlockId, child: BlockId, parentDefs: set<Value>,
                    r0: RivMap, ghost done: set<Edge>)
    returns (r: RivMap)
    requires |f.blocks| > 0
    requires parentDefs == DefsIn(f.blocks, parent)
    requires IsAsWritten(r0, gs, f, done)
    ensures IsAsWritten(r, gs, f, done + {(parent, child)})
  {
    AsWrittenStep(r0, gs, f, done, parent, child);
    // Add values defined in `parent` to the child's set
    r := r0[child := Lookup(r0, child) + parentDefs];
    // The second insert of riv.cc:92-93 repeats `parent_defs`
    r := r[child := r[child] + parentDefs];
  }

  /** The inner loop of riv.cc:83-94: every child of `parent` is pushed on
      the worklist and receives `parent`'s local values, inserted twice. */
  method VisitChildren(gs: seq<Global>, f: Function, parent: DomNode, parentDefs: set<Value>,
                       r0: RivMap, stack0: seq<DomNode>, ghost done0: set<Edge>)
    returns (r: RivMap, stack: seq<DomNode>)
    requires |f.blocks| > 0
    requires parentDefs == DefsIn(f.blocks, parent.block)
    requires IsAsWritten(r0, gs, f, done0)
    ensures stack == stack0 + parent.children
    ensures IsAsWritten(r, gs, f, done0 + Direct(parent))
  {
    r, stack := r0, stack0;
    ghost var done := done0;
    DirectUpToAll(parent);
    for i := 0 to |parent.children|
      invariant stack == stack0 + parent.children[..i]
      invariant done == done0 + DirectUpTo(parent, i)
      invariant IsAsWritten(r, gs, f, done)
    {
      var child := parent.children[i];
      PushStep(stack0, parent.children, i);
      DirectUpToStep(parent, i);
      stack := stack + [child];
      r := VisitChild(gs, f, parent.block, child.block, parentDefs, r, done);
      done := done + {(parent.block, child.block)};
    }
    TakeAll(parent.children);
  }

  /** Every child of a popped node is popped after it or is still waiting. */
  ghost predicate ParentsFirst(order: seq<DomNode>, stack: seq<DomNode>)
  {
    forall i, c | 0 <= i < |order| && c in order[i].children :: c in order[i + 1..] || c in stack
  }

  lemma ParentsFirstDone(order: seq<DomNode>)
    requires ParentsFirst(order, [])
    ensures forall i, c | 0 <= i < |order| && c in order[i].children :: c in order[i + 1..]
  {
    forall i, c | 0 <= i < |order| && c in order[i].children
      ensures c in order[i + 1..]
    {
      assert c in order[i + 1..] || c in [];
    }
  }

  lemma OrderStep(order: seq<DomNode>, stack: seq<DomNode>)
    requires stack != [] && ParentsFirst(order, stack)
    ensures var parent := stack[|stack| - 1];
      ParentsFirst(order + [parent], stack[..|stack| - 1] + parent.children)
  {
    var parent, rest := stack[|stack| - 1], stack[..|stack| - 1];
    var order' := order + [parent];
    forall k, c | 0 <= k < |order'| && c in order'[k].children
      ensures c in order'[k + 1..] || c in rest + parent.children
    {
      if k < |order| {
        assert c in order[k + 1..] || c in stack;
        if c in stack && c !in rest {
          assert stack == rest + [parent];
          assert c == parent;
          assert order'[|order|] == parent;
        }
        assert order[k + 1..] <= order'[k + 1..];
      }
    }
  }

  /** BuildRiv (riv.cc:38-98): the result holds the entry seeds and, for every
      dominator-tree edge, the parent's locally defined integer values. The
      ghost `order` lists the nodes in the order they are popped: each tree
      node exactly once, and every node before its children. */
  method BuildRiv(gs: seq<Global>, f: Function, root: DomNode) returns (r: RivMap, ghost order: seq<DomNode>)
    requires |f.blocks| > 0 && root.block == EntryId(f)
    ensures IsAsWritten(r, gs, f, Edges(root))
    ensures multiset(order) == TreeNodes(root)
    ensures forall i, c | 0 <= i < |order| && c in order[i].children :: c in order[i + 1..]
  {
    var stack := [root];
    var defs := LocalDefinitions(f);
    var entryValues := EntrySeeds(gs, f.args);
    r := map[EntryId(f) := entryValues];
    order := [];
    ghost var done: set<Edge> := {};
    assert Targets(done) == {};
    ForestEdgesUnfold([root]);
    ForestNodesUnfold([root]);
    assert [root][..0] == [];
    while stack != []
      invariant IsAsWritten(r, gs, f, done)
      invariant done + ForestEdges(stack) == Edges(root)
      invariant multiset(order) + ForestNodes(stack) == TreeNodes(root)
      invariant ParentsFirst(order, stack)
      decreases ForestSize(stack)
    {
      var parent := stack[|stack| - 1];
      var rest := stack[..|stack| - 1];
      PopEdges(done, stack, Edges(root));
      PopNodes(order, stack, TreeNodes(root));
      PopSize(stack);
      OrderStep(order, stack);
      order := order + [parent];
      var parentDefs := Lookup(defs, parent.block);
      // `parent_rivs` (riv.cc:79) is copied here and never read
      var parentRivs := Lookup(r, parent.block);
      r, stack := VisitChildren(gs, f, parent, parentDefs, r, rest, done);
      done := done + Direct(parent);
    }
    assert done == Edges(root);
    ParentsFirstDone(order);
  }

  // ---------------------------------------------------------------------
  // Step 3 as the comment at riv.cc:91 describes it: every child also
  // receives its parent's own reachable set, so reachability is transitive

  /** The state the intended loop keeps once the edges `es` are processed:
      the entry holds the seeds, and each processed child holds its parent's
      local values and its parent's reachable set. */
  ghost predicate IsIntended(r: RivMap, gs: seq<Global>, f: Function, es: set<Edge>)
    requires |f.blocks| > 0
  {
    && r.Keys == {EntryId(f)} + Targets(es)
    && r[EntryId(f)] == Seeds(gs, f.args)
    && forall e | e in es :: e.0 in r && r[e.1] == DefsIn(f.blocks, e.0) + r[e.0]
  }

  /** What the source's callers pass: the root of the dominator tree of `f`,
      which is the entry block, and a tree naming every block at most once. */
  ghost predicate IsDomTreeOf(f: Function, root: DomNode)
  {
    |f.blocks| > 0 && root.block == EntryId(f) && DistinctTree(root)
  }

  lemma IntendedStep(r: RivMap, r': RivMap, gs: seq<Global>, f: Function, es: set<Edge>,
                     p: BlockId, c: BlockId)
    requires |f.blocks| > 0
    requires IsIntended(r, gs, f, es)
    requires p in r && c !in r
    requires r'.Keys == r.Keys + {c}
    requires r'[c] == DefsIn(f.blocks, p) + r[p]
    requires forall b | b in r :: r'[b] == r[b]
    ensures IsIntended(r', gs, f, es + {(p, c)})
  {
    TargetsAdd(es, p, c);
    forall e | e in es
      ensures e.1 in r
    {
      assert e.1 in Targets(es);
    }
  }

  lemma {:induction false} TopSetInBag(s: seq<DomNode>, x: BlockId)
    ensures x in TopSet(s) ==> x in Bag(s)
  {
    if s != [] {
      TopSetInBag(s[..|s| - 1], x);
    }
  }

  lemma ConsBlocks(s: seq<DomNode>)
    requires s != []
    ensures ForestBlocks(s) == TreeBlocks(s[0]) + ForestBlocks(s[1..])
  {
    assert [s[0]] + s[1..] == s;
    ForestBlocksAppend([s[0]], s[1..]);
    ForestBlocksUnfold([s[0]]);
    assert [s[0]][..0] == [];
  }

  /** A child about to be visited has no set yet: its block occurs once in
      the tree, and it still lies in the part of the tree not yet visited. */
  lemma ChildStep(root: DomNode, order: seq<DomNode>, stack: seq<DomNode>, kids: seq<DomNode>, i: nat,
                  keys: set<BlockId>)
    requires DistinctTree(root)
    requires i < |kids|
    requires Bag(order) + ForestBlocks(stack) + ForestBlocks(kids[i..]) == TreeBlocks(root)
    requires keys == TopSet(order) + TopSet(stack)
    ensures kids[i].block !in keys
    ensures Bag(order) + ForestBlocks(stack + [kids[i]]) + ForestBlocks(kids[i + 1..]) == TreeBlocks(root)
    ensures TopSet(stack + [kids[i]]) == TopSet(stack) + {kids[i].block}
  {
    var x := kids[i].block;
    ConsBlocks(kids[i..]);
    assert kids[i..][1..] == kids[i + 1..];
    SnocBlocks(stack, kids[i]);
    SnocTopSet(stack, kids[i]);
    assert x in TreeBlocks(kids[i]);
    OnlyOnce(Bag(order), ForestBlocks(stack), ForestBlocks(kids[i..]), root, x);
    BagInForest(stack);
    TopSetInBag(order, x);
    TopSetInBag(stack, x);
  }

  /** A block of a tree that names every block once lies in only one part of
      a split of the tree's blocks. */
  lemma OnlyOnce(a: multiset<BlockId>, b: multiset<BlockId>, c: multiset<BlockId>, root: DomNode, x: BlockId)
    requires DistinctTree(root)
    requires a + b + c == TreeBlocks(root)
    requires x in c
    ensures x !in a && x !in b
  {
    assert x in TreeBlocks(root);
    assert TreeBlocks(root)[x] == a[x] + b[x] + c[x] == 1;
  }

  /** The state of the intended inner loop once the edges `es` are
      processed: the result so far, the nodes visited (`order`), the worklist
      (`stack`) and the children still to push (`rest`) cover the tree's
      blocks once, and the result has a set for exactly the visited and
      waiting blocks. */
  ghost predicate Visiting(gs: seq<Global>, f: Function, root: DomNode, r: RivMap, es: set<Edge>,
                           order: seq<DomNode>, stack: seq<DomNode>, rest: seq<DomNode>)
  {
    && IsDomTreeOf(f, root)
    && IsIntended(r, gs, f, es)
    && Bag(order) + ForestBlocks(stack) + ForestBlocks(rest) == TreeBlocks(root)
    && r.Keys == TopSet(order) + TopSet(stack)
  }

  /** One iteration of the intended inner loop: push the `i`-th child and
      give it the parent's local values and the parent's own set. */
  method VisitChildIntended(gs: seq<Global>, f: Function, root: DomNode, parent: DomNode, i: nat,
                            parentDefs: set<Value>, parentRivs: set<Value>,
                            r0: RivMap, stack0: seq<DomNode>, ghost done: set<Edge>,
                            ghost order: seq<DomNode>)
    returns (r: RivMap, stack: seq<DomNode>)
    requires i < |parent.children|
    requires Visiting(gs, f, root, r0, done, order, stack0, parent.children[i..])
    requires parentDefs == DefsIn(f.blocks, parent.block)
    requires parent.block in r0 && parentRivs == r0[parent.block]
    ensures stack == stack0 + [parent.children[i]]
    ensures Visiting(gs, f, root, r, done + {(parent.block, parent.children[i].block)},
                     order, stack, parent.children[i + 1..])
    ensures parent.block in r && r[parent.block] == parentRivs
  {
    var child := parent.children[i];
    ChildStep(root, order, stack0, parent.children, i, r0.Keys);
    stack := stack0 + [child];
    // Add values defined in `parent` to the child's set
    r := r0[child.block := Lookup(r0, child.block) + parentDefs];
    // Add `parent`'s set of RIVs to the child's set
    r := r[child.block := r[child.block] + parentRivs];
    IntendedStep(r0, r, gs, f, done, parent.block, child.block);
  }

  /** The inner loop of riv.cc:83-94 with the second insert adding
      `parent_rivs`, as the comment at line 91 says. */
  method VisitChildrenIntended(gs: seq<Global>, f: Function, root: DomNode, parent: DomNode,
                               parentDefs: set<Value>, parentRivs: set<Value>,
                               r0: RivMap, stack0: seq<DomNode>, ghost done0: set<Edge>,
                               ghost order: seq<DomNode>)
    returns (r: RivMap, stack: seq<DomNode>)
    requires Visiting(gs, f, root, r0, done0, order, stack0, parent.children)
    requires parentDefs == DefsIn(f.blocks, parent.block)
    requires parent.block in r0 && parentRivs == r0[parent.block]
    ensures stack == stack0 + parent.children
    ensures Visiting(gs, f, root, r, done0 + Direct(parent), order, stack, [])
  {
    r, stack := r0, stack0;
    ghost var done := done0;
    var kids := parent.children;
    TakeAll(kids);
    DirectUpToAll(parent);
    for i := 0 to |kids|
      invariant stack == stack0 + kids[..i]
      invariant done == done0 + DirectUpTo(parent, i)
      invariant Visiting(gs, f, root, r, done, order, stack, kids[i..])
      invariant parent.block in r && r[parent.block] == parentRivs
    {
      PushStep(stack0, kids, i);
      DirectUpToStep(parent, i);
      r, stack := VisitChildIntended(gs, f, root, parent, i, parentDefs, parentRivs, r, stack, done, order);
      done := done + {(parent.block, kids[i].block)};
    }
    assert kids[|kids|..] == [];
  }

  /** Popping `parent` and pushing its children keeps the partition of the
      tree's edges and blocks into the processed part and the worklist. */
  /** Popping `parent` keeps the partition of the tree's blocks into the
      visited nodes and the worklist. */
  lemma PopBlocks(order: seq<DomNode>, stack: seq<DomNode>, root: DomNode)
    requires stack != []
    requires Bag(order) + ForestBlocks(stack) == TreeBlocks(root)
    ensures var rest, parent := stack[..|stack| - 1], stack[|stack| - 1];
      && Bag(order + [parent]) + ForestBlocks(rest) + ForestBlocks(parent.children) == TreeBlocks(root)
      && Bag(order + [parent]) + ForestBlocks(rest + parent.children) == TreeBlocks(root)
  {
    var rest, parent := stack[..|stack| - 1], stack[|stack| - 1];
    ForestBlocksUnfold(stack);
    SnocBag(order, parent);
    ForestBlocksAppend(rest, parent.children);
  }

  /** Popping `parent` keeps the keys of the result equal to the visited
      blocks and the blocks on the worklist. */
  lemma PopKeys(order: seq<DomNode>, stack: seq<DomNode>, keys: set<BlockId>)
    requires stack != []
    requires keys == TopSet(order) + TopSet(stack)
    ensures var rest, parent := stack[..|stack| - 1], stack[|stack| - 1];
      && parent.block in keys
      && keys == TopSet(order + [parent]) + TopSet(rest)
  {
    SnocTopSet(order, stack[|stack| - 1]);
  }

  /** BuildRiv with the propagation the comment at riv.cc:91 describes: the
      entry holds the seeds, and every child's set is its parent's local
      values together with its parent's own set. */
  method BuildRivIntended(gs: seq<Global>, f: Function, root: DomNode) returns (r: RivMap)
    requires IsDomTreeOf(f, root)
    ensures IsIntended(r, gs, f, Edges(root))
  {
    var stack := [root];
    var defs := LocalDefinitions(f);
    var entryValues := EntrySeeds(gs, f.args);
    r := map[EntryId(f) := entryValues];
    ghost var order: seq<DomNode> := [];
    ghost var done: set<Edge> := {};
    assert Targets(done) == {};
    ForestEdgesUnfold([root]);
    SnocBlocks([], root);
    SnocTopSet([], root);
    assert [] + [root] == [root];
    while stack != []
      invariant IsIntended(r, gs, f, done)
      invariant done + ForestEdges(stack) == Edges(root)
      invariant Bag(order) + ForestBlocks(stack) == TreeBlocks(root)
      invariant r.Keys == TopSet(order) + TopSet(stack)
      decreases ForestSize(stack)
    {
      var parent := stack[|stack| - 1];
      var rest := stack[..|stack| - 1];
      PopEdges(done, stack, Edges(root));
      PopSize(stack);
      PopBlocks(order, stack, root);
      PopKeys(order, stack, r.Keys);
      order := order + [parent];
      var parentDefs := Lookup(defs, parent.block);
      var parentRivs := Lookup(r, parent.block);
      r, stack := VisitChildrenIntended(gs, f, root, parent, parentDefs, parentRivs, r, rest, done, order);
      done := done + Direct(parent);
      assert ForestBlocks([]) == multiset{};
    }
    assert done == Edges(root);
  }

  // ---------------------------------------------------------------------
  // How the two versions relate

  /** Whatever the code as written puts in a block's set, the intended
      version puts there too, and both give a set to the same blocks. */
  lemma AsWrittenSubsetOfIntended(w: RivMap, r: RivMap, gs: seq<Global>, f: Function, root: DomNode)
    requires |f.blocks| > 0
    requires IsAsWritten(w, gs, f, Edges(root))
    requires IsIntended(r, gs, f, Edges(root))
    ensures w.Keys == r.Keys
    ensures forall b | b in w :: w[b] <= r[b]
  {
    var es := Edges(root);
    forall b | b in w
      ensures w[b] <= r[b]
    {
      forall v | v in FromEdges(f, es, b)
        ensures v in r[b]
      {
        var e :| e in es && e.1 == b && v in DefsIn(f.blocks, e.0);
      }
    }
  }

  /** A walk down the dominator tree, given by its blocks. */
  ghost predicate IsPath(es: set<Edge>, path: seq<BlockId>)
  {
    |path| > 0 && forall k | 0 <= k < |path| - 1 :: (path[k], path[k + 1]) in es
  }

  /** In the intended version reachability is transitive: the last block of
      a walk down the tree can use the values of its first block and every
      value defined in a block before it on the walk. */
  lemma {:induction false} IntendedAlongPath(r: RivMap, gs: seq<Global>, f: Function, es: set<Edge>,
                                             path: seq<BlockId>)
    requires |f.blocks| > 0
    requires IsIntended(r, gs, f, es)
    requires IsPath(es, path) && path[0] in r
    ensures path[|path| - 1] in r
    ensures r[path[0]] <= r[path[|path| - 1]]
    ensures forall k | 0 <= k < |path| - 1 :: DefsIn(f.blocks, path[k]) <= r[path[|path| - 1]]
  {
    if |path| > 1 {
      var n := |path|;
      var init := path[..n - 1];
      assert IsPath(es, init) by {
        forall k | 0 <= k < |init| - 1
          ensures (init[k], init[k + 1]) in es
        {
          assert init[k] == path[k] && init[k + 1] == path[k + 1];
        }
      }
      IntendedAlongPath(r, gs, f, es, init);
      var p, c := path[n - 2], path[n - 1];
      assert init[|init| - 1] == p;
      assert (p, c) in es;
      assert c in r && r[c] == DefsIn(f.blocks, p) + r[p];
      forall k | 0 <= k < n - 1
        ensures DefsIn(f.blocks, path[k]) <= r[c]
      {
        if k < n - 2 {
          assert path[k] == init[k];
        }
      }
    }
  }

  /** Every block the intended version reaches from the entry can use the
      arguments and globals that are integers. */
  lemma IntendedSeedsEverywhere(r: RivMap, gs: seq<Global>, f: Function, root: DomNode, path: seq<BlockId>)
    requires |f.blocks| > 0
    requires IsIntended(r, gs, f, Edges(root))
    requires IsPath(Edges(root), path) && path[0] == EntryId(f)
    ensures path[|path| - 1] in r && Seeds(gs, f.args) <= r[path[|path| - 1]]
  {
    IntendedAlongPath(r, gs, f, Edges(root), path);
  }

  // A function where the two versions differ: the entry block %0 defines the
  // integer %1 and branches to %1, which defines nothing and branches to %2.
  // The dominator tree is the chain 0 -> 1 -> 2.

  function ChainFunction(): (f: Function)
    ensures |f.blocks| == 3
  {
    Function("chain", [], [
      Block(0, [Inst(1, Add, IntTy(32), [ConstV(1), ConstV(2)], [])],
            Inst(2, Br, VoidTy, [BlockV(1)], [])),
      Block(1, [], Inst(3, Br, VoidTy, [BlockV(2)], [])),
      Block(2, [], Inst(4, Ret, VoidTy, [], []))])
  }

  function ChainTree(): DomNode {
    DomNode(0, [DomNode(1, [DomNode(2, [])])])
  }

  lemma ChainFacts()
    ensures Edges(ChainTree()) == {(0, 1), (1, 2)}
    ensures DefsIn(ChainFunction().blocks, 0) == {InstV(1)}
    ensures DefsIn(ChainFunction().blocks, 1) == {}
    ensures IsDomTreeOf(ChainFunction(), ChainTree())
  {
    var t2 := DomNode(2, []);
    var t1 := DomNode(1, [t2]);
    var t0 := ChainTree();
    assert ForestEdges([]) == {};
    assert Edges(t2) == {};
    ForestEdgesUnfold([t2]);
    assert [t2][..0] == [];
    assert Edges(t1) == {(1, 2)};
    ForestEdgesUnfold([t1]);
    assert [t1][..0] == [];
    assert Edges(t0) == {(0, 1), (1, 2)};
    var bs := ChainFunction().blocks;
    DefsInOfBlock(bs, 0);
    DefsInOfBlock(bs, 1);
    assert IntDefs([bs[0].body[0]]) == {InstV(1)} by {
      assert [bs[0].body[0]][..0] == [];
    }
    assert Insts(bs[0])[..1] == [bs[0].body[0]];
    ForestBlocksUnfold([t2]);
    ForestBlocksUnfold([t1]);
    ForestBlocksUnfold([t0]);
    assert [t0][..0] == [];
    assert TreeBlocks(t0) == multiset{0, 1, 2};
  }

  lemma ChainFromEdges()
    ensures FromEdges(ChainFunction(), {(0, 1), (1, 2)}, 2) == {}
  {
    ChainFacts();
  }

  /** Block %2 is dominated by the entry, yet the code as written does not
      let it use %1, which the entry defines; the intended version does. */
  lemma ChainDiffers(w: RivMap, r: RivMap)
    requires IsAsWritten(w, [], ChainFunction(), Edges(ChainTree()))
    requires IsIntended(r, [], ChainFunction(), Edges(ChainTree()))
    ensures 2 in w && InstV(1) !in w[2]
    ensures 2 in r && InstV(1) in r[2]
  {
    ChainFacts();
    ChainFromEdges();
    var es := Edges(ChainTree());
    assert 2 in Targets(es) by {
      assert (1, 2) in es;
    }
  }
}
