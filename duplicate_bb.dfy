/** The block-duplication pass: for every suitable block it picks one
    reachable integer value `ctx` and turns the block into an if/then/else
    diamond on `ctx == 0`, whose two arms hold identical clones of the
    block's instructions and whose tail merges their results with phis.

    The LLVM calls the pass relies on are modelled by their effect:
    `SplitBlockAndInsertIfThenElse` by the block layout in `Cloned`,
    `Instruction::clone` and `RemapInstruction` by `CloneOf`, and
    `ReplaceInstWithInst`, which redirects every use of the replaced
    instruction, by one substitution over the whole function. New values and
    blocks take their numbers from a counter that is above every number in
    use. */
module DuplicateBB {
  import opened IR
  import Riv
  import Exec

  /** `isa<GlobalValue>`: globals and functions. */
  predicate IsGlobalValue(v: Value) {
    v.GlobalV? || v.FuncV?
  }

  /** One pair of `BBToSingleRivMap`: the block to clone and its context value. */
  datatype Target = Target(block: BlockId, context: Value)

  /** The next unused value number and the next unused block number. */
  datatype Fresh = Fresh(value: ValueId, block: BlockId)

  // ---------------------------------------------------------------------
  // FindBBsToDuplicate (duplicate_bb.cc:108-151)

  /** A block the pass may duplicate: not a landing pad, with at least one
      reachable value. */
  predicate Eligible(b: Block, riv: Riv.RivMap) {
    !IsLandingPad(b) && Riv.Lookup(riv, b.id) != {}
  }

  /** `std::advance(reachable_values.begin(), draw)`: the set's iteration
      order is unspecified, so each step moves past an arbitrary element not
      visited yet. */
  method Advance(values: set<Value>, draw: nat) returns (v: Value)
    requires draw < |values|
    ensures v in values
  {
    var rest := values;
    var steps: nat := draw;
    while steps > 0
      invariant rest <= values
      invariant steps <= draw && |rest| == |values| - (draw - steps)
    {
      var x :| x in rest;
      rest := rest - {x};
      steps := steps - 1;
    }
    v :| v in rest;
  }

  /** The blocks to duplicate and their context values. `draws[k]` is the raw
      random number drawn for block `k`; the uniform draw over
      `[0, count - 1]` is `draws[k] % count`, so every index can occur. The
      ghost `picked` gives the position of each target's block. */
  method FindBBsToDuplicate(f: Function, riv: Riv.RivMap, draws: seq<nat>)
    returns (targets: seq<Target>, ghost picked: seq<nat>)
    requires |draws| == |f.blocks|
    ensures |picked| == |targets|
    ensures forall j | 0 <= j < |targets| ::
      picked[j] < |f.blocks| && targets[j].block == f.blocks[picked[j]].id
    ensures forall j, j' | 0 <= j < j' < |targets| :: picked[j] < picked[j']
    ensures forall j | 0 <= j < |targets| ::
      && Eligible(f.blocks[picked[j]], riv)
      && targets[j].context in Riv.Lookup(riv, targets[j].block)
      && !IsGlobalValue(targets[j].context)
    ensures forall k | 0 <= k < |f.blocks| && Eligible(f.blocks[k], riv) &&
      (forall v | v in Riv.Lookup(riv, f.blocks[k].id) :: !IsGlobalValue(v)) :: k in picked
  {
    targets, picked := [], [];
    for k := 0 to |f.blocks|
      invariant |picked| == |targets|
      invariant forall j | 0 <= j < |targets| ::
        picked[j] < k && targets[j].block == f.blocks[picked[j]].id
      invariant forall j, j' | 0 <= j < j' < |targets| :: picked[j] < picked[j']
      invariant forall j | 0 <= j < |targets| ::
        && Eligible(f.blocks[picked[j]], riv)
        && targets[j].context in Riv.Lookup(riv, targets[j].block)
        && !IsGlobalValue(targets[j].context)
      invariant forall k' | 0 <= k' < k && Eligible(f.blocks[k'], riv) &&
        (forall v | v in Riv.Lookup(riv, f.blocks[k'].id) :: !IsGlobalValue(v)) :: k' in picked
    {
      var bb := f.blocks[k];
      if IsLandingPad(bb) {
        continue;
      }
      var reachable := Riv.Lookup(riv, bb.id);
      var count := |reachable|;
      if count == 0 {
        continue;
      }
      var v := Advance(reachable, draws[k] % count);
      if IsGlobalValue(v) {
        continue;
      }
      targets := targets + [Target(bb.id, v)];
      picked := picked + [k];
    }
  }

  // ---------------------------------------------------------------------
  // Value substitution

  function Remap(v: Value, m: map<Value, Value>): Value {
    if v in m then m[v] else v
  }

  function RemapOps(ops: seq<Value>, m: map<Value, Value>): (r: seq<Value>)
    ensures |r| == |ops| && forall i | 0 <= i < |ops| :: r[i] == Remap(ops[i], m)
  {
    seq(|ops|, i requires 0 <= i < |ops| => Remap(ops[i], m))
  }

  /** Every use of a key of `m` in `inst` now uses its image; when `retarget`
      holds, phi entries flowing in from `from` flow in from `to` instead. */
  function Rewrite(inst: Inst, m: map<Value, Value>, retarget: bool, from: BlockId, to: BlockId): Inst {
    inst.(operands := RemapOps(inst.operands, m),
          incoming := if retarget then seq(|inst.incoming|, k requires 0 <= k < |inst.incoming| =>
                                          if inst.incoming[k] == from then to else inst.incoming[k])
                      else inst.incoming)
  }

  function RewriteBlock(b: Block, m: map<Value, Value>, succs: seq<BlockId>, from: BlockId, to: BlockId): Block {
    var retarget := b.id in succs;
    Block(b.id,
          seq(|b.body| , k requires 0 <= k < |b.body| => Rewrite(b.body[k], m, retarget, from, to)),
          Rewrite(b.term, m, retarget, from, to))
  }

  // ---------------------------------------------------------------------
  // CloneBB (duplicate_bb.cc:153-248), as a function of its inputs

  /** The value numbers CloneBB hands out from `base`: the condition, the
      conditional branch, the two arm terminators, then for the `k`-th
      instruction after the phis its then-clone (`arm` 0), else-clone
      (`arm` 1) and phi (`arm` 2). */
  function ArmId(base: ValueId, arm: nat, k: nat): ValueId {
    base + 4 + 3 * k + arm
  }

  /** `then_map` or `else_map` once the first `k` instructions are cloned. */
  function ArmMap(rest: seq<Inst>, k: nat, base: ValueId, arm: nat): map<Value, Value>
    requires k <= |rest|
  {
    if k == 0 then map[]
    else ArmMap(rest, k - 1, base, arm)[InstV(rest[k - 1].id) := InstV(ArmId(base, arm, k - 1))]
  }

  /** The clone of `rest[k]` in one arm, its operands remapped through that
      arm's map. */
  function CloneOf(rest: seq<Inst>, k: nat, base: ValueId, arm: nat): Inst
    requires k < |rest|
  {
    var i := rest[k];
    Inst(ArmId(base, arm, k), i.op, i.ty, RemapOps(i.operands, ArmMap(rest, k, base, arm)), i.incoming)
  }

  function ArmBody(rest: seq<Inst>, base: ValueId, arm: nat): (r: seq<Inst>)
    ensures |r| == |rest|
  {
    seq(|rest|, k requires 0 <= k < |rest| => CloneOf(rest, k, base, arm))
  }

  /** The phi that replaces `rest[k]` in the tail. */
  function PhiFor(rest: seq<Inst>, k: nat, base: ValueId, thenB: BlockId, elseB: BlockId): Inst
    requires k < |rest|
  {
    Inst(ArmId(base, 2, k), Phi, rest[k].ty,
         [InstV(ArmId(base, 0, k)), InstV(ArmId(base, 1, k))], [thenB, elseB])
  }

  /** The tail's phis for the value-producing instructions among the first `k`. */
  function TailPhis(rest: seq<Inst>, k: nat, base: ValueId, thenB: BlockId, elseB: BlockId): seq<Inst>
    requires k <= |rest|
  {
    if k == 0 then []
    else TailPhis(rest, k - 1, base, thenB, elseB) +
         (if rest[k - 1].ty.VoidTy? then [] else [PhiFor(rest, k - 1, base, thenB, elseB)])
  }

  /** `tail_map` once the first `k` instructions are processed: every
      value-producing instruction maps to its phi. */
  function TailMap(rest: seq<Inst>, k: nat, base: ValueId): map<Value, Value>
    requires k <= |rest|
  {
    if k == 0 then map[]
    else
      var m := TailMap(rest, k - 1, base);
      if rest[k - 1].ty.VoidTy? then m else m[InstV(rest[k - 1].id) := InstV(ArmId(base, 2, k - 1))]
  }

  /** The instructions of `b` from `getFirstNonPHI` on, the terminator excluded. */
  function Rest(b: Block): seq<Inst> {
    b.body[FirstNonPhi(b.body)..]
  }

  function Phis(b: Block): seq<Inst> {
    b.body[..FirstNonPhi(b.body)]
  }

  /** The context value the condition tests: its replacement when an earlier
      clone replaced it. */
  function Context(ctx: Value, reMapper: map<Value, Value>): Value {
    if ctx in reMapper then reMapper[ctx] else ctx
  }

  /** `icmp eq ctx, 0`, the result of `CreateIsNull`. */
  function Condition(ctx: Value, reMapper: map<Value, Value>, base: ValueId): Inst {
    Inst(base, ICmpEq, IntTy(1), [Context(ctx, reMapper), ConstV(0)], [])
  }

  /** The head keeps the block's number and phis and ends in
      `br (icmp eq ctx, 0), then, else`. */
  function HeadBlock(b: Block, ctx: Value, reMapper: map<Value, Value>, fr: Fresh): Block {
    Block(b.id, Phis(b) + [Condition(ctx, reMapper, fr.value)],
          Inst(fr.value + 1, Br, VoidTy, [InstV(fr.value), BlockV(fr.block), BlockV(fr.block + 1)], []))
  }

  /** The then (`arm` 0) or else (`arm` 1) block: the clones, then `br tail`. */
  function ArmBlock(b: Block, fr: Fresh, arm: nat): Block {
    Block(fr.block + arm, ArmBody(Rest(b), fr.value, arm),
          Inst(fr.value + 2 + arm, Br, VoidTy, [BlockV(fr.block + 2)], []))
  }

  /** The tail: the phis, then the original terminator. */
  function TailBlock(b: Block, fr: Fresh): Block {
    Block(fr.block + 2, TailPhis(Rest(b), |Rest(b)|, fr.value, fr.block, fr.block + 1), b.term)
  }

  /** The blocks after CloneBB of `f.blocks[idx]`, before uses are
      redirected: the block becomes head, then, else and tail, in this order. */
  function Diamond(f: Function, idx: nat, ctx: Value, reMapper: map<Value, Value>, fr: Fresh): seq<Block>
    requires idx < |f.blocks|
  {
    var b := f.blocks[idx];
    f.blocks[..idx] + [HeadBlock(b, ctx, reMapper, fr), ArmBlock(b, fr, 0), ArmBlock(b, fr, 1), TailBlock(b, fr)]
      + f.blocks[idx + 1..]
  }

  /** The function after CloneBB: the diamond, with every use of a replaced
      instruction redirected to its phi and the successors' phis naming the
      tail instead of the head. */
  function Cloned(f: Function, idx: nat, ctx: Value, reMapper: map<Value, Value>, fr: Fresh): (g: Function)
    requires idx < |f.blocks|
    ensures |g.blocks| == |f.blocks| + 3
  {
    var b := f.blocks[idx];
    var blocks := Diamond(f, idx, ctx, reMapper, fr);
    var m := TailMap(Rest(b), |Rest(b)|, fr.value);
    var succs := Successors(b.term);
    Function(f.name, f.args,
             seq(|blocks|, j requires 0 <= j < |blocks| => RewriteBlock(blocks[j], m, succs, b.id, fr.block + 2)))
  }


  /** An instruction numbered below the counter whose phi entries name blocks
      below it. */
  predicate InstFresh(i: Inst, fr: Fresh) {
    i.id < fr.value && forall p | p in i.incoming :: p < fr.block
  }

  predicate BlockFresh(b: Block, fr: Fresh) {
    && b.id < fr.block
    && (forall k | 0 <= k < |b.body| :: InstFresh(b.body[k], fr))
    && InstFresh(b.term, fr)
    && forall d | d in Successors(b.term) :: d < fr.block
  }

  /** Every block and instruction number used in `f`, and every block it
      names, is below the counter. */
  predicate FreshFor(f: Function, fr: Fresh) {
    forall j | 0 <= j < |f.blocks| :: BlockFresh(f.blocks[j], fr)
  }

  /** The counter after CloneBB of `b`. */
  function NextFresh(b: Block, fr: Fresh): Fresh {
    Fresh(fr.value + 4 + 3 * |Rest(b)|, fr.block + 3)
  }

  /** Distinct instructions are distinct values. */
  predicate DistinctIds(rest: seq<Inst>) {
    forall j, j' | 0 <= j < j' < |rest| :: rest[j].id != rest[j'].id
  }

  /** The number of value-producing instructions among the first `k`. */
  function ValueCount(rest: seq<Inst>, k: nat): (n: nat)
    requires k <= |rest|
    ensures n <= k
  {
    if k == 0 then 0 else ValueCount(rest, k - 1) + (if rest[k - 1].ty.VoidTy? then 0 else 1)
  }

  /** The substitution CloneBB's replacements make. */
  function Replaced(b: Block, base: ValueId): map<Value, Value> {
    TailMap(Rest(b), |Rest(b)|, base)
  }

  /** `re_mapper` after CloneBB: every replaced instruction maps to its phi. */
  function ReMapped(b: Block, reMapper: map<Value, Value>, base: ValueId): map<Value, Value> {
    reMapper + Replaced(b, base)
  }

  /** The clones of the first `k` instructions in one arm. */
  function ArmPrefix(rest: seq<Inst>, k: nat, base: ValueId, arm: nat): seq<Inst>
    requires k <= |rest|
  {
    if k == 0 then [] else ArmPrefix(rest, k - 1, base, arm) + [CloneOf(rest, k - 1, base, arm)]
  }

  /** The tail once the first `k` value-producing instructions are replaced by
      their phis. */
  function TailAfter(rest: seq<Inst>, k: nat, base: ValueId, thenB: BlockId, elseB: BlockId): (t: seq<Inst>)
    requires k <= |rest|
    ensures |t| == |rest|
  {
    if k == 0 then rest
    else
      var t := TailAfter(rest, k - 1, base, thenB, elseB);
      if rest[k - 1].ty.VoidTy? then t else t[k - 1 := PhiFor(rest, k - 1, base, thenB, elseB)]
  }

  /** `to_remove` once the first `k` instructions are processed. */
  function VoidPositions(rest: seq<Inst>, k: nat): seq<nat>
    requires k <= |rest|
  {
    if k == 0 then [] else VoidPositions(rest, k - 1) + (if rest[k - 1].ty.VoidTy? then [k - 1] else [])
  }

  lemma {:induction false} ArmPrefixIsBody(rest: seq<Inst>, k: nat, base: ValueId, arm: nat)
    requires k <= |rest|
    ensures ArmPrefix(rest, k, base, arm) == ArmBody(rest, base, arm)[..k]
  {
    if k > 0 {
      ArmPrefixIsBody(rest, k - 1, base, arm);
      assert ArmBody(rest, base, arm)[..k] == ArmBody(rest, base, arm)[..k - 1] + [CloneOf(rest, k - 1, base, arm)];
    }
  }

  /** After the loop, every value-producing instruction is replaced by its own
      phi. */
  lemma {:induction false} TailAfterAt(rest: seq<Inst>, k: nat, base: ValueId, thenB: BlockId, elseB: BlockId, j: nat)
    requires j < k <= |rest|
    ensures TailAfter(rest, k, base, thenB, elseB)[j] ==
            if rest[j].ty.VoidTy? then rest[j] else PhiFor(rest, j, base, thenB, elseB)
  {
    if j < k - 1 {
      TailAfterAt(rest, k - 1, base, thenB, elseB, j);
    } else if k - 1 > 0 {
      TailAfterUntouched(rest, k - 1, base, thenB, elseB, j);
    }
  }

  lemma {:induction false} TailAfterUntouched(rest: seq<Inst>, k: nat, base: ValueId, thenB: BlockId, elseB: BlockId, j: nat)
    requires k <= j < |rest|
    ensures TailAfter(rest, k, base, thenB, elseB)[j] == rest[j]
  {
    if k > 0 {
      TailAfterUntouched(rest, k - 1, base, thenB, elseB, j);
    }
  }

  /** `to_remove` holds exactly the positions of the instructions without a
      value. */
  lemma {:induction false} VoidPositionsExactly(rest: seq<Inst>, k: nat, j: nat)
    requires k <= |rest| && j < |rest|
    ensures j in VoidPositions(rest, k) <==> j < k && rest[j].ty.VoidTy?
  {
    if k > 0 {
      VoidPositionsExactly(rest, k - 1, j);
    }
  }

  lemma UpdateUnion(a: map<Value, Value>, m: map<Value, Value>, x: Value, y: Value)
    ensures (a + m)[x := y] == a + m[x := y]
  {
  }

  /** The loop of CloneBB over the instructions after the phis: each is
      cloned into both arms through that arm's map; a value-producing one is
      replaced in place by its phi and recorded in `tail_map` and `re_mapper`,
      one without a value is put on `to_remove`. */
  method CloneInstructions(rest: seq<Inst>, base: ValueId, thenB: BlockId, elseB: BlockId, reMapper: map<Value, Value>)
    returns (thenBody: seq<Inst>, elseBody: seq<Inst>, tail: seq<Inst>, toRemove: seq<nat>,
             tailMap: map<Value, Value>, reMapper': map<Value, Value>)
    ensures thenBody == ArmBody(rest, base, 0) && elseBody == ArmBody(rest, base, 1)
    ensures tailMap == TailMap(rest, |rest|, base) && reMapper' == reMapper + tailMap
    ensures tail == TailAfter(rest, |rest|, base, thenB, elseB)
    ensures toRemove == VoidPositions(rest, |rest|)
  {
    thenBody, elseBody := [], [];
    var thenMap: map<Value, Value>, elseMap: map<Value, Value> := map[], map[];
    tailMap := map[];
    tail := rest;
    toRemove := [];
    reMapper' := reMapper;
    for k := 0 to |rest|
      invariant thenBody == ArmPrefix(rest, k, base, 0) && elseBody == ArmPrefix(rest, k, base, 1)
      invariant thenMap == ArmMap(rest, k, base, 0) && elseMap == ArmMap(rest, k, base, 1)
      invariant tailMap == TailMap(rest, k, base) && reMapper' == reMapper + tailMap
      invariant tail == TailAfter(rest, k, base, thenB, elseB)
      invariant toRemove == VoidPositions(rest, k)
    {
      var inst := rest[k];
      var thenClone := Inst(ArmId(base, 0, k), inst.op, inst.ty, RemapOps(inst.operands, thenMap), inst.incoming);
      thenBody := thenBody + [thenClone];
      thenMap := thenMap[InstV(inst.id) := InstV(thenClone.id)];
      var elseClone := Inst(ArmId(base, 1, k), inst.op, inst.ty, RemapOps(inst.operands, elseMap), inst.incoming);
      elseBody := elseBody + [elseClone];
      elseMap := elseMap[InstV(inst.id) := InstV(elseClone.id)];
      if thenClone.ty.VoidTy? {
        toRemove := toRemove + [k];
        continue;
      }
      var phi := Inst(ArmId(base, 2, k), Phi, thenClone.ty,
                      [InstV(thenClone.id), InstV(elseClone.id)], [thenB, elseB]);
      UpdateUnion(reMapper, tailMap, InstV(inst.id), InstV(phi.id));
      tailMap := tailMap[InstV(inst.id) := InstV(phi.id)];
      reMapper' := reMapper'[InstV(inst.id) := InstV(phi.id)];
      tail := tail[k := phi];
    }
    ArmPrefixIsBody(rest, |rest|, base, 0);
    ArmPrefixIsBody(rest, |rest|, base, 1);
  }

  /** `inst->eraseFromParent()` for every instruction on `to_remove`. */
  method Purge(rest: seq<Inst>, tail: seq<Inst>, toRemove: seq<nat>, base: ValueId, thenB: BlockId, elseB: BlockId)
    returns (kept: seq<Inst>)
    requires tail == TailAfter(rest, |rest|, base, thenB, elseB)
    requires toRemove == VoidPositions(rest, |rest|)
    ensures kept == TailPhis(rest, |rest|, base, thenB, elseB)
  {
    kept := [];
    for k := 0 to |tail|
      invariant kept == TailPhis(rest, k, base, thenB, elseB)
    {
      TailAfterAt(rest, |rest|, base, thenB, elseB, k);
      VoidPositionsExactly(rest, |rest|, k);
      if k !in toRemove {
        kept := kept + [tail[k]];
      }
    }
  }

  /** CloneBB: split the block, clone its instructions into both arms, and
      redirect the uses of the replaced instructions, the terminator's
      remapping through `tail_map` included. */
  method CloneBB(f: Function, bb: BlockId, ctx: Value, reMapper: map<Value, Value>, fr: Fresh)
    returns (g: Function, reMapper': map<Value, Value>, fr': Fresh)
    requires IndexOfBlock(f.blocks, bb).Some?
    ensures var idx := IndexOfBlock(f.blocks, bb).value;
      g == Cloned(f, idx, ctx, reMapper, fr) &&
      reMapper' == ReMapped(f.blocks[idx], reMapper, fr.value) &&
      fr' == NextFresh(f.blocks[idx], fr)
  {
    var idx := IndexOfBlock(f.blocks, bb).value;
    var b := f.blocks[idx];
    var base := fr.value;
    var cond := Inst(base, ICmpEq, IntTy(1),
                     [if ctx in reMapper then reMapper[ctx] else ctx, ConstV(0)], []);
    var thenB, elseB, tailB := fr.block, fr.block + 1, fr.block + 2;
    var rest := Rest(b);
    var thenBody, elseBody, tail, toRemove, tailMap;
    thenBody, elseBody, tail, toRemove, tailMap, reMapper' := CloneInstructions(rest, base, thenB, elseB, reMapper);
    var kept := Purge(rest, tail, toRemove, base, thenB, elseB);
    var head := Block(b.id, Phis(b) + [cond],
                      Inst(base + 1, Br, VoidTy, [InstV(base), BlockV(thenB), BlockV(elseB)], []));
    var thenBlock := Block(thenB, thenBody, Inst(base + 2, Br, VoidTy, [BlockV(tailB)], []));
    var elseBlock := Block(elseB, elseBody, Inst(base + 3, Br, VoidTy, [BlockV(tailB)], []));
    assert head == HeadBlock(b, ctx, reMapper, fr);
    assert thenBlock == ArmBlock(b, fr, 0) && elseBlock == ArmBlock(b, fr, 1);
    assert Block(tailB, kept, b.term) == TailBlock(b, fr);
    var blocks := f.blocks[..idx] + [head, thenBlock, elseBlock, Block(tailB, kept, b.term)] + f.blocks[idx + 1..];
    assert blocks == Diamond(f, idx, ctx, reMapper, fr);
    var succs := Successors(b.term);
    g := Function(f.name, f.args,
                  seq(|blocks|, j requires 0 <= j < |blocks| => RewriteBlock(blocks[j], tailMap, succs, b.id, tailB)));
    fr' := NextFresh(b, fr);
  }

  // ---------------------------------------------------------------------
  // The maps CloneBB builds

  /** A value that names none of the first `k` instructions is in no map. */
  lemma {:induction false} MapsMiss(rest: seq<Inst>, k: nat, base: ValueId, arm: nat, v: Value)
    requires k <= |rest|
    requires forall j | 0 <= j < k :: v != InstV(rest[j].id)
    ensures v !in ArmMap(rest, k, base, arm) && v !in TailMap(rest, k, base)
  {
    if k > 0 {
      MapsMiss(rest, k - 1, base, arm, v);
    }
  }

  /** `tail_map` maps instructions to phis numbered from `base` on. */
  lemma {:induction false} TailMapShape(rest: seq<Inst>, k: nat, base: ValueId)
    requires k <= |rest|
    ensures forall v | v in TailMap(rest, k, base) ::
      (exists j | 0 <= j < k :: v == InstV(rest[j].id)) &&
      TailMap(rest, k, base)[v].InstV? && base <= TailMap(rest, k, base)[v].id
  {
    if k > 0 {
      TailMapShape(rest, k - 1, base);
    }
  }

  /** In each arm's map, an earlier instruction maps to its clone in that arm. */
  lemma {:induction false} ArmMapAt(rest: seq<Inst>, k: nat, base: ValueId, arm: nat, j: nat)
    requires j < k <= |rest| && DistinctIds(rest)
    ensures InstV(rest[j].id) in ArmMap(rest, k, base, arm)
    ensures ArmMap(rest, k, base, arm)[InstV(rest[j].id)] == InstV(ArmId(base, arm, j))
  {
    if j < k - 1 {
      ArmMapAt(rest, k - 1, base, arm, j);
    }
  }

  /** `tail_map` maps a value-producing instruction to its phi and holds no
      instruction without a value. */
  lemma {:induction false} TailMapAt(rest: seq<Inst>, k: nat, base: ValueId, j: nat)
    requires j < k <= |rest| && DistinctIds(rest)
    ensures rest[j].ty.VoidTy? ==> InstV(rest[j].id) !in TailMap(rest, k, base)
    ensures !rest[j].ty.VoidTy? ==>
      InstV(rest[j].id) in TailMap(rest, k, base) && TailMap(rest, k, base)[InstV(rest[j].id)] == InstV(ArmId(base, 2, j))
  {
    if j < k - 1 {
      TailMapAt(rest, k - 1, base, j);
    } else {
      MapsMiss(rest, k - 1, base, 0, InstV(rest[j].id));
    }
  }

  /** The instructions CloneBB replaces, and by what: exactly the
      value-producing instructions after the phis, each by its phi. */
  lemma ReplacedExactly(b: Block, base: ValueId)
    requires DistinctIds(Rest(b))
    ensures forall k | 0 <= k < |Rest(b)| && !Rest(b)[k].ty.VoidTy? ::
      InstV(Rest(b)[k].id) in Replaced(b, base) && Replaced(b, base)[InstV(Rest(b)[k].id)] == InstV(ArmId(base, 2, k))
    ensures forall k | 0 <= k < |Rest(b)| && Rest(b)[k].ty.VoidTy? :: InstV(Rest(b)[k].id) !in Replaced(b, base)
    ensures forall v | v in Replaced(b, base) :: exists k | 0 <= k < |Rest(b)| :: v == InstV(Rest(b)[k].id)
  {
    var rest := Rest(b);
    forall k | 0 <= k < |rest|
      ensures !rest[k].ty.VoidTy? ==>
        InstV(rest[k].id) in Replaced(b, base) && Replaced(b, base)[InstV(rest[k].id)] == InstV(ArmId(base, 2, k))
      ensures rest[k].ty.VoidTy? ==> InstV(rest[k].id) !in Replaced(b, base)
    {
      TailMapAt(rest, |rest|, base, k);
    }
    TailMapShape(rest, |rest|, base);
  }

  /** `re_mapper` only grows: the replaced instructions map to their phis and
      every other entry is kept. */
  lemma ReMappedGrows(b: Block, reMapper: map<Value, Value>, base: ValueId)
    requires DistinctIds(Rest(b))
    ensures reMapper.Keys <= ReMapped(b, reMapper, base).Keys
    ensures forall k | 0 <= k < |Rest(b)| && !Rest(b)[k].ty.VoidTy? ::
      InstV(Rest(b)[k].id) in ReMapped(b, reMapper, base) &&
      ReMapped(b, reMapper, base)[InstV(Rest(b)[k].id)] == InstV(ArmId(base, 2, k))
    ensures forall v | v in reMapper && (forall k | 0 <= k < |Rest(b)| :: v != InstV(Rest(b)[k].id)) ::
      ReMapped(b, reMapper, base)[v] == reMapper[v]
  {
    ReplacedExactly(b, base);
  }

  // ---------------------------------------------------------------------
  // The tail's phis

  lemma {:induction false} TailPhisLength(rest: seq<Inst>, k: nat, base: ValueId, thenB: BlockId, elseB: BlockId)
    requires k <= |rest|
    ensures |TailPhis(rest, k, base, thenB, elseB)| == ValueCount(rest, k)
  {
    if k > 0 {
      TailPhisLength(rest, k - 1, base, thenB, elseB);
    }
  }

  /** Every instruction of the tail, the terminator aside, is a phi with one
      entry from each arm. */
  lemma {:induction false} TailPhisShape(rest: seq<Inst>, k: nat, base: ValueId, thenB: BlockId, elseB: BlockId)
    requires k <= |rest|
    ensures forall p | p in TailPhis(rest, k, base, thenB, elseB) ::
      && p.op == Phi && |p.operands| == 2 && p.incoming == [thenB, elseB]
      && p.operands[0].InstV? && p.operands[0].id >= base && p.operands[1].InstV? && p.operands[1].id >= base
      && p.id < base + 4 + 3 * k
  {
    if k > 0 {
      TailPhisShape(rest, k - 1, base, thenB, elseB);
    }
  }

  /** The phi of the `j`-th instruction sits after those of the
      value-producing instructions before it, so the tail keeps the original
      order. */
  lemma {:induction false} TailPhisAt(rest: seq<Inst>, k: nat, base: ValueId, thenB: BlockId, elseB: BlockId, j: nat)
    requires j < k <= |rest| && !rest[j].ty.VoidTy?
    ensures ValueCount(rest, j) < |TailPhis(rest, k, base, thenB, elseB)|
    ensures TailPhis(rest, k, base, thenB, elseB)[ValueCount(rest, j)] == PhiFor(rest, j, base, thenB, elseB)
  {
    TailPhisLength(rest, k, base, thenB, elseB);
    if j < k - 1 {
      TailPhisAt(rest, k - 1, base, thenB, elseB, j);
      TailPhisLength(rest, k - 1, base, thenB, elseB);
    } else {
      TailPhisLength(rest, k - 1, base, thenB, elseB);
    }
  }

  // ---------------------------------------------------------------------
  // The function CloneBB produces

  lemma RestFresh(b: Block, fr: Fresh)
    requires BlockFresh(b, fr)
    ensures forall k | 0 <= k < |Rest(b)| :: InstFresh(Rest(b)[k], fr)
  {
    var n := FirstNonPhi(b.body);
    forall k | 0 <= k < |Rest(b)|
      ensures InstFresh(Rest(b)[k], fr)
    {
      assert Rest(b)[k] == b.body[n + k];
    }
  }

  /** The substitution touches only instructions of the block, all numbered
      below the counter, and puts instructions in their place. */
  lemma ReplacedFresh(b: Block, fr: Fresh)
    requires BlockFresh(b, fr)
    ensures forall v | v in Replaced(b, fr.value) :: v.InstV? && v.id < fr.value && Replaced(b, fr.value)[v].InstV?
  {
    RestFresh(b, fr);
    TailMapShape(Rest(b), |Rest(b)|, fr.value);
  }

  /** A value outside the substitution's domain is left alone. */
  lemma RemapMiss(ops: seq<Value>, m: map<Value, Value>, o: nat)
    requires o < |ops| && ops[o] !in m
    ensures RemapOps(ops, m)[o] == ops[o]
  {
  }

  /** Remapping through a map whose images are instructions names no new block. */
  lemma RemapSuccessors(inst: Inst, m: map<Value, Value>, retarget: bool, from: BlockId, to: BlockId)
    requires forall v | v in m :: m[v].InstV? && v.InstV?
    ensures forall d | d in Successors(Rewrite(inst, m, retarget, from, to)) :: d in Successors(inst)
  {
    var ops := RemapOps(inst.operands, m);
    forall d | d in Successors(Rewrite(inst, m, retarget, from, to))
      ensures d in Successors(inst)
    {
      var o :| 0 <= o < |ops| && ops[o] == BlockV(d);
      assert inst.operands[o] !in m;
    }
  }

  /** Where the blocks of the diamond are. */
  lemma DiamondAt(f: Function, idx: nat, ctx: Value, reMapper: map<Value, Value>, fr: Fresh, j: nat)
    requires idx < |f.blocks| && j < |f.blocks| + 3
    ensures var d := Diamond(f, idx, ctx, reMapper, fr); var b := f.blocks[idx];
      && |d| == |f.blocks| + 3
      && d[j] == (if j < idx then f.blocks[j]
                  else if j == idx then HeadBlock(b, ctx, reMapper, fr)
                  else if j == idx + 1 then ArmBlock(b, fr, 0)
                  else if j == idx + 2 then ArmBlock(b, fr, 1)
                  else if j == idx + 3 then TailBlock(b, fr)
                  else f.blocks[j - 3])
  {
  }

  /** The `j`-th block after CloneBB is the `j`-th block of the diamond with
      the uses redirected. */
  lemma ClonedAt(f: Function, idx: nat, ctx: Value, reMapper: map<Value, Value>, fr: Fresh, j: nat)
    requires idx < |f.blocks| && j < |f.blocks| + 3
    ensures var b := f.blocks[idx];
      Cloned(f, idx, ctx, reMapper, fr).blocks[j] ==
      RewriteBlock(Diamond(f, idx, ctx, reMapper, fr)[j], Replaced(b, fr.value), Successors(b.term), b.id, fr.block + 2)
  {
  }

  lemma HeadTermRewritten(b: Block, ctx: Value, reMapper: map<Value, Value>, fr: Fresh)
    requires BlockFresh(b, fr)
    ensures var head := RewriteBlock(HeadBlock(b, ctx, reMapper, fr), Replaced(b, fr.value), Successors(b.term), b.id, fr.block + 2);
      && head.id == b.id
      && head.term == Inst(fr.value + 1, Br, VoidTy, [InstV(fr.value), BlockV(fr.block), BlockV(fr.block + 1)], [])
  {
    ReplacedFresh(b, fr);
    var m := Replaced(b, fr.value);
    var t := Inst(fr.value + 1, Br, VoidTy, [InstV(fr.value), BlockV(fr.block), BlockV(fr.block + 1)], []);
    RemapMiss(t.operands, m, 0);
    RemapMiss(t.operands, m, 1);
    RemapMiss(t.operands, m, 2);
    assert RemapOps(t.operands, m) == t.operands;
  }

  lemma HeadBodyRewritten(b: Block, ctx: Value, reMapper: map<Value, Value>, fr: Fresh)
    requires BlockFresh(b, fr)
    ensures var body := RewriteBlock(HeadBlock(b, ctx, reMapper, fr), Replaced(b, fr.value), Successors(b.term), b.id, fr.block + 2).body;
      && |body| == |Phis(b)| + 1
      && (forall k | 0 <= k < |Phis(b)| :: body[k].id == b.body[k].id && body[k].op == Phi)
      && body[|Phis(b)|] ==
           Inst(fr.value, ICmpEq, IntTy(1), [Remap(Context(ctx, reMapper), Replaced(b, fr.value)), ConstV(0)], [])
  {
    var m := Replaced(b, fr.value);
    ReplacedFresh(b, fr);
    var ops := [Context(ctx, reMapper), ConstV(0)];
    RemapMiss(ops, m, 1);
    assert RemapOps(ops, m) == [Remap(Context(ctx, reMapper), m), ConstV(0)];
  }

  /** A context value defined outside the block is compared as it is. */
  lemma ContextKept(b: Block, ctx: Value, reMapper: map<Value, Value>, fr: Fresh)
    requires forall k | 0 <= k < |Rest(b)| :: Context(ctx, reMapper) != InstV(Rest(b)[k].id)
    ensures Remap(Context(ctx, reMapper), Replaced(b, fr.value)) == Context(ctx, reMapper)
  {
    MapsMiss(Rest(b), |Rest(b)|, fr.value, 0, Context(ctx, reMapper));
  }

  /** The head keeps the block's number and phis, adds the test of the
      context value against zero, and ends in a conditional branch to the two
      arms. */
  lemma CloneHead(f: Function, idx: nat, ctx: Value, reMapper: map<Value, Value>, fr: Fresh)
    requires idx < |f.blocks| && FreshFor(f, fr)
    ensures var b := f.blocks[idx]; var head := Cloned(f, idx, ctx, reMapper, fr).blocks[idx];
      && head.id == b.id
      && |head.body| == |Phis(b)| + 1
      && (forall k | 0 <= k < |Phis(b)| :: head.body[k].id == b.body[k].id && head.body[k].op == Phi)
      && head.body[|Phis(b)|] ==
           Inst(fr.value, ICmpEq, IntTy(1), [Remap(Context(ctx, reMapper), Replaced(b, fr.value)), ConstV(0)], [])
      && ((forall k | 0 <= k < |Rest(b)| :: Context(ctx, reMapper) != InstV(Rest(b)[k].id)) ==>
            head.body[|Phis(b)|].operands[0] == Context(ctx, reMapper))
      && head.term == Inst(fr.value + 1, Br, VoidTy, [InstV(fr.value), BlockV(fr.block), BlockV(fr.block + 1)], [])
      && IsConditionalBr(head.term)
  {
    assert BlockFresh(f.blocks[idx], fr);
    ClonedAt(f, idx, ctx, reMapper, fr, idx);
    DiamondAt(f, idx, ctx, reMapper, fr, idx);
    HeadTermRewritten(f.blocks[idx], ctx, reMapper, fr);
    HeadBodyRewritten(f.blocks[idx], ctx, reMapper, fr);
    if forall k | 0 <= k < |Rest(f.blocks[idx])| :: Context(ctx, reMapper) != InstV(Rest(f.blocks[idx])[k].id) {
      ContextKept(f.blocks[idx], ctx, reMapper, fr);
    }
  }

  lemma ArmRewritten(b: Block, fr: Fresh, arm: nat)
    requires BlockFresh(b, fr) && arm < 2
    ensures var blk := RewriteBlock(ArmBlock(b, fr, arm), Replaced(b, fr.value), Successors(b.term), b.id, fr.block + 2);
      && blk.id == fr.block + arm
      && blk.term == Inst(fr.value + 2 + arm, Br, VoidTy, [BlockV(fr.block + 2)], [])
      && |blk.body| == |Rest(b)|
      && forall k | 0 <= k < |Rest(b)| :: blk.body[k] == CloneOf(Rest(b), k, fr.value, arm).(operands :=
           RemapOps(CloneOf(Rest(b), k, fr.value, arm).operands, Replaced(b, fr.value)))
  {
    ReplacedFresh(b, fr);
    RemapMiss([BlockV(fr.block + 2)], Replaced(b, fr.value), 0);
    assert fr.block + arm !in Successors(b.term);
  }

  /** Both arms branch to the tail; the tail is the last of the four blocks. */
  lemma CloneArmsJoin(f: Function, idx: nat, ctx: Value, reMapper: map<Value, Value>, fr: Fresh)
    requires idx < |f.blocks| && FreshFor(f, fr)
    ensures var g := Cloned(f, idx, ctx, reMapper, fr);
      && g.name == f.name && g.args == f.args
      && g.blocks[idx + 1].id == fr.block && g.blocks[idx + 2].id == fr.block + 1
      && g.blocks[idx + 3].id == fr.block + 2
      && g.blocks[idx + 1].term == Inst(fr.value + 2, Br, VoidTy, [BlockV(fr.block + 2)], [])
      && g.blocks[idx + 2].term == Inst(fr.value + 3, Br, VoidTy, [BlockV(fr.block + 2)], [])
  {
    var b := f.blocks[idx];
    assert BlockFresh(b, fr);
    ClonedAt(f, idx, ctx, reMapper, fr, idx + 1);
    DiamondAt(f, idx, ctx, reMapper, fr, idx + 1);
    ClonedAt(f, idx, ctx, reMapper, fr, idx + 2);
    DiamondAt(f, idx, ctx, reMapper, fr, idx + 2);
    ClonedAt(f, idx, ctx, reMapper, fr, idx + 3);
    DiamondAt(f, idx, ctx, reMapper, fr, idx + 3);
    ArmRewritten(b, fr, 0);
    ArmRewritten(b, fr, 1);
  }

  /** The clones in an arm, their uses redirected, as the source promises
      them. */
  lemma ArmBodyRewritten(b: Block, fr: Fresh, arm: nat)
    requires BlockFresh(b, fr) && DistinctIds(Rest(b)) && arm < 2
    ensures var body := RewriteBlock(ArmBlock(b, fr, arm), Replaced(b, fr.value), Successors(b.term), b.id, fr.block + 2).body;
      var rest := Rest(b);
      && |body| == |rest|
      && (forall k | 0 <= k < |rest| ::
            && body[k].id == ArmId(fr.value, arm, k) && body[k].op == rest[k].op && body[k].ty == rest[k].ty
            && |body[k].operands| == |rest[k].operands| && body[k].incoming == rest[k].incoming)
      && (forall k, j, o | 0 <= j < k < |rest| && 0 <= o < |rest[k].operands| && rest[k].operands[o] == InstV(rest[j].id) ::
            body[k].operands[o] == InstV(body[j].id))
      && (forall k, o | 0 <= k < |rest| && 0 <= o < |rest[k].operands| &&
            (forall j | 0 <= j < |rest| :: rest[k].operands[o] != InstV(rest[j].id)) ::
            body[k].operands[o] == rest[k].operands[o])
  {
    ArmRewritten(b, fr, arm);
    ArmOperands(b, fr, arm);
  }

  /** Each arm clones every instruction after the phis once, in order, and an
      operand naming an earlier instruction of the block names that
      instruction's clone in the same arm. */
  lemma CloneArm(f: Function, idx: nat, ctx: Value, reMapper: map<Value, Value>, fr: Fresh, arm: nat)
    requires idx < |f.blocks| && FreshFor(f, fr) && DistinctIds(Rest(f.blocks[idx])) && arm < 2
    ensures var body := Cloned(f, idx, ctx, reMapper, fr).blocks[idx + 1 + arm].body; var rest := Rest(f.blocks[idx]);
      && |body| == |rest|
      && (forall k | 0 <= k < |rest| ::
            && body[k].id == ArmId(fr.value, arm, k) && body[k].op == rest[k].op && body[k].ty == rest[k].ty
            && |body[k].operands| == |rest[k].operands| && body[k].incoming == rest[k].incoming)
      && (forall k, j, o | 0 <= j < k < |rest| && 0 <= o < |rest[k].operands| && rest[k].operands[o] == InstV(rest[j].id) ::
            body[k].operands[o] == InstV(body[j].id))
      && (forall k, o | 0 <= k < |rest| && 0 <= o < |rest[k].operands| &&
            (forall j | 0 <= j < |rest| :: rest[k].operands[o] != InstV(rest[j].id)) ::
            body[k].operands[o] == rest[k].operands[o])
  {
    var b := f.blocks[idx];
    assert BlockFresh(b, fr);
    var body := Cloned(f, idx, ctx, reMapper, fr).blocks[idx + 1 + arm].body;
    ClonedAt(f, idx, ctx, reMapper, fr, idx + 1 + arm);
    DiamondAt(f, idx, ctx, reMapper, fr, idx + 1 + arm);
    assert body == RewriteBlock(ArmBlock(b, fr, arm), Replaced(b, fr.value), Successors(b.term), b.id, fr.block + 2).body;
    ArmBodyRewritten(b, fr, arm);
  }

  lemma ArmOperands(b: Block, fr: Fresh, arm: nat)
    requires BlockFresh(b, fr) && DistinctIds(Rest(b))
    ensures var rest := Rest(b); var m := Replaced(b, fr.value);
      && (forall k, j, o | 0 <= j < k < |rest| && 0 <= o < |rest[k].operands| && rest[k].operands[o] == InstV(rest[j].id) ::
            Remap(CloneOf(rest, k, fr.value, arm).operands[o], m) == InstV(ArmId(fr.value, arm, j)))
      && (forall k, o | 0 <= k < |rest| && 0 <= o < |rest[k].operands| &&
            (forall j | 0 <= j < |rest| :: rest[k].operands[o] != InstV(rest[j].id)) ::
            Remap(CloneOf(rest, k, fr.value, arm).operands[o], m) == rest[k].operands[o])
  {
    var rest := Rest(b);
    ReplacedFresh(b, fr);
    forall k, j, o | 0 <= j < k < |rest| && 0 <= o < |rest[k].operands| && rest[k].operands[o] == InstV(rest[j].id)
      ensures Remap(CloneOf(rest, k, fr.value, arm).operands[o], Replaced(b, fr.value)) == InstV(ArmId(fr.value, arm, j))
    {
      ArmMapAt(rest, k, fr.value, arm, j);
    }
    forall k, o | 0 <= k < |rest| && 0 <= o < |rest[k].operands| &&
      (forall j | 0 <= j < |rest| :: rest[k].operands[o] != InstV(rest[j].id))
      ensures Remap(CloneOf(rest, k, fr.value, arm).operands[o], Replaced(b, fr.value)) == rest[k].operands[o]
    {
      MapsMiss(rest, k, fr.value, arm, rest[k].operands[o]);
      MapsMiss(rest, |rest|, fr.value, arm, rest[k].operands[o]);
    }
  }

  /** The substitution leaves the tail's phis alone: they use the clones. */
  lemma TailBodyRewritten(b: Block, fr: Fresh)
    requires BlockFresh(b, fr)
    ensures RewriteBlock(TailBlock(b, fr), Replaced(b, fr.value), Successors(b.term), b.id, fr.block + 2).body ==
            TailPhis(Rest(b), |Rest(b)|, fr.value, fr.block, fr.block + 1)
  {
    var m := Replaced(b, fr.value);
    var phis := TailPhis(Rest(b), |Rest(b)|, fr.value, fr.block, fr.block + 1);
    ReplacedFresh(b, fr);
    assert fr.block + 2 !in Successors(b.term);
    TailPhisShape(Rest(b), |Rest(b)|, fr.value, fr.block, fr.block + 1);
    forall i | 0 <= i < |phis|
      ensures Rewrite(phis[i], m, false, b.id, fr.block + 2) == phis[i]
    {
      assert phis[i] in phis;
      RemapMiss(phis[i].operands, m, 0);
      RemapMiss(phis[i].operands, m, 1);
      assert RemapOps(phis[i].operands, m) == phis[i].operands;
    }
  }

  lemma TailTermRewritten(b: Block, fr: Fresh)
    requires BlockFresh(b, fr)
    ensures RewriteBlock(TailBlock(b, fr), Replaced(b, fr.value), Successors(b.term), b.id, fr.block + 2).term ==
            b.term.(operands := RemapOps(b.term.operands, Replaced(b, fr.value)))
  {
    assert fr.block + 2 !in Successors(b.term);
  }

  /** The tail phis `phis`: one per value-producing instruction, each with
      two operands arriving from the then and else blocks. */
  lemma TailPhisFacts(rest: seq<Inst>, base: ValueId, thenB: BlockId, elseB: BlockId, phis: seq<Inst>)
    requires phis == TailPhis(rest, |rest|, base, thenB, elseB)
    ensures |phis| == ValueCount(rest, |rest|)
      && (forall i | 0 <= i < |phis| :: phis[i].op == Phi && |phis[i].operands| == 2 && phis[i].incoming == [thenB, elseB])
      && (forall k | 0 <= k < |rest| && !rest[k].ty.VoidTy? ::
            ValueCount(rest, k) < |phis| && phis[ValueCount(rest, k)] == PhiFor(rest, k, base, thenB, elseB))
  {
    TailPhisLength(rest, |rest|, base, thenB, elseB);
    TailPhisShape(rest, |rest|, base, thenB, elseB);
    forall i | 0 <= i < |phis|
      ensures phis[i].op == Phi && |phis[i].operands| == 2 && phis[i].incoming == [thenB, elseB]
    {
      assert phis[i] in phis;
    }
    forall k | 0 <= k < |rest| && !rest[k].ty.VoidTy?
      ensures ValueCount(rest, k) < |phis| && phis[ValueCount(rest, k)] == PhiFor(rest, k, base, thenB, elseB)
    {
      TailPhisAt(rest, |rest|, base, thenB, elseB, k);
    }
  }

  /** The tail holds one two-entry phi per value-producing instruction, in
      the original order, merging that instruction's two clones; the
      instructions without a value are gone; the terminator follows, its
      operands remapped through `tail_map`. */
  lemma CloneTail(f: Function, idx: nat, ctx: Value, reMapper: map<Value, Value>, fr: Fresh)
    requires idx < |f.blocks| && FreshFor(f, fr)
    ensures var b := f.blocks[idx]; var rest := Rest(b); var tail := Cloned(f, idx, ctx, reMapper, fr).blocks[idx + 3];
      && |tail.body| == ValueCount(rest, |rest|)
      && (forall i | 0 <= i < |tail.body| ::
            tail.body[i].op == Phi && |tail.body[i].operands| == 2 && tail.body[i].incoming == [fr.block, fr.block + 1])
      && (forall k | 0 <= k < |rest| && !rest[k].ty.VoidTy? ::
            ValueCount(rest, k) < |tail.body| && tail.body[ValueCount(rest, k)] == PhiFor(rest, k, fr.value, fr.block, fr.block + 1))
      && tail.term == b.term.(operands := RemapOps(b.term.operands, Replaced(b, fr.value)))
  {
    ClonedTailBlock(f, idx, ctx, reMapper, fr);
    TailPhisFacts(Rest(f.blocks[idx]), fr.value, fr.block, fr.block + 1, Cloned(f, idx, ctx, reMapper, fr).blocks[idx + 3].body);
  }

  /** The tail block of `Cloned`: the rewritten `TailBlock`. */
  lemma ClonedTailBlock(f: Function, idx: nat, ctx: Value, reMapper: map<Value, Value>, fr: Fresh)
    requires idx < |f.blocks| && FreshFor(f, fr)
    ensures var b := f.blocks[idx]; var tail := Cloned(f, idx, ctx, reMapper, fr).blocks[idx + 3];
      && tail.body == TailPhis(Rest(b), |Rest(b)|, fr.value, fr.block, fr.block + 1)
      && tail.term == b.term.(operands := RemapOps(b.term.operands, Replaced(b, fr.value)))
  {
    var b := f.blocks[idx];
    assert BlockFresh(b, fr);
    var tail := Cloned(f, idx, ctx, reMapper, fr).blocks[idx + 3];
    var rb := RewriteBlock(TailBlock(b, fr), Replaced(b, fr.value), Successors(b.term), b.id, fr.block + 2);
    assert tail == rb by {
      ClonedAt(f, idx, ctx, reMapper, fr, idx + 3);
      DiamondAt(f, idx, ctx, reMapper, fr, idx + 3);
    }
    TailBodyRewritten(b, fr);
    TailTermRewritten(b, fr);
  }

  /** Every other block keeps its place and number; every use of a replaced
      instruction now names its phi, and when the block is a successor of the
      cloned one its phi entries from that block now come from the tail. */
  lemma CloneRedirects(f: Function, idx: nat, ctx: Value, reMapper: map<Value, Value>, fr: Fresh, j: nat)
    requires idx < |f.blocks| && j < |f.blocks| && j != idx
    ensures var b := f.blocks[idx]; var m := Replaced(b, fr.value); var ob := f.blocks[j];
      var nb := Cloned(f, idx, ctx, reMapper, fr).blocks[if j < idx then j else j + 3];
      var retarget := ob.id in Successors(b.term);
      && nb.id == ob.id && |nb.body| == |ob.body|
      && (forall k | 0 <= k < |ob.body| :: nb.body[k] == Rewrite(ob.body[k], m, retarget, b.id, fr.block + 2))
      && nb.term == Rewrite(ob.term, m, retarget, b.id, fr.block + 2)
  {
    var j' := if j < idx then j else j + 3;
    ClonedAt(f, idx, ctx, reMapper, fr, j');
    DiamondAt(f, idx, ctx, reMapper, fr, j');
  }

  // ---------------------------------------------------------------------
  // What CloneBB preserves

  lemma BlockFreshMono(blk: Block, fr: Fresh, fr': Fresh)
    requires BlockFresh(blk, fr) && fr.value <= fr'.value && fr.block <= fr'.block
    ensures BlockFresh(blk, fr')
  {
  }

  lemma RewriteInstFresh(i: Inst, m: map<Value, Value>, retarget: bool, from: BlockId, to: BlockId, fr: Fresh)
    requires InstFresh(i, fr) && to < fr.block
    ensures InstFresh(Rewrite(i, m, retarget, from, to), fr)
  {
    var ni := Rewrite(i, m, retarget, from, to);
    forall p | p in ni.incoming
      ensures p < fr.block
    {
      var k :| 0 <= k < |ni.incoming| && ni.incoming[k] == p;
      assert i.incoming[k] in i.incoming;
    }
  }

  lemma RewriteFresh(blk: Block, m: map<Value, Value>, succs: seq<BlockId>, from: BlockId, to: BlockId, fr: Fresh)
    requires BlockFresh(blk, fr) && to < fr.block
    requires forall v | v in m :: m[v].InstV? && v.InstV?
    ensures BlockFresh(RewriteBlock(blk, m, succs, from, to), fr)
  {
    var nb := RewriteBlock(blk, m, succs, from, to);
    RemapSuccessors(blk.term, m, blk.id in succs, from, to);
    RewriteInstFresh(blk.term, m, blk.id in succs, from, to, fr);
    forall k | 0 <= k < |nb.body|
      ensures InstFresh(nb.body[k], fr)
    {
      RewriteInstFresh(blk.body[k], m, blk.id in succs, from, to, fr);
    }
  }

  /** The four blocks of the diamond use only numbers below the new counter. */
  lemma HeadFresh(b: Block, ctx: Value, reMapper: map<Value, Value>, fr: Fresh)
    requires BlockFresh(b, fr)
    ensures BlockFresh(HeadBlock(b, ctx, reMapper, fr), NextFresh(b, fr))
  {
    var head := HeadBlock(b, ctx, reMapper, fr);
    forall k | 0 <= k < |head.body|
      ensures InstFresh(head.body[k], NextFresh(b, fr))
    {
      if k < |Phis(b)| {
        assert head.body[k] == b.body[k];
      }
    }
  }

  lemma ArmFresh(b: Block, fr: Fresh, arm: nat)
    requires BlockFresh(b, fr) && arm < 2
    ensures BlockFresh(ArmBlock(b, fr, arm), NextFresh(b, fr))
  {
    RestFresh(b, fr);
  }

  lemma TailFresh(b: Block, fr: Fresh)
    requires BlockFresh(b, fr)
    ensures BlockFresh(TailBlock(b, fr), NextFresh(b, fr))
  {
    var rest := Rest(b);
    TailPhisShape(rest, |rest|, fr.value, fr.block, fr.block + 1);
    var phis := TailPhis(rest, |rest|, fr.value, fr.block, fr.block + 1);
    forall k | 0 <= k < |phis|
      ensures InstFresh(phis[k], NextFresh(b, fr))
    {
      assert phis[k] in phis;
    }
  }

  /** The number of the `j`-th block after CloneBB. */
  function ClonedId(f: Function, idx: nat, fr: Fresh, j: nat): BlockId
    requires idx < |f.blocks| && j < |f.blocks| + 3
  {
    if j < idx then f.blocks[j].id
    else if j == idx then f.blocks[idx].id
    else if j <= idx + 3 then fr.block + (j - idx - 1)
    else f.blocks[j - 3].id
  }

  lemma ClonedIds(f: Function, idx: nat, ctx: Value, reMapper: map<Value, Value>, fr: Fresh)
    requires idx < |f.blocks|
    ensures var g := Cloned(f, idx, ctx, reMapper, fr);
      forall j | 0 <= j < |g.blocks| :: g.blocks[j].id == ClonedId(f, idx, fr, j)
  {
    var g := Cloned(f, idx, ctx, reMapper, fr);
    forall j | 0 <= j < |g.blocks|
      ensures g.blocks[j].id == ClonedId(f, idx, fr, j)
    {
      ClonedAt(f, idx, ctx, reMapper, fr, j);
      DiamondAt(f, idx, ctx, reMapper, fr, j);
    }
  }

  lemma ClonedIdsDistinct(f: Function, idx: nat, fr: Fresh, i: nat, j: nat)
    requires idx < |f.blocks| && FreshFor(f, fr) && UniqueBlockIds(f) && i < j < |f.blocks| + 3
    ensures ClonedId(f, idx, fr, i) != ClonedId(f, idx, fr, j)
  {
    var i0 := if i < idx then i else if i > idx + 3 then i - 3 else idx;
    var j0 := if j < idx then j else if j > idx + 3 then j - 3 else idx;
    assert BlockFresh(f.blocks[i0], fr) && BlockFresh(f.blocks[j0], fr);
  }

  /** CloneBB keeps block numbers distinct. */
  lemma CloneKeepsIdsUnique(f: Function, idx: nat, ctx: Value, reMapper: map<Value, Value>, fr: Fresh)
    requires idx < |f.blocks| && FreshFor(f, fr) && UniqueBlockIds(f)
    ensures UniqueBlockIds(Cloned(f, idx, ctx, reMapper, fr))
  {
    var g := Cloned(f, idx, ctx, reMapper, fr);
    ClonedIds(f, idx, ctx, reMapper, fr);
    forall i, j | 0 <= i < j < |g.blocks|
      ensures g.blocks[i].id != g.blocks[j].id
    {
      ClonedIdsDistinct(f, idx, fr, i, j);
    }
  }

  lemma ClonedBlockFresh(f: Function, idx: nat, ctx: Value, reMapper: map<Value, Value>, fr: Fresh, j: nat)
    requires idx < |f.blocks| && FreshFor(f, fr) && j < |f.blocks| + 3
    ensures BlockFresh(Cloned(f, idx, ctx, reMapper, fr).blocks[j], NextFresh(f.blocks[idx], fr))
  {
    var b := f.blocks[idx];
    var fr' := NextFresh(b, fr);
    assert BlockFresh(b, fr);
    ReplacedFresh(b, fr);
    ClonedAt(f, idx, ctx, reMapper, fr, j);
    DiamondAt(f, idx, ctx, reMapper, fr, j);
    var d := Diamond(f, idx, ctx, reMapper, fr)[j];
    if j < idx || j > idx + 3 {
      var j0 := if j < idx then j else j - 3;
      assert BlockFresh(f.blocks[j0], fr);
      BlockFreshMono(f.blocks[j0], fr, fr');
    } else if j == idx {
      HeadFresh(b, ctx, reMapper, fr);
    } else if j < idx + 3 {
      ArmFresh(b, fr, j - idx - 1);
    } else {
      TailFresh(b, fr);
    }
    RewriteFresh(d, Replaced(b, fr.value), Successors(b.term), b.id, fr.block + 2, fr');
  }

  /** CloneBB keeps the counter above every number in use. */
  lemma CloneKeepsFresh(f: Function, idx: nat, ctx: Value, reMapper: map<Value, Value>, fr: Fresh)
    requires idx < |f.blocks| && FreshFor(f, fr)
    ensures FreshFor(Cloned(f, idx, ctx, reMapper, fr), NextFresh(f.blocks[idx], fr))
  {
    var g := Cloned(f, idx, ctx, reMapper, fr);
    forall j | 0 <= j < |g.blocks|
      ensures BlockFresh(g.blocks[j], NextFresh(f.blocks[idx], fr))
    {
      ClonedBlockFresh(f, idx, ctx, reMapper, fr, j);
    }
  }

  lemma IndexOfUnique(g: Function, id: BlockId, p: nat)
    requires UniqueBlockIds(g) && p < |g.blocks| && g.blocks[p].id == id
    ensures IndexOfBlock(g.blocks, id) == Some(p)
  {
  }

  /** The block numbered `id` ends in a conditional branch. */
  predicate EndsInCondBr(g: Function, id: BlockId) {
    IndexOfBlock(g.blocks, id).Some? && IsConditionalBr(g.blocks[IndexOfBlock(g.blocks, id).value].term)
  }

  /** After CloneBB every block is still there, the cloned one ends in a
      conditional branch, and every other block keeps the kind of its
      terminator. */
  lemma CloneKeepsBlock(g: Function, idx: nat, ctx: Value, reMapper: map<Value, Value>, fr: Fresh, id: BlockId)
    requires idx < |g.blocks| && FreshFor(g, fr) && UniqueBlockIds(g) && IndexOfBlock(g.blocks, id).Some?
    ensures IndexOfBlock(Cloned(g, idx, ctx, reMapper, fr).blocks, id).Some?
    ensures id != g.blocks[idx].id && EndsInCondBr(g, id) ==> EndsInCondBr(Cloned(g, idx, ctx, reMapper, fr), id)
    ensures EndsInCondBr(Cloned(g, idx, ctx, reMapper, fr), g.blocks[idx].id)
  {
    var h := Cloned(g, idx, ctx, reMapper, fr);
    CloneKeepsIdsUnique(g, idx, ctx, reMapper, fr);
    ClonedIds(g, idx, ctx, reMapper, fr);
    var p := IndexOfBlock(g.blocks, id).value;
    var p' := if p < idx then p else if p == idx then idx else p + 3;
    assert h.blocks[p'].id == id;
    IndexOfUnique(h, id, p');
    if p != idx {
      CloneRedirects(g, idx, ctx, reMapper, fr, p);
    }
    CloneHead(g, idx, ctx, reMapper, fr);
    IndexOfUnique(h, g.blocks[idx].id, idx);
  }

  /** The targets name distinct blocks. */
  predicate DistinctBlocks(ts: seq<Target>) {
    forall j, j' | 0 <= j < j' < |ts| :: ts[j].block != ts[j'].block
  }

  /** One turn of the cloning loop keeps its invariant. */
  lemma CloneStep(f: Function, g: Function, idx: nat, reMapper: map<Value, Value>, cur: Fresh, ts: seq<Target>, i: nat)
    requires i < |ts| && DistinctBlocks(ts) && idx < |g.blocks| && g.blocks[idx].id == ts[i].block
    requires UniqueBlockIds(g) && FreshFor(g, cur)
    requires forall b | b in f.blocks :: IndexOfBlock(g.blocks, b.id).Some?
    requires forall j | 0 <= j < |ts| :: IndexOfBlock(g.blocks, ts[j].block).Some?
    requires forall j | 0 <= j < i :: EndsInCondBr(g, ts[j].block)
    ensures var g' := Cloned(g, idx, ts[i].context, reMapper, cur);
      && UniqueBlockIds(g') && FreshFor(g', NextFresh(g.blocks[idx], cur))
      && (forall b | b in f.blocks :: IndexOfBlock(g'.blocks, b.id).Some?)
      && (forall j | 0 <= j < |ts| :: IndexOfBlock(g'.blocks, ts[j].block).Some?)
      && (forall j | 0 <= j <= i :: EndsInCondBr(g', ts[j].block))
  {
    var ctx := ts[i].context;
    var g' := Cloned(g, idx, ctx, reMapper, cur);
    CloneKeepsIdsUnique(g, idx, ctx, reMapper, cur);
    CloneKeepsFresh(g, idx, ctx, reMapper, cur);
    forall b | b in f.blocks
      ensures IndexOfBlock(g'.blocks, b.id).Some?
    {
      CloneKeepsBlock(g, idx, ctx, reMapper, cur, b.id);
    }
    forall j | 0 <= j < |ts|
      ensures IndexOfBlock(g'.blocks, ts[j].block).Some?
      ensures j <= i ==> EndsInCondBr(g', ts[j].block)
    {
      CloneKeepsBlock(g, idx, ctx, reMapper, cur, ts[j].block);
    }
  }

  /** The pass on one function: the reachable integer values are those the
      pass's own copy of `BuildRiv` computes from the dominator tree `root`,
      one-hop propagation included (duplicate_bb.cc:96-97), the targets from `FindBBsToDuplicate`, and each
      target is cloned in turn, `re_mapper` carried from one to the next.
      `gs` are the module's globals; `fr` numbers the new blocks and values. */
  method RunOnFunction(gs: seq<Global>, f: Function, root: Riv.DomNode, draws: seq<nat>, fr: Fresh)
    returns (g: Function, ghost riv: Riv.RivMap, ghost targets: seq<Target>)
    requires Riv.IsDomTreeOf(f, root) && |draws| == |f.blocks|
    requires FreshFor(f, fr) && UniqueBlockIds(f)
    ensures Riv.IsAsWritten(riv, gs, f, Riv.Edges(root))
    ensures forall t | t in targets :: t.context in Riv.Lookup(riv, t.block) && !IsGlobalValue(t.context)
    ensures forall k | 0 <= k < |f.blocks| && Eligible(f.blocks[k], riv) &&
      (forall v | v in Riv.Lookup(riv, f.blocks[k].id) :: !IsGlobalValue(v)) ::
      exists t | t in targets :: t.block == f.blocks[k].id
    ensures |g.blocks| == |f.blocks| + 3 * |targets|
    ensures UniqueBlockIds(g)
    ensures forall b | b in f.blocks :: IndexOfBlock(g.blocks, b.id).Some?
    ensures forall t | t in targets :: EndsInCondBr(g, t.block)
  {
    var rivs, _ := Riv.BuildRiv(gs, f, root);
    riv := rivs;
    var ts, picked := FindBBsToDuplicate(f, rivs, draws);
    targets := ts;
    TargetsFacts(f, rivs, ts, picked);
    var reMapper: map<Value, Value> := map[];
    var cur := fr;
    g := f;
    for i := 0 to |ts|
      invariant |g.blocks| == |f.blocks| + 3 * i
      invariant UniqueBlockIds(g) && FreshFor(g, cur)
      invariant forall b | b in f.blocks :: IndexOfBlock(g.blocks, b.id).Some?
      invariant forall j | 0 <= j < |ts| :: IndexOfBlock(g.blocks, ts[j].block).Some?
      invariant forall j | 0 <= j < i :: EndsInCondBr(g, ts[j].block)
    {
      var t := ts[i];
      var idx := IndexOfBlock(g.blocks, t.block).value;
      CloneStep(f, g, idx, reMapper, cur, ts, i);
      g, reMapper, cur := CloneBB(g, t.block, t.context, reMapper, cur);
    }
  }

  /** What the targets of `FindBBsToDuplicate` are, seen from the blocks. */
  lemma TargetsFacts(f: Function, riv: Riv.RivMap, ts: seq<Target>, picked: seq<nat>)
    requires UniqueBlockIds(f) && |picked| == |ts|
    requires forall j | 0 <= j < |ts| :: picked[j] < |f.blocks| && ts[j].block == f.blocks[picked[j]].id
    requires forall j, j' | 0 <= j < j' < |ts| :: picked[j] < picked[j']
    requires forall k | 0 <= k < |f.blocks| && Eligible(f.blocks[k], riv) &&
      (forall v | v in Riv.Lookup(riv, f.blocks[k].id) :: !IsGlobalValue(v)) :: k in picked
    ensures DistinctBlocks(ts)
    ensures forall j | 0 <= j < |ts| :: IndexOfBlock(f.blocks, ts[j].block).Some?
    ensures forall k | 0 <= k < |f.blocks| && Eligible(f.blocks[k], riv) &&
      (forall v | v in Riv.Lookup(riv, f.blocks[k].id) :: !IsGlobalValue(v)) ::
      exists t | t in ts :: t.block == f.blocks[k].id
  {
    forall j | 0 <= j < |ts|
      ensures IndexOfBlock(f.blocks, ts[j].block).Some?
    {
      assert f.blocks[picked[j]].id == ts[j].block;
    }
    forall k | 0 <= k < |f.blocks| && Eligible(f.blocks[k], riv) &&
      (forall v | v in Riv.Lookup(riv, f.blocks[k].id) :: !IsGlobalValue(v))
      ensures exists t | t in ts :: t.block == f.blocks[k].id
    {
      var j :| 0 <= j < |picked| && picked[j] == k;
      assert ts[j] in ts;
    }
  }

  // ---------------------------------------------------------------------
  // What the arms compute

  /** Each of the first `k` clones holds its original's value. */
  ghost predicate ClonesHold(rest: seq<Inst>, base: ValueId, arm: nat, k: nat, e1: Exec.Env, e2: Exec.Env)
    requires k <= |rest|
  {
    forall j | 0 <= j < k :: Exec.Get(e2, InstV(ArmId(base, arm, j))) == Exec.Get(e1, InstV(rest[j].id))
  }

  /** Every value numbered below `base` reads in `e'` as in `e`. */
  ghost predicate LowKept(base: ValueId, e: Exec.Env, e': Exec.Env) {
    forall v | Exec.Low(v, base) :: Exec.Get(e', v) == Exec.Get(e, v)
  }

  /** Every value below `base` but the first `k` instructions of `rest`
      reads in `e'` as in `e`. */
  ghost predicate OthersKept(rest: seq<Inst>, base: ValueId, k: nat, e: Exec.Env, e': Exec.Env)
    requires k <= |rest|
  {
    forall v | Exec.Low(v, base) && (forall j | 0 <= j < k :: v != InstV(rest[j].id)) :: Exec.Get(e', v) == Exec.Get(e, v)
  }

  /** After the first `k` instructions of `rest`, run from `e` into `e1`,
      and their clones in one arm, run from `e` into `e2`: every clone holds
      its original's value, the clones left every value numbered below
      `base` as it was, and the originals changed only their own values. */
  ghost predicate ArmAgrees(rest: seq<Inst>, base: ValueId, arm: nat, k: nat, e: Exec.Env, e1: Exec.Env, e2: Exec.Env)
    requires k <= |rest|
  {
    ClonesHold(rest, base, arm, k, e1, e2) && LowKept(base, e, e2) && OthersKept(rest, base, k, e, e1)
  }

  /** The `k`-th clone reads the same operand values as its original. */
  lemma CloneReadsAlike(rest: seq<Inst>, base: ValueId, arm: nat, k: nat, e: Exec.Env, e1: Exec.Env, e2: Exec.Env)
    requires k < |rest| && arm < 2 && DistinctIds(rest) && Exec.Scoped(rest, base)
    requires ArmAgrees(rest, base, arm, k, e, e1, e2)
    ensures Exec.Values(e2, CloneOf(rest, k, base, arm).operands) == Exec.Values(e1, rest[k].operands)
  {
    var ops := rest[k].operands;
    var c := CloneOf(rest, k, base, arm);
    forall o | 0 <= o < |ops|
      ensures Exec.Get(e2, c.operands[o]) == Exec.Get(e1, ops[o])
    {
      assert ops[o] in ops;
      if j :| 0 <= j < k && ops[o] == InstV(rest[j].id) {
        ArmMapAt(rest, k, base, arm, j);
      } else {
        MapsMiss(rest, k, base, arm, ops[o]);
      }
    }
  }

  /** The `k`-th clone computes what its original computes. */
  lemma CloneComputesAlike(rest: seq<Inst>, base: ValueId, arm: nat, k: nat, e: Exec.Env, e1: Exec.Env, e2: Exec.Env, ext: Exec.Ext)
    requires k < |rest| && arm < 2 && DistinctIds(rest) && Exec.Scoped(rest, base)
    requires ArmAgrees(rest, base, arm, k, e, e1, e2)
    ensures Exec.Result(CloneOf(rest, k, base, arm), e2, ext) == Exec.Result(rest[k], e1, ext)
  {
    var i := rest[k];
    var c := CloneOf(rest, k, base, arm);
    CloneReadsAlike(rest, base, arm, k, e, e1, e2);
    assert c.op == i.op && c.ty == i.ty && c.incoming == i.incoming;
    if Exec.IsIntBinary(i) {
      assert Exec.Get(e2, c.operands[0]) == Exec.Get(e1, i.operands[0]);
      assert Exec.Get(e2, c.operands[1]) == Exec.Get(e1, i.operands[1]);
    }
  }

  /** Storing the `k`-th result under its original and under its clone
      keeps every clone up to it beside its original. */
  lemma ClonesHoldStep(rest: seq<Inst>, base: ValueId, arm: nat, k: nat, e1: Exec.Env, e2: Exec.Env, x: int)
    requires k < |rest| && arm < 2 && DistinctIds(rest)
    requires ClonesHold(rest, base, arm, k, e1, e2)
    ensures ClonesHold(rest, base, arm, k + 1, e1[InstV(rest[k].id) := x], e2[InstV(ArmId(base, arm, k)) := x])
  {
    forall j | 0 <= j < k + 1
      ensures Exec.Get(e2[InstV(ArmId(base, arm, k)) := x], InstV(ArmId(base, arm, j))) ==
              Exec.Get(e1[InstV(rest[k].id) := x], InstV(rest[j].id))
    {
      if j < k {
        assert rest[j].id != rest[k].id;
        assert ArmId(base, arm, j) != ArmId(base, arm, k);
      }
    }
  }

  /** Storing a clone's result leaves everything below `base` alone. */
  lemma LowKeptStep(base: ValueId, arm: nat, k: nat, e: Exec.Env, e2: Exec.Env, x: int)
    requires LowKept(base, e, e2)
    ensures LowKept(base, e, e2[InstV(ArmId(base, arm, k)) := x])
  {
  }

  /** Storing the `k`-th original's result changes only its own value. */
  lemma OthersKeptStep(rest: seq<Inst>, base: ValueId, k: nat, e: Exec.Env, e1: Exec.Env, x: int)
    requires k < |rest|
    requires OthersKept(rest, base, k, e, e1)
    ensures OthersKept(rest, base, k + 1, e, e1[InstV(rest[k].id) := x])
  {
    forall v | Exec.Low(v, base) && (forall j | 0 <= j < k + 1 :: v != InstV(rest[j].id))
      ensures Exec.Get(e1[InstV(rest[k].id) := x], v) == Exec.Get(e, v)
    {
      assert v != InstV(rest[k].id);
    }
  }

  /** One more instruction and its clone keep the two runs in step. */
  lemma ArmStep(rest: seq<Inst>, base: ValueId, arm: nat, k: nat, e: Exec.Env, e1: Exec.Env, e2: Exec.Env, ext: Exec.Ext)
    requires k < |rest| && arm < 2 && DistinctIds(rest) && Exec.Scoped(rest, base)
    requires ArmAgrees(rest, base, arm, k, e, e1, e2)
    ensures ArmAgrees(rest, base, arm, k + 1, e, Exec.Step(rest[k], e1, ext),
                      Exec.Step(ArmBody(rest, base, arm)[k], e2, ext))
  {
    var x := Exec.Result(rest[k], e1, ext);
    CloneComputesAlike(rest, base, arm, k, e, e1, e2, ext);
    assert ArmBody(rest, base, arm)[k] == CloneOf(rest, k, base, arm);
    ClonesHoldStep(rest, base, arm, k, e1, e2, x);
    LowKeptStep(base, arm, k, e, e2, x);
    OthersKeptStep(rest, base, k, e, e1, x);
  }

  /** The environment after the instructions of `s` from the `k`-th on,
      run from `e`. */
  ghost function RunFrom(s: seq<Inst>, k: nat, e: Exec.Env, ext: Exec.Ext): Exec.Env
    requires k <= |s|
    decreases |s| - k
  {
    if k == |s| then e else RunFrom(s, k + 1, Exec.Step(s[k], e, ext), ext)
  }

  /** Running `s` from its `k`-th instruction is running `s[k..]`. */
  lemma {:induction false} RunFromIsRun(s: seq<Inst>, k: nat, e: Exec.Env, ext: Exec.Ext)
    requires k <= |s|
    ensures RunFrom(s, k, e, ext) == Exec.Run(s[k..], e, ext)
    decreases |s| - k
  {
    if k < |s| {
      RunFromIsRun(s, k + 1, Exec.Step(s[k], e, ext), ext);
      Exec.RunAt(s, k, e, ext);
    } else {
      assert s[k..] == [];
    }
  }

  /** Two runs in step after the first `k` instructions and their clones
      stay in step to the end. */
  lemma {:induction false} ArmRuns(rest: seq<Inst>, base: ValueId, arm: nat, k: nat, e: Exec.Env, e1: Exec.Env, e2: Exec.Env, ext: Exec.Ext)
    requires k <= |rest| && arm < 2 && DistinctIds(rest) && Exec.Scoped(rest, base)
    requires ArmAgrees(rest, base, arm, k, e, e1, e2)
    ensures ArmAgrees(rest, base, arm, |rest|, e, RunFrom(rest, k, e1, ext), RunFrom(ArmBody(rest, base, arm), k, e2, ext))
    decreases |rest| - k
  {
    if k < |rest| {
      var body := ArmBody(rest, base, arm);
      var e1', e2' := Exec.Step(rest[k], e1, ext), Exec.Step(body[k], e2, ext);
      ArmStep(rest, base, arm, k, e, e1, e2, ext);
      ArmRuns(rest, base, arm, k + 1, e, e1', e2', ext);
      assert RunFrom(rest, k, e1, ext) == RunFrom(rest, k + 1, e1', ext);
      assert RunFrom(body, k, e2, ext) == RunFrom(body, k + 1, e2', ext);
    }
  }

  /** Clone semantic equivalence: whichever arm the test of the context
      selects, running its clones from the environment the original block
      would start from gives each clone the value its original instruction
      computes, and leaves every value numbered below `base` unchanged. */
  lemma ArmComputes(rest: seq<Inst>, base: ValueId, arm: nat, e: Exec.Env, ext: Exec.Ext)
    requires arm < 2 && DistinctIds(rest) && Exec.Scoped(rest, base)
    ensures forall k | 0 <= k < |rest| ::
      Exec.Get(Exec.Run(ArmBody(rest, base, arm), e, ext), InstV(ArmId(base, arm, k))) ==
      Exec.Get(Exec.Run(rest, e, ext), InstV(rest[k].id))
    ensures forall v | Exec.Low(v, base) :: Exec.Get(Exec.Run(ArmBody(rest, base, arm), e, ext), v) == Exec.Get(e, v)
  {
    var body := ArmBody(rest, base, arm);
    assert ArmAgrees(rest, base, arm, 0, e, e, e);
    ArmRuns(rest, base, arm, 0, e, e, e, ext);
    RunFromIsRun(rest, 0, e, ext);
    RunFromIsRun(body, 0, e, ext);
    assert rest[0..] == rest && body[0..] == body;
  }

  /** Every operand naming an instruction of `rest` names an earlier one,
      as SSA form demands of the straight-line part of a block. */
  predicate DefinedBefore(rest: seq<Inst>) {
    forall k, o, j | 0 <= k < |rest| && 0 <= o < |rest[k].operands| && 0 <= j < |rest| &&
      rest[k].operands[o] == InstV(rest[j].id) :: j < k
  }

  /** In SSA form, each arm `Cloned` builds holds exactly the clones
      `ArmBody` describes: the replacement of the originals by the tail's
      phis touches no operand of a clone. */
  lemma ClonedArmBody(f: Function, idx: nat, ctx: Value, reMapper: map<Value, Value>, fr: Fresh, arm: nat)
    requires idx < |f.blocks| && FreshFor(f, fr) && DistinctIds(Rest(f.blocks[idx])) && arm < 2
    requires DefinedBefore(Rest(f.blocks[idx]))
    ensures Cloned(f, idx, ctx, reMapper, fr).blocks[idx + 1 + arm].body == ArmBody(Rest(f.blocks[idx]), fr.value, arm)
  {
    var rest := Rest(f.blocks[idx]);
    var body := Cloned(f, idx, ctx, reMapper, fr).blocks[idx + 1 + arm].body;
    var clones := ArmBody(rest, fr.value, arm);
    CloneArm(f, idx, ctx, reMapper, fr, arm);
    forall k | 0 <= k < |rest|
      ensures body[k] == clones[k]
    {
      forall o | 0 <= o < |rest[k].operands|
        ensures body[k].operands[o] == clones[k].operands[o]
      {
        if j :| 0 <= j < |rest| && rest[k].operands[o] == InstV(rest[j].id) {
          ArmMapAt(rest, k, fr.value, arm, j);
        } else {
          MapsMiss(rest, k, fr.value, arm, rest[k].operands[o]);
        }
      }
    }
  }

  /** Clone semantic equivalence for the function CloneBB returns: in SSA
      form, each arm of the diamond, run from the environment the block
      would start from after its phis, gives every clone the value its
      original computes, and changes no value numbered below the counter. */
  lemma ClonedArmComputes(f: Function, idx: nat, ctx: Value, reMapper: map<Value, Value>, fr: Fresh, arm: nat,
                          e: Exec.Env, ext: Exec.Ext)
    requires idx < |f.blocks| && FreshFor(f, fr) && arm < 2
    requires DistinctIds(Rest(f.blocks[idx])) && DefinedBefore(Rest(f.blocks[idx]))
    requires Exec.Scoped(Rest(f.blocks[idx]), fr.value)
    ensures var body := Cloned(f, idx, ctx, reMapper, fr).blocks[idx + 1 + arm].body;
      var rest := Rest(f.blocks[idx]);
      && |body| == |rest|
      && (forall k | 0 <= k < |rest| ::
            Exec.Get(Exec.Run(body, e, ext), InstV(body[k].id)) == Exec.Get(Exec.Run(rest, e, ext), InstV(rest[k].id)))
      && (forall v | Exec.Low(v, fr.value) :: Exec.Get(Exec.Run(body, e, ext), v) == Exec.Get(e, v))
  {
    ClonedArmBody(f, idx, ctx, reMapper, fr, arm);
    ArmComputes(Rest(f.blocks[idx]), fr.value, arm, e, ext);
  }
}
