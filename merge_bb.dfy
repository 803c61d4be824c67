/** The block-merging pass of merge_bb.cc: a block `bb1` that ends in an
    unconditional branch is merged into a partner `bb2` that branches to the
    same successor with the same instructions, by pointing every edge into
    `bb1` at `bb2` and deleting `bb1` once the whole function has been
    scanned.

    An instruction of a function is named by its `Pos`; a value's uses are
    the operand slots of the function's instructions that hold it. */
module MergeBB {
  import opened IR

  /** Which reading of the pass runs: the code as written, with the two
      tests of merge_bb.cc:36 and merge_bb.cc:150-154 as they behave, or
      the pass as its comments intend those tests to behave. */
  datatype Version = AsWritten | Intended

  // ---------------------------------------------------------------------
  // Positions and uses
  // ---------------------------------------------------------------------

  /** The instruction `Insts(f.blocks[block])[index]`. */
  datatype Pos = Pos(block: nat, index: nat)

  predicate ValidPos(f: Function, p: Pos) {
    p.block < |f.blocks| && p.index < |Insts(f.blocks[p.block])|
  }

  function At(f: Function, p: Pos): Inst
    requires ValidPos(f, p)
  {
    Insts(f.blocks[p.block])[p.index]
  }

  /** The number of slots of `ops` that hold `v`. */
  function Occurrences(ops: seq<Value>, v: Value): (n: nat)
    ensures n == 0 <==> v !in ops
  {
    if ops == [] then 0
    else
      assert ops == ops[..|ops| - 1] + [ops[|ops| - 1]];
      Occurrences(ops[..|ops| - 1], v) + (if ops[|ops| - 1] == v then 1 else 0)
  }

  function InstUses(s: seq<Inst>, v: Value): nat {
    if s == [] then 0 else Occurrences(s[0].operands, v) + InstUses(s[1..], v)
  }

  function BlockUses(bs: seq<Block>, v: Value): nat {
    if bs == [] then 0 else InstUses(Insts(bs[0]), v) + BlockUses(bs[1..], v)
  }

  /** `Value::getNumUses`: `hasOneUse()` is `NumUses(..) == 1` and
      `user_empty()` is `NumUses(..) == 0`. */
  function NumUses(f: Function, v: Value): nat {
    BlockUses(f.blocks, v)
  }

  /** The first instruction of `s` that uses `v`. */
  function FirstUsing(s: seq<Inst>, v: Value): (r: Option<nat>)
    ensures r.Some? ==> r.value < |s| && v in s[r.value].operands
    ensures r.None? <==> InstUses(s, v) == 0
  {
    if s == [] then None
    else if v in s[0].operands then Some(0)
    else match FirstUsing(s[1..], v)
      case None => None
      case Some(k) => Some(k + 1)
  }

  /** `*user_begin()`: the user of `v` found first. With one use it is the
      only user (`SingleUseInBlocks`). */
  function FirstUserIn(bs: seq<Block>, v: Value): (r: Option<Pos>)
    ensures r.Some? ==> r.value.block < |bs| && r.value.index < |Insts(bs[r.value.block])|
    ensures r.Some? ==> v in Insts(bs[r.value.block])[r.value.index].operands
    ensures r.None? <==> BlockUses(bs, v) == 0
  {
    if bs == [] then None
    else match FirstUsing(Insts(bs[0]), v)
      case Some(k) => Some(Pos(0, k))
      case None =>
        match FirstUserIn(bs[1..], v)
        case None => None
        case Some(q) => Some(Pos(q.block + 1, q.index))
  }

  lemma {:induction false} InstUsesPositive(s: seq<Inst>, v: Value, j: nat)
    requires j < |s| && v in s[j].operands
    ensures InstUses(s, v) >= 1
  {
    if j > 0 {
      InstUsesPositive(s[1..], v, j - 1);
    }
  }

  lemma {:induction false} SingleUseInInsts(s: seq<Inst>, v: Value, j: nat)
    requires j < |s| && v in s[j].operands && InstUses(s, v) == 1
    ensures FirstUsing(s, v) == Some(j)
  {
    if v in s[0].operands {
      if j > 0 {
        InstUsesPositive(s[1..], v, j - 1);
      }
    } else {
      SingleUseInInsts(s[1..], v, j - 1);
    }
  }

  lemma {:induction false} BlockUsesPositive(bs: seq<Block>, v: Value, p: Pos)
    requires p.block < |bs| && p.index < |Insts(bs[p.block])|
    requires v in Insts(bs[p.block])[p.index].operands
    ensures BlockUses(bs, v) >= 1
  {
    if p.block == 0 {
      InstUsesPositive(Insts(bs[0]), v, p.index);
    } else {
      BlockUsesPositive(bs[1..], v, Pos(p.block - 1, p.index));
    }
  }

  /** A value with exactly one use has exactly one user, and it is the one
      `*user_begin()` returns. */
  lemma {:induction false} SingleUseInBlocks(bs: seq<Block>, v: Value, p: Pos)
    requires p.block < |bs| && p.index < |Insts(bs[p.block])|
    requires v in Insts(bs[p.block])[p.index].operands
    requires BlockUses(bs, v) == 1
    ensures FirstUserIn(bs, v) == Some(p)
  {
    if p.block == 0 {
      InstUsesPositive(Insts(bs[0]), v, p.index);
      SingleUseInInsts(Insts(bs[0]), v, p.index);
    } else {
      BlockUsesPositive(bs[1..], v, Pos(p.block - 1, p.index));
      assert InstUses(Insts(bs[0]), v) == 0;
      SingleUseInBlocks(bs[1..], v, Pos(p.block - 1, p.index));
    }
  }

  // ---------------------------------------------------------------------
  // CanRemoveInst (merge_bb.cc:33-46)
  // ---------------------------------------------------------------------

  /** `PHINode::getIncomingValueForBlock`: the value received along the
      first entry from `b`. Valid IR always has such an entry when `b` is a
      predecessor; `None` stands for the missing entry LLVM would assert on. */
  function IncomingFrom(ops: seq<Value>, inc: seq<BlockId>, b: BlockId): (r: Option<Value>)
    ensures r.None? <==> forall k :: 0 <= k < |ops| && k < |inc| ==> inc[k] != b
    ensures r.Some? ==> exists k :: 0 <= k < |ops| && k < |inc| && inc[k] == b && ops[k] == r.value
  {
    if ops == [] || inc == [] then None
    else if inc[0] == b then Some(ops[0])
    else
      var r := IncomingFrom(ops[1..], inc[1..], b);
      assert r.Some? ==> exists k :: 0 <= k < |ops| - 1 && k < |inc| - 1 && inc[1..][k] == b && ops[1..][k] == r.value;
      assert r.Some? ==> exists k :: 1 <= k < |ops| && k < |inc| && inc[k] == b && ops[k] == r.value by {
        if r.Some? {
          var k :| 0 <= k < |ops| - 1 && k < |inc| - 1 && inc[1..][k] == b && ops[1..][k] == r.value;
          assert inc[k + 1] == b && ops[k + 1] == r.value;
        }
      }
      assert r.None? ==> forall k :: 0 <= k < |ops| && k < |inc| ==> inc[k] != b by {
        if r.None? {
          forall k | 0 <= k < |ops| && k < |inc| ensures inc[k] != b {
            if k > 0 {
              assert inc[1..][k - 1] == inc[k];
            }
          }
        }
      }
      r
  }

  function IncomingValue(phi: Inst, b: BlockId): Option<Value> {
    IncomingFrom(phi.operands, phi.incoming, b)
  }

  /** `getTerminator()->getSuccessor(0)`. */
  function FirstSuccessor(b: Block): BlockId
    requires |Successors(b.term)| > 0
  {
    Successors(b.term)[0]
  }

  /** What the header promises of the single user `u` of the instruction at
      `p`: it sits in the same block (and goes away with it), or it is a phi
      of the first successor receiving the instruction along the edge from
      the instruction's block. */
  predicate RemovableUser(f: Function, p: Pos, u: Pos)
    requires ValidPos(f, p) && ValidPos(f, u)
    requires |Successors(f.blocks[p.block].term)| > 0
  {
    var parent := f.blocks[p.block];
    var user := At(f, u);
    var sameParent := u.block == p.block;
    var usedInPhi :=
      user.op.Phi? && f.blocks[u.block].id == FirstSuccessor(parent) &&
      IncomingValue(user, parent.id) == Some(InstV(At(f, p).id));
    usedInPhi || sameParent
  }

  /** `CanRemoveInst`, with the phi test applied to the user of the
      instruction. The callers guarantee the single use and a successor. */
  function CanRemoveInst(f: Function, p: Pos): (r: bool)
    requires ValidPos(f, p)
    requires NumUses(f, InstV(At(f, p).id)) == 1
    requires |Successors(f.blocks[p.block].term)| > 0
    ensures r ==> exists u :: ValidPos(f, u) && InstV(At(f, p).id) in At(f, u).operands && RemovableUser(f, p, u)
  {
    match FirstUserIn(f.blocks, InstV(At(f, p).id))
    case None => false
    case Some(u) => RemovableUser(f, p, u)
  }

  /** `CanRemoveInst` as written: `*(inst->use_begin())` is a `Use`, and
      `dyn_cast` looks through a `Use` to the value used, which is `inst`
      itself. So the phi test only fires when `inst` is itself a phi. */
  function CanRemoveInstAsWritten(f: Function, p: Pos): (r: bool)
    requires ValidPos(f, p)
    requires NumUses(f, InstV(At(f, p).id)) == 1
    requires |Successors(f.blocks[p.block].term)| > 0
    ensures r ==> CanRemoveInst(f, p) || At(f, p).op.Phi?
  {
    var inst := At(f, p);
    var parent := f.blocks[p.block];
    var phiNodeUse := if inst.op.Phi? then Some(inst) else None;
    match FirstUserIn(f.blocks, InstV(inst.id))
    case None => false
    case Some(u) =>
      var sameParent := u.block == p.block;
      var usedInPhi :=
        phiNodeUse.Some? && parent.id == FirstSuccessor(parent) &&
        IncomingValue(phiNodeUse.value, parent.id) == Some(InstV(inst.id));
      usedInPhi || sameParent
  }

  /** The `CanRemoveInst` test the given version of the pass runs. */
  function Removable(f: Function, p: Pos, v: Version): bool
    requires ValidPos(f, p)
    requires NumUses(f, InstV(At(f, p).id)) == 1
    requires |Successors(f.blocks[p.block].term)| > 0
  {
    if v == AsWritten then CanRemoveInstAsWritten(f, p) else CanRemoveInst(f, p)
  }

  /** `CanRemoveInst` holds exactly when the one user of the instruction is
      removable in the sense of the header comment. */
  lemma CanRemoveInstIff(f: Function, p: Pos)
    requires ValidPos(f, p)
    requires NumUses(f, InstV(At(f, p).id)) == 1
    requires |Successors(f.blocks[p.block].term)| > 0
    ensures CanRemoveInst(f, p) <==>
      exists u :: ValidPos(f, u) && InstV(At(f, p).id) in At(f, u).operands && RemovableUser(f, p, u)
  {
    var v := InstV(At(f, p).id);
    if !CanRemoveInst(f, p) {
      forall u | ValidPos(f, u) && v in At(f, u).operands
        ensures !RemovableUser(f, p, u)
      {
        SingleUseInBlocks(f.blocks, v, u);
      }
    }
  }

  /** As written, a non-phi instruction is removable only when its user is
      in its own block: a phi user in the successor is never recognised. */
  lemma AsWrittenOnlySameBlock(f: Function, p: Pos)
    requires ValidPos(f, p)
    requires NumUses(f, InstV(At(f, p).id)) == 1
    requires |Successors(f.blocks[p.block].term)| > 0
    requires !At(f, p).op.Phi?
    ensures CanRemoveInstAsWritten(f, p) <==>
      exists u :: ValidPos(f, u) && InstV(At(f, p).id) in At(f, u).operands && u.block == p.block
  {
    var v := InstV(At(f, p).id);
    if !CanRemoveInstAsWritten(f, p) {
      forall u | ValidPos(f, u) && v in At(f, u).operands
        ensures u.block != p.block
      {
        SingleUseInBlocks(f.blocks, v, u);
      }
    }
  }

  /** The discrepancy: an instruction used only by the successor's phi,
      along the edge from its own block, is removable, but the code as
      written refuses it. */
  lemma AsWrittenMissesPhiUser(f: Function, p: Pos, u: Pos)
    requires ValidPos(f, p) && ValidPos(f, u)
    requires NumUses(f, InstV(At(f, p).id)) == 1
    requires |Successors(f.blocks[p.block].term)| > 0
    requires !At(f, p).op.Phi? && u.block != p.block
    requires InstV(At(f, p).id) in At(f, u).operands
    requires At(f, u).op.Phi? && f.blocks[u.block].id == FirstSuccessor(f.blocks[p.block])
    requires IncomingValue(At(f, u), f.blocks[p.block].id) == Some(InstV(At(f, p).id))
    ensures CanRemoveInst(f, p)
    ensures !CanRemoveInstAsWritten(f, p)
  {
    SingleUseInBlocks(f.blocks, InstV(At(f, p).id), u);
  }

  /** A two-block instance: `%1 = add %a, %a; br %2` followed by
      `%2: %3 = phi [%1, %1]`. */
  lemma AsWrittenMissesPhiUserExample()
    ensures var f := Function("f", [Arg(0, IntTy(32))], [
                Block(1, [Inst(10, Add, IntTy(32), [ArgV(0), ArgV(0)], [])], Inst(11, Br, VoidTy, [BlockV(2)], [])),
                Block(2, [Inst(20, Phi, IntTy(32), [InstV(10)], [1])], Inst(21, Ret, VoidTy, [InstV(20)], []))]);
            var p := Pos(0, 0);
            ValidPos(f, p) && NumUses(f, InstV(At(f, p).id)) == 1 && |Successors(f.blocks[p.block].term)| > 0 &&
            CanRemoveInst(f, p) && !CanRemoveInstAsWritten(f, p)
  {
    var f := Function("f", [Arg(0, IntTy(32))], [
                Block(1, [Inst(10, Add, IntTy(32), [ArgV(0), ArgV(0)], [])], Inst(11, Br, VoidTy, [BlockV(2)], [])),
                Block(2, [Inst(20, Phi, IntTy(32), [InstV(10)], [1])], Inst(21, Ret, VoidTy, [InstV(20)], []))]);
    var p := Pos(0, 0);
    var u := Pos(1, 0);
    assert Successors(f.blocks[0].term) == [2];
    assert Occurrences([InstV(10)], InstV(10)) == 1;
    assert Occurrences([ArgV(0), ArgV(0)], InstV(10)) == 0;
    assert Occurrences([BlockV(2)], InstV(10)) == 0;
    assert Occurrences([InstV(20)], InstV(10)) == 0;
    var s0 := Insts(f.blocks[0]);
    var s1 := Insts(f.blocks[1]);
    assert s0[1..][1..] == [] && s1[1..][1..] == [];
    assert InstUses(s0[1..], InstV(10)) == 0;
    assert InstUses(s0, InstV(10)) == 0;
    assert InstUses(s1[1..], InstV(10)) == 0;
    assert InstUses(s1, InstV(10)) == 1;
    assert f.blocks[1..][1..] == [];
    assert NumUses(f, InstV(10)) == 1;
    assert IncomingValue(At(f, u), 1) == Some(InstV(10));
    AsWrittenMissesPhiUser(f, p, u);
  }

  // ---------------------------------------------------------------------
  // Debug intrinsics (merge_bb.cc:233-242, 271-277)
  // ---------------------------------------------------------------------

  /** The positions of the instructions of `s` that are not debug
      intrinsics, in order. */
  function NonDbgIdx(s: seq<Inst>): (r: seq<nat>)
    ensures forall k :: 0 <= k < |r| ==> r[k] < |s|
  {
    if s == [] then []
    else
      var pre := NonDbgIdx(s[..|s| - 1]);
      if IsDbgInfo(s[|s| - 1]) then pre else pre + [|s| - 1]
  }

  /** `NonDbgIdx` lists exactly the non-debug positions, in increasing
      order. */
  lemma {:induction false} NonDbgIdxFacts(s: seq<Inst>)
    ensures var r := NonDbgIdx(s);
      (forall k :: 0 <= k < |r| ==> !IsDbgInfo(s[r[k]])) &&
      (forall k, l :: 0 <= k < l < |r| ==> r[k] < r[l]) &&
      (forall j :: 0 <= j < |s| && !IsDbgInfo(s[j]) ==> j in r)
  {
    if s != [] {
      var pre := NonDbgIdx(s[..|s| - 1]);
      NonDbgIdxFacts(s[..|s| - 1]);
      assert forall k :: 0 <= k < |pre| ==> s[..|s| - 1][pre[k]] == s[pre[k]];
      assert forall j :: 0 <= j < |s| - 1 ==> s[..|s| - 1][j] == s[j];
    }
  }

  /** `GetNumNonDbgInstInBB` counts the terminator, which is never a debug
      intrinsic, on top of the non-debug instructions of the body. */
  lemma NonDbgCountsTerminator(b: Block)
    requires !IsDbgInfo(b.term)
    ensures |NonDbgIdx(Insts(b))| == |NonDbgIdx(b.body)| + 1
  {
    assert Insts(b)[..|Insts(b)| - 1] == b.body;
  }

  /** `GetNumNonDbgInstInBB` (merge_bb.cc:271-277). */
  method GetNumNonDbgInstInBB(b: Block) returns (count: nat)
    ensures count == |NonDbgIdx(Insts(b))|
  {
    var all := Insts(b);
    count := 0;
    for k := 0 to |all|
      invariant count == |NonDbgIdx(all[..k])|
    {
      assert all[..k + 1][..k] == all[..k];
      if !IsDbgInfo(all[k]) {
        count := count + 1;
      }
    }
    assert all[..|all|] == all;
  }

  /** The last position before `k` holding a non-debug instruction: where
      `inst = inst->getPrevNode()` repeated past debug intrinsics stops. */
  function LastNonDbgBefore(s: seq<Inst>, k: nat): (r: Option<nat>)
    requires k <= |s|
    ensures r.Some? ==> r.value < k && !IsDbgInfo(s[r.value])
    ensures r.Some? ==> forall j :: r.value < j < k ==> IsDbgInfo(s[j])
    ensures r.None? ==> forall j :: 0 <= j < k ==> IsDbgInfo(s[j])
  {
    if k == 0 then None
    else if !IsDbgInfo(s[k - 1]) then Some(k - 1)
    else LastNonDbgBefore(s, k - 1)
  }

  lemma LastNonDbgIs(s: seq<Inst>, k: nat, p: nat)
    requires p < k <= |s| && !IsDbgInfo(s[p])
    requires forall j :: p < j < k ==> IsDbgInfo(s[j])
    ensures LastNonDbgBefore(s, k) == Some(p)
  {
  }

  /** Stepping back from the terminator reaches the last non-debug
      instruction of the body. */
  lemma LastNonDbgAtEnd(s: seq<Inst>)
    ensures var r := NonDbgIdx(s);
      LastNonDbgBefore(s, |s|) == if |r| == 0 then None else Some(r[|r| - 1])
  {
    var r := NonDbgIdx(s);
    NonDbgIdxFacts(s);
    if |r| > 0 {
      assert forall j :: r[|r| - 1] < j < |s| ==> IsDbgInfo(s[j]);
      LastNonDbgIs(s, |s|, r[|r| - 1]);
    }
  }

  /** Stepping back from the `j`-th non-debug instruction reaches the one
      before it, or runs off the start of the block. */
  lemma LastNonDbgStep(s: seq<Inst>, j: nat)
    requires j < |NonDbgIdx(s)|
    ensures var r := NonDbgIdx(s);
      LastNonDbgBefore(s, r[j]) == if j == 0 then None else Some(r[j - 1])
  {
    var r := NonDbgIdx(s);
    NonDbgIdxFacts(s);
    if j == 0 {
      assert forall m :: 0 <= m < r[0] ==> IsDbgInfo(s[m]);
    } else {
      assert forall m :: r[j - 1] < m < r[j] ==> IsDbgInfo(s[m]);
      LastNonDbgIs(s, r[j], r[j - 1]);
    }
  }

  // ---------------------------------------------------------------------
  // LockstepReverseIterator (merge_bb.cc:218-269, merge_bb.h:49-72)
  // ---------------------------------------------------------------------

  /** Walks two blocks backwards together, one non-debug instruction at a
      time, starting just before the terminators. `insts` holds positions in
      the two bodies; `None` is the null instruction. */
  class LockstepReverseIterator {
    var bb1: Block
    var bb2: Block
    var insts: seq<Option<nat>>
    var fail: bool

    ghost predicate Valid()
      reads this
    {
      |insts| == 2 &&
      (insts[0].Some? ==> insts[0].value < |bb1.body|) &&
      (insts[1].Some? ==> insts[1].value < |bb2.body|) &&
      (!fail ==> insts[0].Some? && insts[1].Some?)
    }

    constructor (bb1In: Block, bb2In: Block)
      ensures Valid() && bb1 == bb1In && bb2 == bb2In
      ensures insts == [LastNonDbgBefore(bb1In.body, |bb1In.body|), LastNonDbgBefore(bb2In.body, |bb2In.body|)]
      ensures fail == (insts[0].None? || insts[1].None?)
    {
      bb1 := bb1In;
      bb2 := bb2In;
      fail := false;
      var inst1 := GetLastNonDbgInst(bb1In);
      if inst1.None? {
        fail := true;
      }
      var inst2 := GetLastNonDbgInst(bb2In);
      if inst2.None? {
        fail := true;
      }
      insts := [];
      insts := insts + [inst1];
      insts := insts + [inst2];
    }

    /** The do-while loop of `GetLastNonDbgInst` and `operator--`: step back
        from position `from` past debug intrinsics. */
    static method PrevNonDbg(body: seq<Inst>, from: nat) returns (r: Option<nat>)
      requires from <= |body|
      ensures r == LastNonDbgBefore(body, from)
    {
      var k: int := from - 1;
      while k >= 0 && IsDbgInfo(body[k])
        invariant -1 <= k < from
        invariant LastNonDbgBefore(body, k + 1) == LastNonDbgBefore(body, from)
      {
        k := k - 1;
      }
      r := if k < 0 then None else Some(k);
    }

    /** Starts at the terminator, whose position is `|bb.body|`, and steps
        back once; the terminator itself is never returned. */
    static method GetLastNonDbgInst(bb: Block) returns (r: Option<nat>)
      ensures r == LastNonDbgBefore(bb.body, |bb.body|)
    {
      r := PrevNonDbg(bb.body, |bb.body|);
    }

    predicate IsValid()
      reads this
    {
      !fail
    }

    /** `operator*`: the current pair of positions. */
    function Current(): (r: (nat, nat))
      reads this
      requires Valid() && IsValid()
      ensures r.0 < |bb1.body| && r.1 < |bb2.body|
    {
      (insts[0].value, insts[1].value)
    }

    /** `operator--`: once failed, nothing changes; otherwise each position
        in turn steps back, and the first to run off the start of its block
        sets `fail` and stops the step, leaving the second one unmoved. */
    method Decrement()
      requires Valid()
      modifies this
      ensures Valid() && bb1 == old(bb1) && bb2 == old(bb2)
      ensures old(fail) ==> fail && insts == old(insts)
      ensures !old(fail) ==>
        var p1 := LastNonDbgBefore(bb1.body, old(insts[0].value));
        insts[0] == p1 &&
        (p1.None? ==> fail && insts[1] == old(insts[1])) &&
        (p1.Some? ==> insts[1] == LastNonDbgBefore(bb2.body, old(insts[1].value)) && fail == insts[1].None?)
    {
      if fail {
        return;
      }
      for k := 0 to 2
        invariant |insts| == 2 && !fail && bb1 == old(bb1) && bb2 == old(bb2)
        invariant k == 0 ==> insts == old(insts)
        invariant k >= 1 ==> insts[0] == LastNonDbgBefore(bb1.body, old(insts[0].value)) && insts[0].Some?
        invariant k == 1 ==> insts[1] == old(insts[1])
        invariant k == 2 ==> insts[1] == LastNonDbgBefore(bb2.body, old(insts[1].value)) && insts[1].Some?
        invariant insts[0].Some? ==> insts[0].value < |bb1.body|
        invariant insts[1].Some? ==> insts[1].value < |bb2.body|
      {
        var body := if k == 0 then bb1.body else bb2.body;
        var prev := PrevNonDbg(body, insts[k].value);
        insts := insts[k := prev];
        if prev.None? {
          fail := true;
          return;
        }
      }
    }
  }

  // ---------------------------------------------------------------------
  // CanMergeInstructions (merge_bb.cc:48-79)
  // ---------------------------------------------------------------------

  /** `Instruction::isSameOperationAs`, over what an instruction records
      here: opcode, result type and operand count. */
  predicate SameOperation(a: Inst, b: Inst) {
    a.op == b.op && a.ty == b.ty && |a.operands| == |b.operands|
  }

  /** Both instructions are in blocks with a first successor, which is
      where `CanRemoveInst` looks for a phi user. */
  predicate MergeCandidates(f: Function, p1: Pos, p2: Pos) {
    ValidPos(f, p1) && ValidPos(f, p2) &&
    |Successors(f.blocks[p1.block].term)| > 0 && |Successors(f.blocks[p2.block].term)| > 0
  }

  /** Two instructions can be merged: the same operation, the same
      operands, and either no users at all or one removable use each. */
  predicate Mergeable(f: Function, p1: Pos, p2: Pos, v: Version)
    requires MergeCandidates(f, p1, p2)
  {
    var a := At(f, p1);
    var b := At(f, p2);
    var na := NumUses(f, InstV(a.id));
    var nb := NumUses(f, InstV(b.id));
    SameOperation(a, b) &&
    ((na == 0 && nb == 0) || (na == 1 && nb == 1 && Removable(f, p1, v) && Removable(f, p2, v))) &&
    a.operands == b.operands
  }

  /** `CanMergeInstructions`, with the user-count loop and the operand loop
      of the source. */
  method CanMergeInstructions(f: Function, p1: Pos, p2: Pos, v: Version) returns (r: bool)
    requires MergeCandidates(f, p1, p2)
    ensures r == Mergeable(f, p1, p2, v)
  {
    var inst1 := At(f, p1);
    var inst2 := At(f, p2);
    if !SameOperation(inst1, inst2) {
      return false;
    }
    var hasUse := NumUses(f, InstV(inst1.id)) != 0;
    var insts := [p1, p2];
    for k := 0 to 2
      invariant forall t :: 0 <= t < k ==>
        var n := NumUses(f, InstV(At(f, insts[t]).id));
        (hasUse ==> n == 1) && (!hasUse ==> n == 0)
    {
      var n := NumUses(f, InstV(At(f, insts[k]).id));
      if hasUse && n != 1 {
        return false;
      }
      if !hasUse && n != 0 {
        return false;
      }
    }
    assert insts[0] == p1 && insts[1] == p2;
    if hasUse {
      if !Removable(f, p1, v) || !Removable(f, p2, v) {
        return false;
      }
    }
    var numOpnds := |inst1.operands|;
    for k := 0 to numOpnds
      invariant inst1.operands[..k] == inst2.operands[..k]
    {
      if inst2.operands[k] != inst1.operands[k] {
        return false;
      }
      assert inst1.operands[..k + 1] == inst1.operands[..k] + [inst1.operands[k]];
      assert inst2.operands[..k + 1] == inst2.operands[..k] + [inst2.operands[k]];
    }
    assert inst1.operands == inst1.operands[..numOpnds];
    assert inst2.operands == inst2.operands[..numOpnds];
    return true;
  }

  // ---------------------------------------------------------------------
  // The lockstep comparison of two blocks (merge_bb.cc:181-188)
  // ---------------------------------------------------------------------

  /** Both blocks exist and have a first successor. */
  predicate Comparable(f: Function, i1: nat, i2: nat) {
    i1 < |f.blocks| && i2 < |f.blocks| &&
    |Successors(f.blocks[i1].term)| > 0 && |Successors(f.blocks[i2].term)| > 0
  }

  /** The `m`-th non-debug body instructions of the two blocks, counted from
      the end, can be merged. */
  predicate PairMerges(f: Function, i1: nat, i2: nat, m: nat, v: Version) {
    Comparable(f, i1, i2) &&
    var r1 := NonDbgIdx(f.blocks[i1].body);
    var r2 := NonDbgIdx(f.blocks[i2].body);
    m < |r1| && m < |r2| &&
    Mergeable(f, Pos(i1, r1[|r1| - 1 - m]), Pos(i2, r2[|r2| - 1 - m]), v)
  }

  /** Aligned from the terminators backwards, every pair of non-debug body
      instructions can be merged, as far as the shorter body reaches. */
  predicate AllAligned(f: Function, i1: nat, i2: nat, v: Version)
    requires Comparable(f, i1, i2)
  {
    forall m :: 0 <= m < Depth(f, i1, i2) ==> PairMerges(f, i1, i2, m, v)
  }

  /** How many pairs the lockstep walk visits: the shorter non-debug body. */
  function Depth(f: Function, i1: nat, i2: nat): nat
    requires Comparable(f, i1, i2)
  {
    Min(|NonDbgIdx(f.blocks[i1].body)|, |NonDbgIdx(f.blocks[i2].body)|)
  }

  /** Whether each of the first `k` pairs counted from the end merges. */
  ghost function PairTable(f: Function, i1: nat, i2: nat, k: nat, v: Version): (t: seq<bool>)
    ensures |t| == k
  {
    if k == 0 then [] else PairTable(f, i1, i2, k - 1, v) + [PairMerges(f, i1, i2, k - 1, v)]
  }

  lemma {:induction false} PairTableAt(f: Function, i1: nat, i2: nat, k: nat, t: nat, v: Version)
    requires t < k
    ensures PairTable(f, i1, i2, k, v)[t] == PairMerges(f, i1, i2, t, v)
  {
    var prev := PairTable(f, i1, i2, k - 1, v);
    var last := PairMerges(f, i1, i2, k - 1, v);
    assert PairTable(f, i1, i2, k, v) == prev + [last];
    if t < k - 1 {
      PairTableAt(f, i1, i2, k - 1, t, v);
      assert (prev + [last])[t] == prev[t];
    } else {
      assert (prev + [last])[t] == last;
    }
  }

  lemma PairTableAll(f: Function, i1: nat, i2: nat, v: Version)
    requires Comparable(f, i1, i2)
    ensures AllAligned(f, i1, i2, v) <==>
      forall t :: 0 <= t < Depth(f, i1, i2) ==> PairTable(f, i1, i2, Depth(f, i1, i2), v)[t]
  {
    var n := Depth(f, i1, i2);
    var table := PairTable(f, i1, i2, n, v);
    if AllAligned(f, i1, i2, v) {
      forall t | 0 <= t < n
        ensures table[t]
      {
        PairTableAt(f, i1, i2, n, t, v);
      }
    }
    if forall t :: 0 <= t < n ==> table[t] {
      forall t | 0 <= t < n
        ensures PairMerges(f, i1, i2, t, v)
      {
        PairTableAt(f, i1, i2, n, t, v);
      }
    } else {
      var t :| 0 <= t < n && !table[t];
      PairTableAt(f, i1, i2, n, t, v);
    }
  }

  function Min(a: nat, b: nat): nat {
    if a < b then a else b
  }

  /** Lines 182-188: decrement the iterator while the current pair merges;
      the blocks match when the iterator ends up invalid. */
  /** The iterator positions are the `m`-th non-debug body instructions of
      the two blocks, counted from the end. */
  ghost predicate AlignedAt(f: Function, i1: nat, i2: nat, insts: seq<Option<nat>>, m: nat)
    requires Comparable(f, i1, i2)
  {
    var r1 := NonDbgIdx(f.blocks[i1].body);
    var r2 := NonDbgIdx(f.blocks[i2].body);
    |insts| == 2 && m < |r1| && m < |r2| &&
    insts[0] == Some(r1[|r1| - 1 - m]) && insts[1] == Some(r2[|r2| - 1 - m])
  }

  /** The constructor stands at the last pair, or fails when a body has no
      non-debug instruction. */
  lemma AlignedStart(f: Function, i1: nat, i2: nat, insts: seq<Option<nat>>, fail: bool)
    requires Comparable(f, i1, i2)
    requires insts == [LastNonDbgBefore(f.blocks[i1].body, |f.blocks[i1].body|),
                       LastNonDbgBefore(f.blocks[i2].body, |f.blocks[i2].body|)]
    requires fail == (insts[0].None? || insts[1].None?)
    ensures !fail ==> AlignedAt(f, i1, i2, insts, 0)
    ensures fail <==> Depth(f, i1, i2) == 0
  {
    LastNonDbgAtEnd(f.blocks[i1].body);
    LastNonDbgAtEnd(f.blocks[i2].body);
  }

  /** One `operator--` from the `m`-th pair reaches the next pair, or fails
      exactly when the shorter body is used up. */
  lemma AlignedStep(f: Function, i1: nat, i2: nat, insts: seq<Option<nat>>, m: nat,
                    insts': seq<Option<nat>>, fail': bool)
    requires Comparable(f, i1, i2) && AlignedAt(f, i1, i2, insts, m) && |insts'| == 2
    requires insts'[0] == LastNonDbgBefore(f.blocks[i1].body, insts[0].value)
    requires insts'[0].None? ==> fail'
    requires insts'[0].Some? ==>
      insts'[1] == LastNonDbgBefore(f.blocks[i2].body, insts[1].value) && fail' == insts'[1].None?
    ensures !fail' ==> AlignedAt(f, i1, i2, insts', m + 1)
    ensures fail' <==> m + 1 == Depth(f, i1, i2)
  {
    var r1 := NonDbgIdx(f.blocks[i1].body);
    var r2 := NonDbgIdx(f.blocks[i2].body);
    LastNonDbgStep(f.blocks[i1].body, |r1| - 1 - m);
    LastNonDbgStep(f.blocks[i2].body, |r2| - 1 - m);
  }

  /** The loop condition of line 183, while the iterator stands at the
      `m`-th pair from the end: it is valid and that pair can be merged. */
  method MergeableAtIterator(f: Function, i1: nat, i2: nat, iter: LockstepReverseIterator, ghost m: nat, v: Version)
      returns (r: bool)
    requires Comparable(f, i1, i2)
    requires iter.Valid() && iter.bb1 == f.blocks[i1] && iter.bb2 == f.blocks[i2]
    requires !iter.fail ==> AlignedAt(f, i1, i2, iter.insts, m)
    ensures r == (iter.IsValid() && m < Depth(f, i1, i2) && PairTable(f, i1, i2, Depth(f, i1, i2), v)[m])
  {
    r := iter.IsValid();
    if r {
      var (a, b) := iter.Current();
      r := CanMergeInstructions(f, Pos(i1, a), Pos(i2, b), v);
      PairTableAt(f, i1, i2, Depth(f, i1, i2), m, v);
    }
  }

  /** The state of the walk of lines 182-188 at the `m`-th pair from the
      end: unless failed, the iterator stands at that pair; every pair
      before it merges; and `more` says whether this one does too. */
  ghost predicate Walking(f: Function, i1: nat, i2: nat, iter: LockstepReverseIterator, m: nat, more: bool, v: Version)
    reads iter
    requires Comparable(f, i1, i2)
  {
    var n := Depth(f, i1, i2);
    iter.Valid() && iter.bb1 == f.blocks[i1] && iter.bb2 == f.blocks[i2] && m <= n &&
    (!iter.fail ==> m < n && AlignedAt(f, i1, i2, iter.insts, m) && more == PairTable(f, i1, i2, n, v)[m]) &&
    (iter.fail ==> m == n && !more) &&
    forall t :: 0 <= t < m ==> PairTable(f, i1, i2, n, v)[t]
  }

  /** One turn of the loop of line 183: step the iterator back and test
      the next pair. */
  method NextPair(f: Function, i1: nat, i2: nat, iter: LockstepReverseIterator, ghost m: nat, v: Version)
      returns (more: bool)
    requires Comparable(f, i1, i2) && Walking(f, i1, i2, iter, m, true, v)
    modifies iter
    ensures Walking(f, i1, i2, iter, m + 1, more, v)
  {
    ghost var before := iter.insts;
    iter.Decrement();
    AlignedStep(f, i1, i2, before, m, iter.insts, iter.fail);
    more := MergeableAtIterator(f, i1, i2, iter, m + 1, v);
  }

  method InstructionsMatch(f: Function, i1: nat, i2: nat, v: Version) returns (ok: bool)
    requires Comparable(f, i1, i2)
    ensures ok == AllAligned(f, i1, i2, v)
  {
    var iter := new LockstepReverseIterator(f.blocks[i1], f.blocks[i2]);
    AlignedStart(f, i1, i2, iter.insts, iter.fail);
    ghost var m := 0;
    var more := MergeableAtIterator(f, i1, i2, iter, m, v);
    while more
      invariant Walking(f, i1, i2, iter, m, more, v)
      decreases Depth(f, i1, i2) - m
    {
      more := NextPair(f, i1, i2, iter, m, v);
      m := m + 1;
    }
    ok := !iter.IsValid();
    PairTableAll(f, i1, i2, v);
  }

  // ---------------------------------------------------------------------
  // UpdateBranchTargets (merge_bb.cc:81-105)
  // ---------------------------------------------------------------------

  function Redirect(v: Value, from: BlockId, to: BlockId): Value {
    if v == BlockV(from) then BlockV(to) else v
  }

  /** `ops` with every slot naming the block `from` set to `to`. */
  function RetargetOps(ops: seq<Value>, from: BlockId, to: BlockId): (r: seq<Value>)
    ensures |r| == |ops|
    ensures forall k :: 0 <= k < |ops| ==> r[k] == Redirect(ops[k], from, to)
  {
    if ops == [] then []
    else RetargetOps(ops[..|ops| - 1], from, to) + [Redirect(ops[|ops| - 1], from, to)]
  }

  function RetargetBlock(b: Block, from: BlockId, to: BlockId): Block {
    b.(term := b.term.(operands := RetargetOps(b.term.operands, from, to)))
  }

  /** The function after `UpdateBranchTargets(from, to)`. */
  function Retargeted(f: Function, from: BlockId, to: BlockId): (g: Function)
    ensures g.name == f.name && g.args == f.args && |g.blocks| == |f.blocks|
    ensures forall k :: 0 <= k < |f.blocks| ==> g.blocks[k] == RetargetBlock(f.blocks[k], from, to)
  {
    f.(blocks := seq(|f.blocks|, k requires 0 <= k < |f.blocks| => RetargetBlock(f.blocks[k], from, to)))
  }

  /** The number of terminator slots of `bs` naming the block `from`. */
  function TargetCount(bs: seq<Block>, from: BlockId): nat {
    if bs == [] then 0
    else TargetCount(bs[..|bs| - 1], from) + Occurrences(bs[|bs| - 1].term.operands, BlockV(from))
  }

  /** Redirecting moves every slot naming `from` to `to` and leaves the
      count of every other value alone. */
  lemma {:induction false} RetargetOpsOccurrences(ops: seq<Value>, from: BlockId, to: BlockId, v: Value)
    requires from != to
    ensures Occurrences(RetargetOps(ops, from, to), v) ==
      if v == BlockV(from) then 0
      else if v == BlockV(to) then Occurrences(ops, v) + Occurrences(ops, BlockV(from))
      else Occurrences(ops, v)
  {
    if ops != [] {
      var r := RetargetOps(ops, from, to);
      RetargetOpsOccurrences(ops[..|ops| - 1], from, to, v);
      assert r[..|r| - 1] == RetargetOps(ops[..|ops| - 1], from, to);
    }
  }

  /** A terminator that does not name `from` is left as it is. */
  lemma RetargetNoEdge(ops: seq<Value>, from: BlockId, to: BlockId)
    requires BlockV(from) !in ops
    ensures RetargetOps(ops, from, to) == ops
  {
  }

  /** After `UpdateBranchTargets(from, to)` no terminator names `from`, each
      block that branched to `from` branches to `to`, and every other edge is
      kept; no edge appears except to `to`. */
  lemma RetargetedEdges(f: Function, from: BlockId, to: BlockId, k: nat, d: BlockId)
    requires from != to && k < |f.blocks|
    ensures IsPredecessor(Retargeted(f, from, to).blocks[k], d) <==>
      (d == to && (IsPredecessor(f.blocks[k], from) || IsPredecessor(f.blocks[k], to))) ||
      (d != from && d != to && IsPredecessor(f.blocks[k], d))
  {
    RetargetOpsOccurrences(f.blocks[k].term.operands, from, to, BlockV(d));
  }

  /** The count `UpdateBranchTargets` returns is zero exactly when no block
      branches to `from`: for a `bb1` without predecessors the assertion at
      merge_bb.cc:192 fails. */
  lemma {:induction false} TargetCountZero(bs: seq<Block>, from: BlockId)
    ensures TargetCount(bs, from) == 0 <==> forall k :: 0 <= k < |bs| ==> !IsPredecessor(bs[k], from)
  {
    if bs != [] {
      var pre := bs[..|bs| - 1];
      TargetCountZero(pre, from);
      assert forall k :: 0 <= k < |pre| ==> pre[k] == bs[k];
    }
  }

  /** The first `k` slots of `ops` are those of `orig` redirected, the rest
      are those of `orig`. */
  ghost predicate RedirectedUpTo(orig: seq<Value>, ops: seq<Value>, k: nat, from: BlockId, to: BlockId) {
    |ops| == |orig| && k <= |orig| &&
    forall m :: 0 <= m < |ops| ==> ops[m] == if m < k then Redirect(orig[m], from, to) else orig[m]
  }

  /** One turn of the inner loop of `UpdateBranchTargets`
      (merge_bb.cc:92-97): a slot naming `erase` is set to `retain` and
      counted. */
  method RedirectSlot(orig: seq<Value>, ops: seq<Value>, n: nat, k: nat, erase: BlockId, retain: BlockId)
      returns (ops': seq<Value>, n': nat)
    requires RedirectedUpTo(orig, ops, k, erase, retain) && k < |orig|
    requires n == Occurrences(orig[..k], BlockV(erase))
    ensures RedirectedUpTo(orig, ops', k + 1, erase, retain)
    ensures n' == Occurrences(orig[..k + 1], BlockV(erase))
  {
    assert orig[..k + 1][..k] == orig[..k];
    ops', n' := ops, n;
    if ops[k] == BlockV(erase) {
      ops' := ops[k := BlockV(retain)];
      n' := n + 1;
    }
  }

  /** The inner loop of `UpdateBranchTargets` over the operands of one
      terminator: every slot naming `erase` is redirected and counted. */
  method RedirectSlots(orig: seq<Value>, erase: BlockId, retain: BlockId) returns (ops: seq<Value>, n: nat)
    ensures ops == RetargetOps(orig, erase, retain)
    ensures n == Occurrences(orig, BlockV(erase))
  {
    ops, n := orig, 0;
    for k := 0 to |orig|
      invariant RedirectedUpTo(orig, ops, k, erase, retain)
      invariant n == Occurrences(orig[..k], BlockV(erase))
    {
      ops, n := RedirectSlot(orig, ops, n, k, erase, retain);
    }
    assert orig[..|orig|] == orig;
  }

  /** `UpdateBranchTargets` on one terminator. */
  method RetargetTerminator(term: Inst, erase: BlockId, retain: BlockId) returns (t: Inst, n: nat)
    ensures t == term.(operands := RetargetOps(term.operands, erase, retain))
    ensures n == Occurrences(term.operands, BlockV(erase))
  {
    var ops;
    ops, n := RedirectSlots(term.operands, erase, retain);
    t := term.(operands := ops);
  }

  /** `UpdateBranchTargets`: the predecessors of `erase` branch to `retain`
      instead, and the result counts the redirected slots. */
  method UpdateBranchTargets(f: Function, erase: BlockId, retain: BlockId) returns (g: Function, count: nat)
    ensures g == Retargeted(f, erase, retain)
    ensures count == TargetCount(f.blocks, erase)
  {
    var blocks := f.blocks;
    count := 0;
    for i := 0 to |blocks|
      invariant |blocks| == |f.blocks|
      invariant forall k :: 0 <= k < i ==> blocks[k] == RetargetBlock(f.blocks[k], erase, retain)
      invariant forall k :: i <= k < |blocks| ==> blocks[k] == f.blocks[k]
      invariant count == TargetCount(f.blocks[..i], erase)
    {
      assert f.blocks[..i + 1][..i] == f.blocks[..i];
      if IsPredecessor(blocks[i], erase) {
        var t, n := RetargetTerminator(blocks[i].term, erase, retain);
        blocks := blocks[i := blocks[i].(term := t)];
        count := count + n;
      } else {
        RetargetNoEdge(blocks[i].term.operands, erase, retain);
      }
    }
    assert f.blocks[..|blocks|] == f.blocks;
    g := f.(blocks := blocks);
    assert g.blocks == Retargeted(f, erase, retain).blocks;
  }

  // ---------------------------------------------------------------------
  // MergeDuplicatedBlock (merge_bb.cc:107-201)
  // ---------------------------------------------------------------------

  /** A `BranchInst` that is not conditional: `br label %d`. */
  predicate IsUncondBr(t: Inst) {
    t.op.Br? && |t.operands| == 1 && t.operands[0].BlockV?
  }

  /** `getSuccessor(0)` of an unconditional branch. */
  function Target(t: Inst): (d: BlockId)
    requires IsUncondBr(t)
    ensures Successors(t) == [d]
  {
    assert t.operands[1..] == [];
    assert BlockTargets(t.operands) == [t.operands[0].b] + BlockTargets(t.operands[1..]);
    t.operands[0].b
  }

  predicate IsBrOrSwitch(t: Inst) {
    t.op.Br? || t.op.Switch?
  }

  /** Every predecessor of the `i`-th block ends in a branch or a switch. */
  predicate PredsBrOrSwitch(f: Function, i: nat)
    requires i < |f.blocks|
  {
    forall j :: 0 <= j < |f.blocks| && IsPredecessor(f.blocks[j], f.blocks[i].id) ==>
      IsBrOrSwitch(f.blocks[j].term)
  }

  /** The loop over `predecessors(bb)` at merge_bb.cc:118-122. */
  method AllPredsBrOrSwitch(f: Function, i: nat) returns (r: bool)
    requires i < |f.blocks|
    ensures r == PredsBrOrSwitch(f, i)
  {
    for j := 0 to |f.blocks|
      invariant forall t :: 0 <= t < j && IsPredecessor(f.blocks[t], f.blocks[i].id) ==>
        IsBrOrSwitch(f.blocks[t].term)
    {
      if IsPredecessor(f.blocks[j], f.blocks[i].id) && !IsBrOrSwitch(f.blocks[j].term) {
        return false;
      }
    }
    return true;
  }

  /** `pn`: the first instruction of the block `s`, when it is a phi. */
  function LeadingPhi(f: Function, s: BlockId): (r: Option<Inst>)
    ensures r.Some? ==> r.value.op.Phi?
  {
    match IndexOfBlock(f.blocks, s)
    case None => None
    case Some(k) =>
      var first := Insts(f.blocks[k])[0];
      if first.op.Phi? then Some(first) else None
  }

  /** The second instruction of the block `s` is a phi as well. */
  predicate SecondPhi(f: Function, s: BlockId) {
    match IndexOfBlock(f.blocks, s)
    case None => false
    case Some(k) =>
      var all := Insts(f.blocks[k]);
      |all| > 1 && all[1].op.Phi?
  }

  /** The incoming value is an instruction of `b`. */
  predicate DefinedIn(b: Block, v: Option<Value>) {
    v.Some? && v.value.InstV? && exists k :: 0 <= k < |Insts(b)| && Insts(b)[k].id == v.value.id
  }

  /** The successor's phi, if any, receives the same value from both blocks,
      or receives from each block a value defined in it. */
  predicate PhiAgrees(f: Function, i: nat, j: nat, pn: Option<Inst>)
    requires i < |f.blocks| && j < |f.blocks|
  {
    pn.None? ||
    var v1 := IncomingValue(pn.value, f.blocks[i].id);
    var v2 := IncomingValue(pn.value, f.blocks[j].id);
    v1 == v2 || (DefinedIn(f.blocks[i], v1) && DefinedIn(f.blocks[j], v2))
  }

  /** The early refusals of merge_bb.cc:110-133: the entry block, a block not
      ending in an unconditional branch, a predecessor ending in neither a
      branch nor a switch, and a successor opening with two phis. */
  predicate Refused(f: Function, i: nat)
    requires i < |f.blocks|
  {
    i == 0 || !IsUncondBr(f.blocks[i].term) || !PredsBrOrSwitch(f, i) ||
    (LeadingPhi(f, Target(f.blocks[i].term)).Some? && SecondPhi(f, Target(f.blocks[i].term)))
  }

  /** The tests of merge_bb.cc:140-188, which a partner `bb2` (the `j`-th
      block) of `bb1` (the `i`-th) passes: it branches to the same
      successor, is not the entry block, ends in an unconditional branch,
      is not marked, is not `bb1`, has as many non-debug instructions,
      agrees on the successor's phi, and matches `bb1` instruction by
      instruction. As written, the predecessor test of lines 150-154
      contributes nothing; as intended, the predecessors of `bb2` must end
      in a branch or a switch, as they must for `bb1`. */
  predicate Partner(f: Function, i: nat, j: nat, dl: seq<BlockId>, v: Version)
    requires i < |f.blocks| && j < |f.blocks| && IsUncondBr(f.blocks[i].term)
  {
    var bb1 := f.blocks[i];
    var bb2 := f.blocks[j];
    var succ := Target(bb1.term);
    IsPredecessor(bb2, succ) && j != 0 && IsUncondBr(bb2.term) &&
    (v == Intended ==> PredsBrOrSwitch(f, j)) &&
    bb2.id !in dl && j != i &&
    |NonDbgIdx(Insts(bb1))| == |NonDbgIdx(Insts(bb2))| &&
    PhiAgrees(f, i, j, LeadingPhi(f, succ)) &&
    Comparable(f, i, j) && AllAligned(f, i, j, v)
  }

  /** The first partner at or after the `from`-th block. */
  function FirstPartnerFrom(f: Function, i: nat, dl: seq<BlockId>, from: nat, v: Version): (r: Option<nat>)
    requires i < |f.blocks| && IsUncondBr(f.blocks[i].term)
    ensures r.Some? ==> from <= r.value < |f.blocks|
    decreases |f.blocks| - from
  {
    if from >= |f.blocks| then None
    else if Partner(f, i, from, dl, v) then Some(from)
    else FirstPartnerFrom(f, i, dl, from + 1, v)
  }

  function FirstPartner(f: Function, i: nat, dl: seq<BlockId>, v: Version): (r: Option<nat>)
    requires i < |f.blocks| && IsUncondBr(f.blocks[i].term)
    ensures r.Some? ==> r.value < |f.blocks|
  {
    FirstPartnerFrom(f, i, dl, 0, v)
  }

  /** What `FirstPartnerFrom` finds is a partner. */
  lemma {:induction false} FirstPartnerIsPartner(f: Function, i: nat, dl: seq<BlockId>, from: nat, v: Version)
    requires i < |f.blocks| && IsUncondBr(f.blocks[i].term)
    ensures var r := FirstPartnerFrom(f, i, dl, from, v);
      r.Some? ==> Partner(f, i, r.value, dl, v)
    decreases |f.blocks| - from
  {
    if from < |f.blocks| && !Partner(f, i, from, dl, v) {
      FirstPartnerIsPartner(f, i, dl, from + 1, v);
    }
  }

  /** No block scanned before the one `FirstPartnerFrom` finds, and none at
      all when it finds nothing, is a partner. */
  lemma {:induction false} FirstPartnerIsFirst(f: Function, i: nat, dl: seq<BlockId>, from: nat, v: Version)
    requires i < |f.blocks| && IsUncondBr(f.blocks[i].term)
    ensures var r := FirstPartnerFrom(f, i, dl, from, v);
      forall t :: from <= t < |f.blocks| && (r.None? || t < r.value) ==> !Partner(f, i, t, dl, v)
    decreases |f.blocks| - from
  {
    if from < |f.blocks| && !Partner(f, i, from, dl, v) {
      FirstPartnerIsFirst(f, i, dl, from + 1, v);
    }
  }

  /** `delete_list.insert(x)` on a list without repeats. */
  function Insert(dl: seq<BlockId>, x: BlockId): (r: seq<BlockId>)
    ensures x in r && forall y :: y in r <==> y in dl || y == x
  {
    if x in dl then dl else dl + [x]
  }

  /** The body of the loop over `predecessors(bb_succ)`. As written, the
      loop of lines 150-154 decides nothing, so only the intended version
      runs the predecessor test. */
  method IsPartner(f: Function, i: nat, j: nat, dl: seq<BlockId>, pn: Option<Inst>,
                   inValBb1: Option<Value>, bb1NumInst: nat, v: Version) returns (ok: bool)
    requires i < |f.blocks| && j < |f.blocks| && IsUncondBr(f.blocks[i].term)
    requires pn == LeadingPhi(f, Target(f.blocks[i].term))
    requires pn.Some? ==> inValBb1 == IncomingValue(pn.value, f.blocks[i].id)
    requires bb1NumInst == |NonDbgIdx(Insts(f.blocks[i]))|
    ensures ok == Partner(f, i, j, dl, v)
  {
    var bb1 := f.blocks[i];
    var bb2 := f.blocks[j];
    var succ := Target(bb1.term);
    if !IsPredecessor(bb2, succ) || j == 0 || !IsUncondBr(bb2.term) {
      return false;
    }
    if v == Intended {
      var predsOk := AllPredsBrOrSwitch(f, j);
      if !predsOk {
        return false;
      }
    }
    if bb2.id in dl || j == i {
      return false;
    }
    var bb2NumInst := GetNumNonDbgInstInBB(bb2);
    if bb1NumInst != bb2NumInst {
      return false;
    }
    if pn.Some? {
      var inValBb2 := IncomingValue(pn.value, bb2.id);
      var similar := inValBb1 == inValBb2;
      var bothDefined := DefinedIn(bb1, inValBb1) && DefinedIn(bb2, inValBb2);
      if !similar && !bothDefined {
        return false;
      }
    }
    assert Successors(bb2.term) == [Target(bb2.term)];
    ok := InstructionsMatch(f, i, j, v);
  }

  /** Whether `bb1`, the `i`-th block, is merged: it is not refused and
      has a partner. */
  predicate Merges(f: Function, i: nat, dl: seq<BlockId>, v: Version)
    requires i < |f.blocks|
  {
    !Refused(f, i) && FirstPartner(f, i, dl, v).Some?
  }

  /** The function and the delete list after `MergeDuplicatedBlock` on the
      `i`-th block: when it merges, its predecessors branch to its first
      partner and it is marked; otherwise nothing changes. */
  function MergeStep(f: Function, i: nat, dl: seq<BlockId>, v: Version): (r: (Function, seq<BlockId>))
    requires i < |f.blocks|
    ensures |r.0.blocks| == |f.blocks|
  {
    if Merges(f, i, dl, v) then
      (Retargeted(f, f.blocks[i].id, f.blocks[FirstPartner(f, i, dl, v).value].id), Insert(dl, f.blocks[i].id))
    else (f, dl)
  }

  /** `MergeDuplicatedBlock`: unless refused, `bb1` is merged into its first
      partner, if it has one. Its predecessors are redirected to the partner
      and it is marked for deletion; otherwise nothing changes. */
  method MergeDuplicatedBlock(f: Function, i: nat, deleteList: seq<BlockId>, v: Version)
      returns (merged: bool, g: Function, deleteList': seq<BlockId>)
    requires i < |f.blocks|
    ensures merged == (!Refused(f, i) && FirstPartner(f, i, deleteList, v).Some?)
    ensures merged ==>
      g == Retargeted(f, f.blocks[i].id, f.blocks[FirstPartner(f, i, deleteList, v).value].id) &&
      deleteList' == Insert(deleteList, f.blocks[i].id)
    ensures !merged ==> g == f && deleteList' == deleteList
  {
    merged, g, deleteList' := false, f, deleteList;
    var bb1 := f.blocks[i];
    if i == 0 || !IsUncondBr(bb1.term) {
      return;
    }
    var predsOk := AllPredsBrOrSwitch(f, i);
    if !predsOk {
      return;
    }
    var succ := Target(bb1.term);
    var pn := LeadingPhi(f, succ);
    var inValBb1: Option<Value> := None;
    if pn.Some? {
      if SecondPhi(f, succ) {
        return;
      }
      inValBb1 := IncomingValue(pn.value, bb1.id);
    }
    var bb1NumInst := GetNumNonDbgInstInBB(bb1);
    var j := 0;
    while j < |f.blocks|
      invariant j <= |f.blocks|
      invariant FirstPartnerFrom(f, i, deleteList, j, v) == FirstPartner(f, i, deleteList, v)
      decreases |f.blocks| - j
    {
      var ok := IsPartner(f, i, j, deleteList, pn, inValBb1, bb1NumInst, v);
      if ok {
        var updated;
        g, updated := UpdateBranchTargets(f, bb1.id, f.blocks[j].id);
        deleteList' := Insert(deleteList, bb1.id);
        merged := true;
        return;
      }
      j := j + 1;
    }
  }

  /** The blocks of `InvokeExample`: the second (id 1) and the fourth
      (id 2) both branch to block 4 with nothing else in them, and the
      fourth is the normal destination of the `invoke` ending the third. */
  const EntryBlock := Block(0, [], Inst(1, Br, VoidTy, [ArgV(0), BlockV(1), BlockV(3)], []))
  const LeftBlock := Block(1, [], Inst(2, Br, VoidTy, [BlockV(4)], []))
  const InvokeBlock := Block(3, [], Inst(3, Invoke, VoidTy, [BlockV(2), BlockV(5), FuncV("h")], []))
  const RightBlock := Block(2, [], Inst(4, Br, VoidTy, [BlockV(4)], []))
  const JoinBlock := Block(4, [], Inst(5, Ret, VoidTy, [], []))
  const PadBlock := Block(5, [Inst(6, LandingPad, OtherTy, [], [])], Inst(7, Ret, VoidTy, [], []))

  /** A function in which the second block and the fourth could be merged,
      but the fourth is reached from an `invoke`. */
  function InvokeExample(): (f: Function)
    ensures f.blocks == [EntryBlock, LeftBlock, InvokeBlock, RightBlock, JoinBlock, PadBlock]
  {
    Function("f", [Arg(0, IntTy(1))], [EntryBlock, LeftBlock, InvokeBlock, RightBlock, JoinBlock, PadBlock])
  }

  /** Only the entry block branches to the second block, with a `br`. */
  lemma InvokeExamplePreds()
    ensures PredsBrOrSwitch(InvokeExample(), 1)
  {
    var f := InvokeExample();
    forall j | 0 <= j < |f.blocks| && IsPredecessor(f.blocks[j], 1)
      ensures IsBrOrSwitch(f.blocks[j].term)
    {
      assert j == 0;
    }
  }

  /** The common successor, block 4, opens with no phi. */
  lemma InvokeExampleNoPhi()
    ensures LeadingPhi(InvokeExample(), 4).None?
  {
    var bs := InvokeExample().blocks;
    assert bs[1..][1..][1..][1..] == [JoinBlock, PadBlock];
    assert IndexOfBlock(bs, 4) == Some(4);
  }

  lemma InvokeExampleNotRefused()
    ensures !Refused(InvokeExample(), 1)
  {
    InvokeExamplePreds();
    InvokeExampleNoPhi();
  }

  /** Both blocks branch straight to block 4 and hold no other instruction. */
  lemma InvokeExampleBranches()
    ensures IsUncondBr(LeftBlock.term) && Target(LeftBlock.term) == 4
    ensures IsUncondBr(RightBlock.term) && IsPredecessor(RightBlock, 4)
    ensures NonDbgIdx(LeftBlock.body) == [] && NonDbgIdx(RightBlock.body) == []
    ensures |NonDbgIdx(Insts(LeftBlock))| == |NonDbgIdx(Insts(RightBlock))|
  {
    assert Insts(LeftBlock) == [LeftBlock.term];
    assert Insts(RightBlock) == [RightBlock.term];
  }

  /** With empty bodies there is nothing to compare. */
  lemma InvokeExampleAligned(v: Version)
    ensures Comparable(InvokeExample(), 1, 3) && AllAligned(InvokeExample(), 1, 3, v)
  {
    InvokeExampleBranches();
    assert Successors(LeftBlock.term) == [4];
    assert Successors(RightBlock.term) == [Target(RightBlock.term)];
    assert Depth(InvokeExample(), 1, 3) == 0;
  }

  lemma InvokeExamplePartnerAsWritten()
    ensures IsUncondBr(InvokeExample().blocks[1].term)
    ensures Partner(InvokeExample(), 1, 3, [], AsWritten)
  {
    InvokeExampleBranches();
    InvokeExampleNoPhi();
    InvokeExampleAligned(AsWritten);
  }

  lemma InvokeExampleNoPartner()
    ensures IsUncondBr(InvokeExample().blocks[1].term)
    ensures !Partner(InvokeExample(), 1, 3, [], Intended)
  {
    var f := InvokeExample();
    assert IsPredecessor(f.blocks[2], 2);
    assert !IsBrOrSwitch(f.blocks[2].term);
  }

  /** The predecessor test of merge_bb.cc:150-154 lets through a partner whose
      predecessor ends in an `invoke`: `bb1` (the second block) is merged into
      `bb2` (the fourth), although `bb2` is reached from an `invoke`. */
  lemma PartnerAsWrittenIgnoresInvoke()
    ensures var f := InvokeExample();
            !Refused(f, 1) && Partner(f, 1, 3, [], AsWritten) && !Partner(f, 1, 3, [], Intended)
  {
    InvokeExampleNotRefused();
    InvokeExamplePartnerAsWritten();
    InvokeExampleNoPartner();
  }

  /** Neither the entry block, nor the second block itself, nor the third
      block (which does not branch to block 4) is a partner of the second. */
  lemma InvokeExampleEarlier(v: Version)
    ensures IsUncondBr(InvokeExample().blocks[1].term)
    ensures FirstPartner(InvokeExample(), 1, [], v) == FirstPartnerFrom(InvokeExample(), 1, [], 3, v)
  {
    InvokeExampleBranches();
    assert !IsPredecessor(InvokeBlock, 4);
  }

  /** The last two blocks end in `ret`, so they are no partner either. */
  lemma InvokeExampleLater(v: Version)
    ensures IsUncondBr(InvokeExample().blocks[1].term)
    ensures FirstPartnerFrom(InvokeExample(), 1, [], 4, v) == None
  {
    InvokeExampleBranches();
    assert !IsPredecessor(JoinBlock, 4) && !IsPredecessor(PadBlock, 4);
  }

  lemma InvokeExamplePartnerFound()
    ensures IsUncondBr(InvokeExample().blocks[1].term)
    ensures FirstPartner(InvokeExample(), 1, [], AsWritten) == Some(3)
  {
    InvokeExampleEarlier(AsWritten);
    InvokeExamplePartnerAsWritten();
  }

  lemma InvokeExampleNoneFound()
    ensures IsUncondBr(InvokeExample().blocks[1].term)
    ensures FirstPartner(InvokeExample(), 1, [], Intended) == None
  {
    InvokeExampleEarlier(Intended);
    InvokeExampleNoPartner();
    InvokeExampleLater(Intended);
  }

  /** The entry block is refused, so the scan reaches the second block
      with nothing changed. */
  lemma InvokeExampleFirstOffer(v: Version)
    ensures ScanUpTo(InvokeExample(), 2, v) == MergeStep(InvokeExample(), 1, [], v)
  {
    var f := InvokeExample();
    assert Refused(f, 0);
    assert ScanUpTo(f, 1, v) == (f, []);
  }

  /** The pass as written, offered the second block of `InvokeExample`,
      redirects its edges to the fourth block (number 2) and marks it; the
      intended pass leaves the function as it is. */
  lemma InvokeExampleScan()
    ensures ScanUpTo(InvokeExample(), 2, AsWritten) == (Retargeted(InvokeExample(), 1, 2), [1])
    ensures ScanUpTo(InvokeExample(), 2, Intended) == (InvokeExample(), [])
  {
    InvokeExampleNotRefused();
    InvokeExampleFirstOffer(AsWritten);
    InvokeExampleFirstOffer(Intended);
    assert ScanUpTo(InvokeExample(), 2, AsWritten) == (Retargeted(InvokeExample(), 1, 2), [1]) by {
      var f := InvokeExample();
      InvokeExamplePartnerFound();
      assert f.blocks[1].id == 1 && f.blocks[3].id == 2;
      assert Merges(f, 1, [], AsWritten);
      assert Insert([], 1) == [1];
    }
    assert ScanUpTo(InvokeExample(), 2, Intended) == (InvokeExample(), []) by {
      InvokeExampleNoneFound();
    }
  }

  // ---------------------------------------------------------------------
  // RunOnFunction (merge_bb.cc:207-213)
  // ---------------------------------------------------------------------

  /** The blocks of `bs` that are not named in `dl`, in order. */
  function Without(bs: seq<Block>, dl: seq<BlockId>): (r: seq<Block>)
    ensures |r| <= |bs|
  {
    if bs == [] then []
    else (if bs[0].id in dl then [] else [bs[0]]) + Without(bs[1..], dl)
  }

  /** `Without` keeps exactly the blocks not named in `dl`. */
  lemma {:induction false} WithoutMembers(bs: seq<Block>, dl: seq<BlockId>, b: Block)
    ensures b in Without(bs, dl) <==> b in bs && b.id !in dl
  {
    if bs != [] {
      WithoutMembers(bs[1..], dl, b);
      assert bs == [bs[0]] + bs[1..];
    }
  }

  /** Deleting one more block is deleting the longer list at once. */
  lemma {:induction false} WithoutSnoc(bs: seq<Block>, dl: seq<BlockId>, x: BlockId)
    ensures Without(Without(bs, dl), [x]) == Without(bs, dl + [x])
  {
    if bs != [] {
      var w1 := Without(bs[1..], dl);
      WithoutSnoc(bs[1..], dl, x);
      if bs[0].id in dl {
        assert Without(bs, dl) == w1;
      } else {
        var w := [bs[0]] + w1;
        assert Without(bs, dl) == w;
        assert w[1..] == w1;
      }
    }
  }

  /** The loop of line 212: `DeleteDeadBlock` on every marked block. */
  method DeleteBlocks(f: Function, dl: seq<BlockId>) returns (g: Function)
    ensures g == f.(blocks := Without(f.blocks, dl))
  {
    g := f.(blocks := Without(f.blocks, []));
    assert Without(f.blocks, []) == f.blocks by {
      WithoutNothing(f.blocks);
    }
    for k := 0 to |dl|
      invariant g == f.(blocks := Without(f.blocks, dl[..k]))
    {
      WithoutSnoc(f.blocks, dl[..k], dl[k]);
      assert dl[..k] + [dl[k]] == dl[..k + 1];
      g := g.(blocks := Without(g.blocks, [dl[k]]));
    }
    assert dl[..|dl|] == dl;
  }

  lemma {:induction false} WithoutNothing(bs: seq<Block>)
    ensures Without(bs, []) == bs
  {
    if bs != [] {
      WithoutNothing(bs[1..]);
    }
  }

  /** Retargeting leaves every block where it was, with its id and its
      body; only terminators change. */
  predicate SameLayout(f: Function, g: Function) {
    g.name == f.name && g.args == f.args && |g.blocks| == |f.blocks| &&
    forall k :: 0 <= k < |f.blocks| ==> g.blocks[k].id == f.blocks[k].id && g.blocks[k].body == f.blocks[k].body
  }

  /** No block of `bs` branches to a block named in `dl`. */
  predicate Unreferenced(bs: seq<Block>, dl: seq<BlockId>) {
    forall k, x :: 0 <= k < |bs| && x in dl ==> !IsPredecessor(bs[k], x)
  }

  /** One merge keeps every marked block unreferenced: the merged block
      loses all its predecessors, and the partner it is redirected to is
      not marked. */
  lemma MergeKeepsUnreferenced(f: Function, i: nat, dl: seq<BlockId>, v: Version)
    requires i < |f.blocks| && UniqueBlockIds(f) && Unreferenced(f.blocks, dl)
    ensures SameLayout(f, MergeStep(f, i, dl, v).0) && Unreferenced(MergeStep(f, i, dl, v).0.blocks, MergeStep(f, i, dl, v).1)
  {
    var (g, dl') := MergeStep(f, i, dl, v);
    if Merges(f, i, dl, v) {
      var j := FirstPartner(f, i, dl, v).value;
      FirstPartnerIsPartner(f, i, dl, 0, v);
      var from, to := f.blocks[i].id, f.blocks[j].id;
      assert from != to;
      forall k, x | 0 <= k < |g.blocks| && x in dl'
        ensures !IsPredecessor(g.blocks[k], x)
      {
        RetargetedEdges(f, from, to, k, x);
      }
    }
  }

  /** What the scan of `RunOnFunction` keeps true after the first `i`
      blocks: the layout is unchanged, every marked block is a non-entry
      block among the first `i`, none is marked twice, and none is the
      target of a branch. */
  predicate Scanned(f: Function, h: Function, i: nat, dl: seq<BlockId>) {
    SameLayout(f, h) && UniqueBlockIds(h) && Unreferenced(h.blocks, dl) && MarkedAmong(f, i, dl)
  }

  /** Every block on the delete list `dl` is a non-entry block among the
      first `i` blocks of `f`, and none is listed twice. */
  predicate MarkedAmong(f: Function, i: nat, dl: seq<BlockId>) {
    (forall x :: x in dl ==> exists k :: 0 < k < i && k < |f.blocks| && f.blocks[k].id == x) &&
    (forall a, b :: 0 <= a < b < |dl| ==> dl[a] != dl[b])
  }

  lemma ScanStep(f: Function, h: Function, i: nat, dl: seq<BlockId>, v: Version)
    requires i < |f.blocks| && Scanned(f, h, i, dl)
    ensures Scanned(f, MergeStep(h, i, dl, v).0, i + 1, MergeStep(h, i, dl, v).1)
  {
    MergeKeepsUnreferenced(h, i, dl, v);
    var (h', dl') := MergeStep(h, i, dl, v);
    if Merges(h, i, dl, v) {
      assert h.blocks[i].id !in dl;
      assert dl' == dl + [h.blocks[i].id];
    }
  }

  /** The entry block is not on the delete list `dl` and is first in `w`. */
  ghost predicate KeepsEntry(f: Function, w: seq<Block>, dl: seq<BlockId>) {
    |f.blocks| > 0 ==> f.blocks[0].id !in dl && |w| > 0 && w[0].id == f.blocks[0].id
  }

  /** The blocks in `w` are the blocks of `f` not on `dl`, with their bodies. */
  ghost predicate KeepsUnmarked(f: Function, w: seq<Block>, dl: seq<BlockId>) {
    (forall b :: b in w ==>
      b.id !in dl && exists k :: 0 <= k < |f.blocks| && f.blocks[k].id == b.id && f.blocks[k].body == b.body) &&
    (forall k :: 0 <= k < |f.blocks| && f.blocks[k].id !in dl ==>
      exists b :: b in w && b.id == f.blocks[k].id && b.body == f.blocks[k].body)
  }

  /** No block of `w` branches to a block on `dl`. */
  ghost predicate NoEdgeTo(w: seq<Block>, dl: seq<BlockId>) {
    forall k :: 0 <= k < |w| ==> forall x :: x in dl ==> BlockV(x) !in w[k].term.operands
  }

  /** The entry block is never marked, so it stays first. */
  lemma DeleteKeepsEntry(f: Function, h: Function, dl: seq<BlockId>)
    requires Scanned(f, h, |f.blocks|, dl)
    ensures KeepsEntry(f, Without(h.blocks, dl), dl)
  {
    if |f.blocks| > 0 {
      assert Without(h.blocks, dl) == [h.blocks[0]] + Without(h.blocks[1..], dl);
    }
  }

  /** The blocks left are the unmarked ones. */
  lemma DeleteKeepsUnmarked(f: Function, h: Function, dl: seq<BlockId>)
    requires Scanned(f, h, |f.blocks|, dl)
    ensures KeepsUnmarked(f, Without(h.blocks, dl), dl)
  {
    forall b | b in Without(h.blocks, dl)
      ensures b.id !in dl && exists k :: 0 <= k < |f.blocks| && f.blocks[k].id == b.id && f.blocks[k].body == b.body
    {
      WithoutMembers(h.blocks, dl, b);
      var k :| 0 <= k < |h.blocks| && h.blocks[k] == b;
    }
    forall k | 0 <= k < |f.blocks| && f.blocks[k].id !in dl
      ensures exists b :: b in Without(h.blocks, dl) && b.id == f.blocks[k].id && b.body == f.blocks[k].body
    {
      WithoutMembers(h.blocks, dl, h.blocks[k]);
    }
  }

  /** No block left branches to a deleted one. */
  lemma DeleteLeavesNoEdge(f: Function, h: Function, dl: seq<BlockId>)
    requires Scanned(f, h, |f.blocks|, dl)
    ensures NoEdgeTo(Without(h.blocks, dl), dl)
  {
    var w := Without(h.blocks, dl);
    forall k, x | 0 <= k < |w| && x in dl
      ensures BlockV(x) !in w[k].term.operands
    {
      WithoutMembers(h.blocks, dl, w[k]);
      var m :| 0 <= m < |h.blocks| && h.blocks[m] == w[k];
      assert !IsPredecessor(h.blocks[m], x);
    }
  }

  /** What `RunOnFunction` leaves of `f`: every block on the delete list
      `dl` is a non-entry block of `f`, listed once; the entry block is kept
      and stays first; the blocks left are the unlisted ones, with their
      bodies; and none of them branches to a deleted block. */
  ghost predicate MergedFrom(f: Function, g: Function, dl: seq<BlockId>) {
    MarkedAmong(f, |f.blocks|, dl) && g.name == f.name && g.args == f.args &&
    KeepsEntry(f, g.blocks, dl) && KeepsUnmarked(f, g.blocks, dl) && NoEdgeTo(g.blocks, dl)
  }

  /** The function and the delete list once the first `i` blocks of `f`
      have been offered to `MergeDuplicatedBlock` in turn, each seeing the
      edges redirected and the blocks marked by the merges before it. */
  function ScanUpTo(f: Function, i: nat, v: Version): (r: (Function, seq<BlockId>))
    requires i <= |f.blocks|
    ensures |r.0.blocks| == |f.blocks|
  {
    if i == 0 then (f, [])
    else MergeStep(ScanUpTo(f, i - 1, v).0, i - 1, ScanUpTo(f, i - 1, v).1, v)
  }

  /** The loop of `RunOnFunction` (merge_bb.cc:208-210): every block in
      turn is offered to `MergeDuplicatedBlock`. */
  method MergeAll(f: Function, v: Version) returns (h: Function, deleteList: seq<BlockId>)
    requires UniqueBlockIds(f)
    ensures (h, deleteList) == ScanUpTo(f, |f.blocks|, v)
    ensures Scanned(f, h, |f.blocks|, deleteList)
  {
    h := f;
    deleteList := [];
    for i := 0 to |f.blocks|
      invariant (h, deleteList) == ScanUpTo(f, i, v)
      invariant Scanned(f, h, i, deleteList)
    {
      var merged, h', dl' := MergeDuplicatedBlock(h, i, deleteList, v);
      ScanStep(f, h, i, deleteList, v);
      ScanUpToStep(f, i, v, h, deleteList, merged, h', dl');
      h, deleteList := h', dl';
    }
  }

  /** One call of `MergeDuplicatedBlock` extends the scan by one block. */
  lemma ScanUpToStep(f: Function, i: nat, v: Version, h: Function, dl: seq<BlockId>,
                     merged: bool, h': Function, dl': seq<BlockId>)
    requires i < |f.blocks| && (h, dl) == ScanUpTo(f, i, v)
    requires merged == (!Refused(h, i) && FirstPartner(h, i, dl, v).Some?)
    requires merged ==>
      h' == Retargeted(h, h.blocks[i].id, h.blocks[FirstPartner(h, i, dl, v).value].id) &&
      dl' == Insert(dl, h.blocks[i].id)
    requires !merged ==> h' == h && dl' == dl
    ensures (h', dl') == ScanUpTo(f, i + 1, v) && (h', dl') == MergeStep(h, i, dl, v)
  {
  }

  /** `h` with the blocks named in `dl` deleted. */
  function Deleted(h: Function, dl: seq<BlockId>): Function {
    h.(blocks := Without(h.blocks, dl))
  }

  /** Deleting the marked blocks after the scan leaves what `MergedFrom`
      describes. */
  lemma DeleteAfterScan(f: Function, h: Function, dl: seq<BlockId>)
    requires Scanned(f, h, |f.blocks|, dl)
    ensures MergedFrom(f, Deleted(h, dl), dl)
  {
    var w := Without(h.blocks, dl);
    assert KeepsEntry(f, w, dl) by {
      DeleteKeepsEntry(f, h, dl);
    }
    assert KeepsUnmarked(f, w, dl) by {
      DeleteKeepsUnmarked(f, h, dl);
    }
    assert NoEdgeTo(w, dl) by {
      DeleteLeavesNoEdge(f, h, dl);
    }
  }

  /** `RunOnFunction`: the scan, then the deletion of the marked blocks. */
  method RunOnFunction(f: Function, v: Version) returns (g: Function, deleteList: seq<BlockId>)
    requires UniqueBlockIds(f)
    ensures deleteList == ScanUpTo(f, |f.blocks|, v).1
    ensures g == Deleted(ScanUpTo(f, |f.blocks|, v).0, deleteList)
    ensures MergedFrom(f, g, deleteList)
  {
    var h;
    h, deleteList := MergeAll(f, v);
    g := DeleteBlocks(h, deleteList);
    DeleteAfterScan(f, h, deleteList);
  }
}
