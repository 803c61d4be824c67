/** An abstract view of the LLVM intermediate representation that every pass
    of the tutor reads or rewrites: modules hold integer-or-address globals and
    functions, functions hold arguments and basic blocks, and a basic block is
    an ordered instruction body ending in exactly one terminator.

    Values are identified by number, the way LLVM identifies them by address:
    an instruction's result is `InstV(id)` for the `id` of that instruction. */
module IR {

  type BlockId = nat
  type ValueId = nat

  datatype Option<T> = None | Some(value: T)

  datatype Ty = VoidTy | IntTy(bits: nat) | OtherTy

  /** The opcodes the passes distinguish; every other opcode is `Other`,
      carrying the name that `Instruction::getOpcodeName` would print. */
  datatype Opcode =
    | Add | Sub | Mul | And | Or | Xor
    | ICmpEq | Phi | Br | Switch | Ret | Call | Invoke | LandingPad | Store | Load
    | Other(name: string)

  /** Anything that can stand in an operand slot. */
  datatype Value =
    | InstV(id: ValueId)
    | ArgV(id: ValueId)
    | GlobalV(id: ValueId)
    | ConstV(c: int)
    | BlockV(b: BlockId)
    | FuncV(name: string)

  /** An instruction. For a phi, `incoming[k]` is the block the value
      `operands[k]` flows in from; for every other opcode `incoming` is empty.
      Branch operands follow one convention: `br label %d` is `[BlockV(d)]`,
      `br i1 %c, label %t, label %e` is `[c, BlockV(t), BlockV(e)]`. A call's
      last operand is the callee. */
  datatype Inst = Inst(id: ValueId, op: Opcode, ty: Ty, operands: seq<Value>, incoming: seq<BlockId>)

  datatype Block = Block(id: BlockId, body: seq<Inst>, term: Inst)

  datatype Arg = Arg(id: ValueId, ty: Ty)

  datatype Global = Global(id: ValueId, ty: Ty)

  datatype Function = Function(name: string, args: seq<Arg>, blocks: seq<Block>)

  datatype Module = Module(globals: seq<Global>, functions: seq<Function>)

  /** Every instruction of a block, the terminator last. */
  function Insts(b: Block): (r: seq<Inst>)
    ensures |r| == |b.body| + 1 && r[|b.body|] == b.term
  {
    b.body + [b.term]
  }

  /** Every instruction of `bs`, block by block, in the order the passes
      walk them. */
  function BlocksInsts(bs: seq<Block>): seq<Inst> {
    if bs == [] then [] else BlocksInsts(bs[..|bs| - 1]) + Insts(bs[|bs| - 1])
  }

  /** The instructions of the first `bi + 1` blocks are those of the first
      `bi`, then those of block `bi`. */
  lemma BlockStep(bs: seq<Block>, bi: nat)
    requires bi < |bs|
    ensures BlocksInsts(bs[..bi + 1]) == BlocksInsts(bs[..bi]) + Insts(bs[bi])
  {
    assert bs[..bi + 1][..bi] == bs[..bi];
  }

  /** Every instruction of a function list, function by function. */
  function FunctionsInsts(fs: seq<Function>): seq<Inst> {
    if fs == [] then [] else FunctionsInsts(fs[..|fs| - 1]) + BlocksInsts(fs[|fs| - 1].blocks)
  }

  /** `isa<BinaryOperator>`, restricted to the opcodes modelled here. */
  predicate IsBinary(op: Opcode) {
    op.Add? || op.Sub? || op.Mul? || op.And? || op.Or? || op.Xor?
  }

  /** `isa<CallBase>`. */
  predicate IsCallBase(op: Opcode) {
    op.Call? || op.Invoke?
  }

  /** `Instruction::getOpcodeName`. */
  function OpcodeName(op: Opcode): string {
    match op
    case Add => "add"
    case Sub => "sub"
    case Mul => "mul"
    case And => "and"
    case Or => "or"
    case Xor => "xor"
    case ICmpEq => "icmp"
    case Phi => "phi"
    case Br => "br"
    case Switch => "switch"
    case Ret => "ret"
    case Call => "call"
    case Invoke => "invoke"
    case LandingPad => "landingpad"
    case Store => "store"
    case Load => "load"
    case Other(name) => name
  }

  /** `CallBase::getCalledFunction`: the callee when the called operand is a
      function (a direct call), nothing for an indirect call. */
  function CalledFunction(inst: Inst): Option<string> {
    if IsCallBase(inst.op) && |inst.operands| > 0 && inst.operands[|inst.operands| - 1].FuncV? then
      Some(inst.operands[|inst.operands| - 1].name)
    else
      None
  }

  /** `isa<DbgInfoIntrinsic>`: a call of one of the debug-info intrinsics. */
  predicate IsDbgInfo(inst: Inst) {
    inst.op.Call? && CalledFunction(inst).Some? &&
    CalledFunction(inst).value in {"llvm.dbg.declare", "llvm.dbg.value", "llvm.dbg.label", "llvm.dbg.addr"}
  }

  /** The index of `BasicBlock::getFirstNonPHI` in `Insts(b)`. */
  function FirstNonPhi(s: seq<Inst>): (k: nat)
    ensures k <= |s|
    ensures forall j :: 0 <= j < k ==> s[j].op.Phi?
    ensures k < |s| ==> !s[k].op.Phi?
  {
    if s == [] || !s[0].op.Phi? then 0 else 1 + FirstNonPhi(s[1..])
  }

  /** `BasicBlock::isLandingPad`: the first non-phi instruction is a landingpad. */
  predicate IsLandingPad(b: Block) {
    var all := Insts(b);
    var k := FirstNonPhi(all);
    k < |all| && all[k].op.LandingPad?
  }

  /** The successor blocks named by a terminator, in operand order. */
  function Successors(term: Inst): (r: seq<BlockId>)
    ensures forall d :: d in r <==> BlockV(d) in term.operands
  {
    BlockTargets(term.operands)
  }

  function BlockTargets(ops: seq<Value>): (r: seq<BlockId>)
    ensures forall d :: d in r <==> BlockV(d) in ops
  {
    if ops == [] then []
    else (if ops[0].BlockV? then [ops[0].b] else []) + BlockTargets(ops[1..])
  }

  /** `BranchInst::isConditional` for a `br`. */
  predicate IsConditionalBr(term: Inst) {
    term.op.Br? && |term.operands| == 3
  }

  /** A block whose terminator names `b` is a predecessor of `b`. */
  predicate IsPredecessor(p: Block, b: BlockId) {
    BlockV(b) in p.term.operands
  }

  /** The blocks of `f` with the given id, which is one block in valid IR. */
  predicate UniqueBlockIds(f: Function) {
    forall i, j :: 0 <= i < j < |f.blocks| ==> f.blocks[i].id != f.blocks[j].id
  }

  function IndexOfBlock(blocks: seq<Block>, b: BlockId): (r: Option<nat>)
    ensures r.Some? ==> r.value < |blocks| && blocks[r.value].id == b
    ensures r.Some? ==> forall j :: 0 <= j < r.value ==> blocks[j].id != b
    ensures r.None? ==> forall j :: 0 <= j < |blocks| ==> blocks[j].id != b
  {
    if blocks == [] then None
    else if blocks[0].id == b then Some(0)
    else match IndexOfBlock(blocks[1..], b)
      case None => None
      case Some(k) => Some(k + 1)
  }
}
