/** The meaning of a straight-line run of instructions: each instruction
    stores its result under `InstV(id)` in an environment that also holds
    the arguments and globals. Integer binary operators compute on words
    of their result width; what any other instruction computes is given by
    `ext` from its opcode, type, phi entries and operand values, the same
    in every run. */
module Exec {
  import opened IR
  import opened Arith

  type Env = map<Value, int>

  /** What everything but the integer binary operators computes, from the
      instruction's opcode, type and phi entries and its operand values. */
  type Ext = (Opcode, Ty, seq<BlockId>, seq<int>) -> int

  function Get(e: Env, v: Value): int {
    if v.ConstV? then v.c else if v in e then e[v] else 0
  }

  /** An operand read as a word of width `w`. */
  function Word(e: Env, v: Value, w: nat): (x: nat)
    ensures x < Pow2(w)
  {
    Get(e, v) % Pow2(w)
  }

  function Apply(op: Opcode, x: nat, y: nat, w: nat): int {
    var m := Pow2(w);
    match op
    case Add => (x + y) % m
    case Sub => (x - y) % m
    case Mul => (x * y) % m
    case And => BitAnd(x, y, w)
    case Or => BitOr(x, y, w)
    case Xor => BitXor(x, y, w)
    case _ => 0
  }

  /** A `BinaryOperator` on integers: two operands, an integer result. */
  predicate IsIntBinary(i: Inst) {
    IsBinary(i.op) && i.ty.IntTy? && |i.operands| == 2
  }

  function Values(e: Env, ops: seq<Value>): (r: seq<int>)
    ensures |r| == |ops| && forall k :: 0 <= k < |ops| ==> r[k] == Get(e, ops[k])
  {
    if ops == [] then [] else [Get(e, ops[0])] + Values(e, ops[1..])
  }

  function Result(i: Inst, e: Env, ext: Ext): int {
    if IsIntBinary(i) then
      Apply(i.op, Word(e, i.operands[0], i.ty.bits), Word(e, i.operands[1], i.ty.bits), i.ty.bits)
    else
      ext(i.op, i.ty, i.incoming, Values(e, i.operands))
  }

  function Step(i: Inst, e: Env, ext: Ext): Env {
    e[InstV(i.id) := Result(i, e, ext)]
  }

  function Run(s: seq<Inst>, e: Env, ext: Ext): Env {
    if s == [] then e else Run(s[1..], Step(s[0], e, ext), ext)
  }

  lemma {:induction false} RunAppend(s: seq<Inst>, t: seq<Inst>, e: Env, ext: Ext)
    ensures Run(s + t, e, ext) == Run(t, Run(s, e, ext), ext)
  {
    if s != [] {
      assert (s + t)[0] == s[0] && (s + t)[1..] == s[1..] + t;
      RunAppend(s[1..], t, Step(s[0], e, ext), ext);
      assert Run(s + t, e, ext) == Run(s[1..] + t, Step(s[0], e, ext), ext);
    } else {
      assert s + t == t;
    }
  }

  /** A value that is not an instruction numbered `n` or above. */
  predicate Low(v: Value, n: ValueId) {
    !(v.InstV? && v.id >= n)
  }

  /** Two environments that agree on every value below `n`. */
  ghost predicate Agree(e1: Env, e2: Env, n: ValueId) {
    forall v :: Low(v, n) ==> Get(e1, v) == Get(e2, v)
  }

  /** Every instruction of `s` is numbered below `n` and reads only values
      below `n`: numbers from `n` on are free for new instructions. */
  predicate Scoped(s: seq<Inst>, n: ValueId) {
    forall k :: 0 <= k < |s| ==> s[k].id < n && forall o :: o in s[k].operands ==> Low(o, n)
  }

  /** The same instruction, run on environments that agree below `n`,
      gives environments that still agree. */
  lemma StepAgree(i: Inst, e1: Env, e2: Env, n: ValueId, ext: Ext)
    requires Agree(e1, e2, n) && i.id < n && forall o :: o in i.operands ==> Low(o, n)
    ensures Agree(Step(i, e1, ext), Step(i, e2, ext), n)
  {
    assert Values(e1, i.operands) == Values(e2, i.operands);
    if IsIntBinary(i) {
      assert i.operands[0] in i.operands && i.operands[1] in i.operands;
    }
  }

  /** Reading back a word just stored gives it; storing elsewhere does not
      change a read. */
  lemma WordStored(e: Env, u: Value, x: int, v: Value, w: nat)
    requires !u.ConstV?
    ensures Word(e[u := x], v, w) == if v == u then x % Pow2(w) else Word(e, v, w)
  {
  }

  /** An integer binary operator stores the operator applied to its two
      operand words. */
  lemma StepBinary(i: Inst, e: Env, ext: Ext)
    requires IsIntBinary(i)
    ensures Step(i, e, ext) ==
      e[InstV(i.id) := Apply(i.op, Word(e, i.operands[0], i.ty.bits), Word(e, i.operands[1], i.ty.bits), i.ty.bits)]
  {
  }

  lemma RunAt(s: seq<Inst>, k: nat, e: Env, ext: Ext)
    requires k < |s|
    ensures Run(s[k..], e, ext) == Run(s[k + 1..], Step(s[k], e, ext), ext)
  {
    assert s[k..][0] == s[k] && s[k..][1..] == s[k + 1..];
  }

  /** Three instructions run one after the other. */
  lemma RunThree(s: seq<Inst>, e: Env, ext: Ext)
    requires |s| == 3
    ensures Run(s, e, ext) == Step(s[2], Step(s[1], Step(s[0], e, ext), ext), ext)
  {
    var e1 := Step(s[0], e, ext);
    var e2 := Step(s[1], e1, ext);
    assert s[0..] == s && s[3..] == [];
    RunAt(s, 0, e, ext);
    RunAt(s, 1, e1, ext);
    RunAt(s, 2, e2, ext);
  }

  /** Four instructions run one after the other. */
  lemma RunFour(s: seq<Inst>, e: Env, ext: Ext)
    requires |s| == 4
    ensures Run(s, e, ext) == Step(s[3], Step(s[2], Step(s[1], Step(s[0], e, ext), ext), ext), ext)
  {
    var e1 := Step(s[0], e, ext);
    var e2 := Step(s[1], e1, ext);
    var e3 := Step(s[2], e2, ext);
    assert s[0..] == s && s[4..] == [];
    RunAt(s, 0, e, ext);
    RunAt(s, 1, e1, ext);
    RunAt(s, 2, e2, ext);
    RunAt(s, 3, e3, ext);
  }

  /** The instructions of `s` numbered below `bound`, in order. */
  function Originals(s: seq<Inst>, bound: ValueId): seq<Inst> {
    if s == [] then [] else (if s[0].id < bound then [s[0]] else []) + Originals(s[1..], bound)
  }

  lemma {:induction false} OriginalsAppend(s: seq<Inst>, t: seq<Inst>, bound: ValueId)
    ensures Originals(s + t, bound) == Originals(s, bound) + Originals(t, bound)
  {
    if s == [] {
      assert s + t == t;
    } else {
      assert (s + t)[0] == s[0] && (s + t)[1..] == s[1..] + t;
      OriginalsAppend(s[1..], t, bound);
    }
  }

  lemma {:induction false} OriginalsNone(s: seq<Inst>, bound: ValueId)
    requires forall k :: 0 <= k < |s| ==> s[k].id >= bound
    ensures Originals(s, bound) == []
  {
    if s != [] {
      OriginalsNone(s[1..], bound);
    }
  }
}
