/** The `sub` substitution of mba_sub.cc: every integer `a - b` of a block,
    whatever its width, is replaced where it stands by `(a + ~b) + 1`,
    which is the same word in two's complement. `~b` is built as
    `b ^ -1`. The final `add` keeps the number of the original instruction,
    since `ReplaceInstWithInst` hands it every use of the original; the two
    instructions built before it get fresh numbers `n` and `n + 1`. */
module MbaSub {
  import opened IR
  import opened Arith
  import opened Exec

  /** A binary `sub` whose result is an integer of any width. */
  predicate IsCandidate(i: Inst) {
    IsIntBinary(i) && i.op.Sub?
  }

  /** The instructions that replace the candidate `i`: `~b`, `a + ~b` and,
      under the number of `i`, `(a + ~b) + 1`. */
  function Substitute(i: Inst, n: ValueId): (r: seq<Inst>)
    requires IsCandidate(i)
    ensures |r| == 3 && r[0].id == n && r[1].id == n + 1 && r[2].id == i.id
    ensures forall k :: 0 <= k < 3 ==> IsIntBinary(r[k]) && r[k].ty == i.ty
  {
    var t := i.ty;
    [Inst(n, Xor, t, [i.operands[1], ConstV(-1)], []),
     Inst(n + 1, Add, t, [i.operands[0], InstV(n)], []),
     Inst(i.id, Add, t, [InstV(n + 1), ConstV(1)], [])]
  }

  /** The number of candidates in `s`. */
  function SubCount(s: seq<Inst>): nat {
    if s == [] then 0 else (if IsCandidate(s[0]) then 1 else 0) + SubCount(s[1..])
  }

  /** The block body after the loop of `RunOnBasicBlock`: every candidate
      replaced by its substitute, which takes two fresh numbers. */
  function RewriteSubs(s: seq<Inst>, n: ValueId): seq<Inst> {
    if s == [] then []
    else if !IsCandidate(s[0]) then [s[0]] + RewriteSubs(s[1..], n)
    else Substitute(s[0], n) + RewriteSubs(s[1..], n + 2)
  }

  /** Each candidate grows the body by two instructions. */
  lemma {:induction false} RewriteLength(s: seq<Inst>, n: ValueId)
    ensures |RewriteSubs(s, n)| == |s| + 2 * SubCount(s)
  {
    if s != [] {
      RewriteLength(s[1..], if IsCandidate(s[0]) then n + 2 else n);
    }
  }

  /** The state of the walk of `RunOnBasicBlock`: the iterator is at `k`
      in `insts`, which is the `j`-th instruction of the original body;
      what lies before it is the rewrite of the first `j` instructions, and
      `n` is the next fresh number. */
  ghost predicate Walked(b: Block, next: ValueId, insts: seq<Inst>, k: nat, n: ValueId, j: nat) {
    k <= |insts| && j <= |b.body| &&
    insts[k..] == b.body[j..] &&
    insts[..k] + RewriteSubs(b.body[j..], n) == RewriteSubs(b.body, next) &&
    n + 2 * SubCount(b.body[j..]) == next + 2 * SubCount(b.body)
  }

  /** The rewrite of a body is the rewrite of its first instruction
      followed by the rewrite of the rest. */
  lemma RewriteCons(s: seq<Inst>, n: ValueId)
    requires s != []
    ensures RewriteSubs(s, n) ==
      if IsCandidate(s[0]) then Substitute(s[0], n) + RewriteSubs(s[1..], n + 2) else [s[0]] + RewriteSubs(s[1..], n)
    ensures SubCount(s) == (if IsCandidate(s[0]) then 1 else 0) + SubCount(s[1..])
  {
  }

  /** One turn of the loop that steps over an instruction that is not a
      candidate. */
  lemma WalkKeep(b: Block, next: ValueId, insts: seq<Inst>, k: nat, n: ValueId, j: nat)
    requires Walked(b, next, insts, k, n, j) && k < |insts| && !IsCandidate(insts[k])
    ensures Walked(b, next, insts, k + 1, n, j + 1)
  {
    var s := b.body;
    assert s[j..][0] == insts[k] && s[j..][1..] == s[j + 1..];
    assert RewriteSubs(s[j..], n) == [insts[k]] + RewriteSubs(s[j + 1..], n) &&
           SubCount(s[j..]) == SubCount(s[j + 1..]) by {
      RewriteCons(s[j..], n);
    }
    assert insts[k + 1..] == s[j + 1..] by {
      assert insts[k + 1..] == insts[k..][1..];
    }
    assert insts[..k + 1] + RewriteSubs(s[j + 1..], n) == RewriteSubs(s, next) by {
      assert insts[..k + 1] == insts[..k] + [insts[k]];
    }
  }

  /** One turn of the loop that replaces the candidate at `k` by its
      substitute and moves past the substitute. */
  lemma WalkReplace(b: Block, next: ValueId, insts: seq<Inst>, k: nat, n: ValueId, j: nat)
    requires Walked(b, next, insts, k, n, j) && k < |insts| && IsCandidate(insts[k])
    ensures Walked(b, next, insts[..k] + Substitute(insts[k], n) + insts[k + 1..], k + 3, n + 2, j + 1)
  {
    var s := b.body;
    var sub := Substitute(insts[k], n);
    var t := insts[..k] + sub + insts[k + 1..];
    assert s[j..][0] == insts[k] && s[j..][1..] == s[j + 1..];
    assert RewriteSubs(s[j..], n) == sub + RewriteSubs(s[j + 1..], n + 2) &&
           SubCount(s[j..]) == 1 + SubCount(s[j + 1..]) by {
      RewriteCons(s[j..], n);
    }
    assert t[k + 3..] == s[j + 1..] by {
      assert t[k + 3..] == insts[k + 1..];
      assert insts[k + 1..] == insts[k..][1..];
    }
    assert t[..k + 3] + RewriteSubs(s[j + 1..], n + 2) == RewriteSubs(s, next) by {
      assert t[..k + 3] == insts[..k] + sub;
      assert insts[..k] + sub + RewriteSubs(s[j + 1..], n + 2) == insts[..k] + RewriteSubs(s[j..], n);
    }
  }

  /** `RunOnBasicBlock` (mba_sub.cc:32-62): walk the body with an iterator;
      each candidate is replaced in place by its substitute, and the walk
      goes on after it. The terminator is never a binary operator, so only
      the body is walked. */
  method RunOnBasicBlock(b: Block, next: ValueId) returns (b': Block, next': ValueId)
    ensures b' == b.(body := RewriteSubs(b.body, next))
    ensures next' == next + 2 * SubCount(b.body)
  {
    var insts := b.body;
    var k := 0;
    var n: ValueId := next;
    ghost var j := 0;
    while k < |insts|
      invariant Walked(b, next, insts, k, n, j)
      decreases |insts| - k
    {
      var inst := insts[k];
      if IsCandidate(inst) {
        WalkReplace(b, next, insts, k, n, j);
        insts := insts[..k] + Substitute(inst, n) + insts[k + 1..];
        k, n := k + 3, n + 2;
      } else {
        WalkKeep(b, next, insts, k, n, j);
        k := k + 1;
      }
      j := j + 1;
    }
    assert b.body[j..] == [] && insts[..k] == insts;
    b' := b.(body := insts);
    next' := n;
  }

  /** The blocks of a function after `RunOnFunction`, each rewritten with
      the fresh numbers its predecessors left over. */
  function RewriteBlocks(bs: seq<Block>, n: ValueId): (r: seq<Block>)
    ensures |r| == |bs|
  {
    if bs == [] then []
    else [bs[0].(body := RewriteSubs(bs[0].body, n))] + RewriteBlocks(bs[1..], n + 2 * SubCount(bs[0].body))
  }

  /** The first fresh number the `k`-th block is rewritten with. */
  function BlockStart(bs: seq<Block>, n: ValueId, k: nat): (m: ValueId)
    requires k <= |bs|
    ensures m >= n
  {
    if k == 0 then n else BlockStart(bs[1..], n + 2 * SubCount(bs[0].body), k - 1)
  }

  /** The `k`-th rewritten block is the `k`-th block with its body
      rewritten from its own start, and keeps its number and terminator. */
  lemma {:induction false} RewriteBlocksAt(bs: seq<Block>, n: ValueId, k: nat)
    requires k < |bs|
    ensures RewriteBlocks(bs, n)[k] == bs[k].(body := RewriteSubs(bs[k].body, BlockStart(bs, n, k)))
  {
    if k > 0 {
      RewriteBlocksAt(bs[1..], n + 2 * SubCount(bs[0].body), k - 1);
    }
  }

  /** `RunOnFunction` (mba_sub.cc:28-30): every block in turn. */
  method RunOnFunction(f: Function, next: ValueId) returns (g: Function)
    ensures g == f.(blocks := RewriteBlocks(f.blocks, next))
  {
    var blocks := f.blocks;
    var n: ValueId := next;
    for k := 0 to |blocks|
      invariant |blocks| == |f.blocks| && blocks[k..] == f.blocks[k..]
      invariant blocks[..k] + RewriteBlocks(f.blocks[k..], n) == RewriteBlocks(f.blocks, next)
    {
      var bb := blocks[k];
      assert f.blocks[k..][0] == bb && f.blocks[k..][1..] == f.blocks[k + 1..];
      var bb', n' := RunOnBasicBlock(bb, n);
      assert RewriteBlocks(f.blocks[k..], n) == [bb'] + RewriteBlocks(f.blocks[k + 1..], n');
      ghost var before := blocks;
      blocks := blocks[k := bb'];
      assert blocks[k + 1..] == f.blocks[k + 1..] by {
        assert blocks[k + 1..] == before[k + 1..] && before[k + 1..] == before[k..][1..];
      }
      assert blocks[..k + 1] + RewriteBlocks(f.blocks[k + 1..], n') == RewriteBlocks(f.blocks, next) by {
        assert blocks[..k + 1] == before[..k] + [bb'];
        assert before[..k] + [bb'] + RewriteBlocks(f.blocks[k + 1..], n') == before[..k] + RewriteBlocks(f.blocks[k..], n);
      }
      n := n';
    }
    g := f.(blocks := blocks);
  }

  // ---------------------------------------------------------------------
  // The substitution computes `a - b`
  // ---------------------------------------------------------------------

  /** `-1` read as a word of width `w` is the all-ones word. */
  lemma MinusOneWord(e: Env, w: nat)
    ensures Word(e, ConstV(-1), w) == Pow2(w) - 1
  {
    var m := Pow2(w);
    ModShift(-1, m - 1, m);
    ModSmall(m - 1, m);
  }

  /** Two's complement: `(a + ~b) + 1 == a - b` on words of width `w`,
      where `~b` is `b ^ (2^w - 1)` and each `add` wraps. */
  lemma {:induction false} SubIdentity(x: nat, y: nat, w: nat)
    requires x < Pow2(w) && y < Pow2(w)
    ensures var m := Pow2(w);
      ((x + BitXor(y, m - 1, w)) % m + 1 % m) % m == (x - y) % m
  {
    var m := Pow2(w);
    XorAllOnes(y, w);
    var v1 := (x + (m - 1 - y)) % m;
    ModAddLeft(1, v1, m);
    ModAddLeft(x + (m - 1 - y), 1, m);
    assert (v1 + 1 % m) % m == (x + (m - 1 - y) + 1) % m;
    ModShift(1, x - y, m);
  }

  /** The environment after the substitute of a candidate of width `w`:
      `~b`, then `a + ~b`, then `(a + ~b) + 1`, each a word. */
  lemma SubstituteRun(i: Inst, n: ValueId, e: Env, ext: Ext)
    requires IsCandidate(i) && i.id < n && forall o :: o in i.operands ==> Low(o, n)
    ensures var w := i.ty.bits;
      var m := Pow2(w);
      var v0 := BitXor(Word(e, i.operands[1], w), m - 1, w);
      var v1 := (Word(e, i.operands[0], w) + v0) % m;
      Run(Substitute(i, n), e, ext) == e[InstV(n) := v0][InstV(n + 1) := v1][InstV(i.id) := (v1 + 1 % m) % m]
  {
    var sub := Substitute(i, n);
    var w := i.ty.bits;
    var m := Pow2(w);
    var a := i.operands[0];
    assert Low(a, n) by {
      assert a in i.operands;
    }
    var v0 := BitXor(Word(e, i.operands[1], w), m - 1, w);
    var e0 := e[InstV(n) := v0];
    var v1 := (Word(e, a, w) + v0) % m;
    var e1 := e0[InstV(n + 1) := v1];
    assert Step(sub[0], e, ext) == e0 by {
      NotStep(i, n, e, ext);
    }
    assert Step(sub[1], e0, ext) == e1 by {
      AddNotStep(i, n, e, ext, v0);
    }
    assert Step(sub[2], e1, ext) == e1[InstV(i.id) := (v1 + 1 % m) % m] by {
      IncStep(i, n, e1, ext, v1);
    }
    RunThree(sub, e, ext);
  }

  /** `~b`, built as `b ^ -1`, stored under `n`. */
  lemma NotStep(i: Inst, n: ValueId, e: Env, ext: Ext)
    requires IsCandidate(i)
    ensures var w := i.ty.bits;
      Step(Substitute(i, n)[0], e, ext) == e[InstV(n) := BitXor(Word(e, i.operands[1], w), Pow2(w) - 1, w)]
  {
    StepBinary(Substitute(i, n)[0], e, ext);
    MinusOneWord(e, i.ty.bits);
  }

  /** `a + ~b` stored under `n + 1`. */
  lemma AddNotStep(i: Inst, n: ValueId, e: Env, ext: Ext, v0: nat)
    requires IsCandidate(i) && Low(i.operands[0], n) && v0 < Pow2(i.ty.bits)
    ensures var w := i.ty.bits;
      var e0 := e[InstV(n) := v0];
      Step(Substitute(i, n)[1], e0, ext) == e0[InstV(n + 1) := (Word(e, i.operands[0], w) + v0) % Pow2(w)]
  {
    var w := i.ty.bits;
    StepBinary(Substitute(i, n)[1], e[InstV(n) := v0], ext);
    WordStored(e, InstV(n), v0, i.operands[0], w);
    WordStored(e, InstV(n), v0, InstV(n), w);
    ModSmall(v0, Pow2(w));
  }

  /** `(a + ~b) + 1` stored under the number of the candidate. */
  lemma IncStep(i: Inst, n: ValueId, e1: Env, ext: Ext, v1: nat)
    requires IsCandidate(i) && Get(e1, InstV(n + 1)) == v1 && v1 < Pow2(i.ty.bits)
    ensures var m := Pow2(i.ty.bits);
      Step(Substitute(i, n)[2], e1, ext) == e1[InstV(i.id) := (v1 + 1 % m) % m]
  {
    StepBinary(Substitute(i, n)[2], e1, ext);
    ModSmall(v1, Pow2(i.ty.bits));
  }

  /** Running the substitute of a candidate stores under its number what
      the candidate computes, `a - b` modulo `2^w`, and leaves every other
      value below `n` as it was. */
  lemma SubstituteComputes(i: Inst, n: ValueId, e: Env, ext: Ext)
    requires IsCandidate(i) && i.id < n && forall o :: o in i.operands ==> Low(o, n)
    ensures Get(Run(Substitute(i, n), e, ext), InstV(i.id)) == Result(i, e, ext)
    ensures forall v :: Low(v, n) && v != InstV(i.id) ==> Get(Run(Substitute(i, n), e, ext), v) == Get(e, v)
  {
    SubstituteRun(i, n, e, ext);
    IncIsSub(i, e, ext);
  }

  /** What the substitute stores last is what the candidate computes:
      `(a + ~b) + 1` is `a - b` modulo `2^w`. */
  lemma IncIsSub(i: Inst, e: Env, ext: Ext)
    requires IsCandidate(i)
    ensures var w := i.ty.bits;
      var m := Pow2(w);
      var v0 := BitXor(Word(e, i.operands[1], w), m - 1, w);
      var v1 := (Word(e, i.operands[0], w) + v0) % m;
      (v1 + 1 % m) % m == Result(i, e, ext)
  {
    var w := i.ty.bits;
    SubIdentity(Word(e, i.operands[0], w), Word(e, i.operands[1], w), w);
  }

  // ---------------------------------------------------------------------
  // The rewritten block computes what the original did
  // ---------------------------------------------------------------------

  /** A substitute, run from environments that agree below `bound`,
      ends where the candidate itself ends. */
  lemma SubstituteAgree(i: Inst, n: ValueId, bound: ValueId, e1: Env, e2: Env, ext: Ext)
    requires IsCandidate(i) && i.id < bound <= n && forall o :: o in i.operands ==> Low(o, bound)
    requires Agree(e1, e2, bound)
    ensures Agree(Run(Substitute(i, n), e1, ext), Step(i, e2, ext), bound)
  {
    assert forall o :: o in i.operands ==> Low(o, n);
    SubstituteComputes(i, n, e1, ext);
    assert Result(i, e1, ext) == Result(i, e2, ext) by {
      assert i.operands[0] in i.operands && i.operands[1] in i.operands;
    }
  }

  /** Run from environments that agree below `bound`, the rewritten body
      and the original body end in environments that still agree below
      `bound`: every argument, global and original instruction has the
      same value after the substitution as before it. */
  lemma {:induction false} RewritePreserves(s: seq<Inst>, n: ValueId, bound: ValueId, e1: Env, e2: Env, ext: Ext)
    requires Scoped(s, bound) && bound <= n && Agree(e1, e2, bound)
    ensures Agree(Run(RewriteSubs(s, n), e1, ext), Run(s, e2, ext), bound)
  {
    if s != [] {
      var i := s[0];
      assert s[0] in s;
      assert Scoped(s[1..], bound);
      var n' := if IsCandidate(i) then n + 2 else n;
      var head := if IsCandidate(i) then Substitute(i, n) else [i];
      var rest := RewriteSubs(s[1..], n');
      assert RewriteSubs(s, n) == head + rest;
      RunAppend(head, rest, e1, ext);
      if IsCandidate(i) {
        SubstituteAgree(i, n, bound, e1, e2, ext);
      } else {
        StepAgree(i, e1, e2, bound, ext);
      }
      RewritePreserves(s[1..], n', bound, Run(head, e1, ext), Step(i, e2, ext), ext);
    }
  }

  /** Every block of the function computes after `RunOnFunction` what it
      computed before, on every value below the first fresh number. */
  lemma FunctionPreserves(f: Function, next: ValueId, k: nat, e1: Env, e2: Env, ext: Ext)
    requires k < |f.blocks| && Scoped(f.blocks[k].body, next) && Agree(e1, e2, next)
    ensures var g := RewriteBlocks(f.blocks, next);
      g[k].id == f.blocks[k].id && g[k].term == f.blocks[k].term &&
      Agree(Run(g[k].body, e1, ext), Run(f.blocks[k].body, e2, ext), next)
  {
    RewriteBlocksAt(f.blocks, next, k);
    RewritePreserves(f.blocks[k].body, BlockStart(f.blocks, next, k), next, e1, e2, ext);
  }

  // ---------------------------------------------------------------------
  // What is replaced, and where
  // ---------------------------------------------------------------------

  /** Of a substitute only its last instruction, which carries the
      candidate's number, is an original. */
  lemma OriginalsOfSubstitute(i: Inst, n: ValueId, bound: ValueId)
    requires IsCandidate(i) && i.id < bound <= n
    ensures Originals(Substitute(i, n), bound) == [Substitute(i, n)[2]]
  {
    var sub := Substitute(i, n);
    assert sub == sub[..2] + [sub[2]];
    OriginalsAppend(sub[..2], [sub[2]], bound);
    OriginalsNone(sub[..2], bound);
    assert Originals([sub[2]], bound) == [sub[2]];
  }

  /** What stands at the place of `orig` after the rewrite: an instruction
      that is not a candidate is kept as it was; a candidate is replaced by
      the final `add ..., 1` of its substitute, which keeps its number and
      width and reads a new instruction. */
  predicate Rewritten(orig: Inst, now: Inst, bound: ValueId) {
    && (!IsCandidate(orig) ==> now == orig)
    && (IsCandidate(orig) ==>
          now.id == orig.id && now.op == Add && now.ty == orig.ty && |now.operands| == 2 &&
          now.operands[1] == ConstV(1) && now.operands[0].InstV? && now.operands[0].id >= bound)
  }

  /** Leaving out the new instructions, the rewritten body is the original
      one with every instruction, in its place, kept or replaced as
      `Rewritten` says. */
  lemma {:induction false} RewriteInPlace(s: seq<Inst>, n: ValueId, bound: ValueId)
    requires Scoped(s, bound) && bound <= n
    ensures var r := Originals(RewriteSubs(s, n), bound);
      |r| == |s| && forall k :: 0 <= k < |s| ==> Rewritten(s[k], r[k], bound)
  {
    if s != [] {
      var i := s[0];
      assert s[0] in s;
      assert Scoped(s[1..], bound);
      var n' := if IsCandidate(i) then n + 2 else n;
      var head := if IsCandidate(i) then Substitute(i, n) else [i];
      var rest := RewriteSubs(s[1..], n');
      RewriteCons(s, n);
      OriginalsAppend(head, rest, bound);
      if IsCandidate(i) {
        OriginalsOfSubstitute(i, n, bound);
      } else {
        assert Originals([i], bound) == [i];
      }
      RewriteInPlace(s[1..], n', bound);
      var r := Originals(RewriteSubs(s, n), bound);
      var r1 := Originals(rest, bound);
      assert r == Originals(head, bound) + r1;
      forall k | 0 <= k < |s|
        ensures Rewritten(s[k], r[k], bound)
      {
        if k > 0 {
          assert r[k] == r1[k - 1] && s[k] == s[1..][k - 1];
        }
      }
    }
  }

  /** No `sub` on integers is left among the original instructions. */
  lemma NoCandidateLeft(s: seq<Inst>, n: ValueId, bound: ValueId)
    requires Scoped(s, bound) && bound <= n
    ensures forall i :: i in Originals(RewriteSubs(s, n), bound) ==> !IsCandidate(i)
  {
    RewriteInPlace(s, n, bound);
    var r := Originals(RewriteSubs(s, n), bound);
    forall i | i in r
      ensures !IsCandidate(i)
    {
      var k :| 0 <= k < |r| && r[k] == i;
      assert Rewritten(s[k], r[k], bound);
    }
  }
}
