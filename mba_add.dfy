/** The `add` substitution of mba_add.cc: every 8-bit integer `a + b` of a
    block is replaced, where it stands, by the mixed boolean-arithmetic
    expression `(((a ^ b) + 2 * (a & b)) * 39 + 23) * 151 + 111`, which is
    the same number modulo 256. The replacement keeps the number of the
    original instruction, since `ReplaceInstWithInst` hands it every use of
    the original; the seven instructions built before it get fresh numbers
    from `n` on. */
module MbaAdd {
  import opened IR
  import opened Arith
  import opened Exec

  /** `kRatio`: the share of candidates to substitute. */
  const KRatio: real := 1.0

  /** A binary `add` whose result is an 8-bit integer. */
  predicate IsCandidate(i: Inst) {
    IsIntBinary(i) && i.op.Add? && i.ty == IntTy(8)
  }

  /** The instructions that replace the candidate `i`, built from its two
      operands: `e0 = a ^ b`, `a & b`, `e1 = 2 * (a & b)`, `e2 = e0 + e1`,
      `e3 = e2 * 39`, `e4 = e3 + 23`, `e5 = e4 * 151` and, last, under the
      number of `i`, `e5 + 111`. */
  function Substitute(i: Inst, n: ValueId): (r: seq<Inst>)
    requires IsCandidate(i)
    ensures |r| == 8 && r[7].id == i.id && r[7].op == Add && r[7].ty == i.ty
    ensures r[7].operands == [InstV(n + 6), ConstV(111)]
    ensures forall k :: 0 <= k < 7 ==> r[k].id == n + k
  {
    var a := i.operands[0];
    var b := i.operands[1];
    var t := i.ty;
    [Inst(n, Xor, t, [a, b], []),
     Inst(n + 1, And, t, [a, b], []),
     Inst(n + 2, Mul, t, [ConstV(2), InstV(n + 1)], []),
     Inst(n + 3, Add, t, [InstV(n), InstV(n + 2)], []),
     Inst(n + 4, Mul, t, [InstV(n + 3), ConstV(39)], []),
     Inst(n + 5, Add, t, [InstV(n + 4), ConstV(23)], []),
     Inst(n + 6, Mul, t, [InstV(n + 5), ConstV(151)], []),
     Inst(i.id, Add, t, [InstV(n + 6), ConstV(111)], [])]
  }

  /** The block body after the loop of `RunOnBasicBlock`: the `c`-th
      candidate is substituted unless the `c`-th draw exceeds `KRatio`. */
  function RewriteAdds(s: seq<Inst>, n: ValueId, c: nat, draw: nat -> real): seq<Inst> {
    if s == [] then []
    else if !IsCandidate(s[0]) then [s[0]] + RewriteAdds(s[1..], n, c, draw)
    else if draw(c) > KRatio then [s[0]] + RewriteAdds(s[1..], n, c + 1, draw)
    else Substitute(s[0], n) + RewriteAdds(s[1..], n + 7, c + 1, draw)
  }

  /** The next fresh number after `RewriteAdds`: seven more for every
      substituted candidate. */
  function FreshAfter(s: seq<Inst>, n: ValueId, c: nat, draw: nat -> real): (r: ValueId)
    ensures r >= n
  {
    if s == [] then n
    else if !IsCandidate(s[0]) then FreshAfter(s[1..], n, c, draw)
    else if draw(c) > KRatio then FreshAfter(s[1..], n, c + 1, draw)
    else FreshAfter(s[1..], n + 7, c + 1, draw)
  }

  /** The state of the walk of `RunOnBasicBlock`: the iterator is at `k`
      in `insts`, which is the `j`-th instruction of the original body;
      what lies before it is the rewrite of the first `j` instructions,
      `n` is the next fresh number and `c` the number of draws made. */
  ghost predicate Walked(b: Block, next: ValueId, draw: nat -> real, insts: seq<Inst>, k: nat, n: ValueId, c: nat, j: nat) {
    k <= |insts| && j <= |b.body| &&
    insts[k..] == b.body[j..] &&
    insts[..k] + RewriteAdds(b.body[j..], n, c, draw) == RewriteAdds(b.body, next, 0, draw) &&
    FreshAfter(b.body[j..], n, c, draw) == FreshAfter(b.body, next, 0, draw)
  }

  /** The rewrite of a body is the rewrite of its first instruction
      followed by the rewrite of the rest. */
  lemma RewriteCons(s: seq<Inst>, n: ValueId, c: nat, draw: nat -> real)
    requires s != []
    ensures var i := s[0];
      var replaced := IsCandidate(i) && draw(c) <= KRatio;
      var c' := if IsCandidate(i) then c + 1 else c;
      var n' := if replaced then n + 7 else n;
      && RewriteAdds(s, n, c, draw) == (if replaced then Substitute(i, n) else [i]) + RewriteAdds(s[1..], n', c', draw)
      && FreshAfter(s, n, c, draw) == FreshAfter(s[1..], n', c', draw)
  {
  }

  /** One turn of the loop that steps over the instruction at `k`: it is
      not a candidate, or its draw exceeds `KRatio`. */
  lemma WalkKeep(b: Block, next: ValueId, draw: nat -> real, insts: seq<Inst>, k: nat, n: ValueId, c: nat, j: nat)
    requires Walked(b, next, draw, insts, k, n, c, j) && k < |insts|
    requires !IsCandidate(insts[k]) || draw(c) > KRatio
    ensures Walked(b, next, draw, insts, k + 1, n, if IsCandidate(insts[k]) then c + 1 else c, j + 1)
  {
    var s := b.body;
    var c' := if IsCandidate(insts[k]) then c + 1 else c;
    assert s[j..][0] == insts[k] && s[j..][1..] == s[j + 1..];
    assert RewriteAdds(s[j..], n, c, draw) == [insts[k]] + RewriteAdds(s[j + 1..], n, c', draw) &&
           FreshAfter(s[j..], n, c, draw) == FreshAfter(s[j + 1..], n, c', draw) by {
      RewriteCons(s[j..], n, c, draw);
    }
    assert insts[k + 1..] == s[j + 1..] by {
      assert insts[k + 1..] == insts[k..][1..];
    }
    assert insts[..k + 1] + RewriteAdds(s[j + 1..], n, c', draw) == RewriteAdds(s, next, 0, draw) by {
      assert insts[..k + 1] == insts[..k] + [insts[k]];
    }
  }

  /** One turn of the loop that replaces the candidate at `k` by its
      substitute and moves past the substitute. */
  lemma WalkReplace(b: Block, next: ValueId, draw: nat -> real, insts: seq<Inst>, k: nat, n: ValueId, c: nat, j: nat)
    requires Walked(b, next, draw, insts, k, n, c, j) && k < |insts|
    requires IsCandidate(insts[k]) && draw(c) <= KRatio
    ensures Walked(b, next, draw, insts[..k] + Substitute(insts[k], n) + insts[k + 1..], k + 8, n + 7, c + 1, j + 1)
  {
    var s := b.body;
    var sub := Substitute(insts[k], n);
    var t := insts[..k] + sub + insts[k + 1..];
    assert s[j..][0] == insts[k] && s[j..][1..] == s[j + 1..];
    assert RewriteAdds(s[j..], n, c, draw) == sub + RewriteAdds(s[j + 1..], n + 7, c + 1, draw) &&
           FreshAfter(s[j..], n, c, draw) == FreshAfter(s[j + 1..], n + 7, c + 1, draw) by {
      RewriteCons(s[j..], n, c, draw);
    }
    assert t[k + 8..] == s[j + 1..] by {
      assert t[k + 8..] == insts[k + 1..];
      assert insts[k + 1..] == insts[k..][1..];
    }
    assert t[..k + 8] + RewriteAdds(s[j + 1..], n + 7, c + 1, draw) == RewriteAdds(s, next, 0, draw) by {
      assert t[..k + 8] == insts[..k] + sub;
      assert insts[..k] + sub + RewriteAdds(s[j + 1..], n + 7, c + 1, draw) == insts[..k] + RewriteAdds(s[j..], n, c, draw);
    }
  }

  /** `RunOnBasicBlock` (mba_add.cc:35-105): walk the body with an iterator;
      each candidate whose draw does not exceed `KRatio` is replaced in
      place by its substitute, and the walk goes on after it. `draw(c)` is
      the `c`-th number drawn from the generator, which is seeded afresh
      with the same seed for each block. The terminator is never a binary
      operator, so only the body is walked. */
  method RunOnBasicBlock(b: Block, next: ValueId, draw: nat -> real) returns (b': Block, next': ValueId)
    ensures b' == b.(body := RewriteAdds(b.body, next, 0, draw))
    ensures next' == FreshAfter(b.body, next, 0, draw)
  {
    var insts := b.body;
    var k := 0;
    var n: ValueId := next;
    var c := 0;
    ghost var j := 0;
    while k < |insts|
      invariant Walked(b, next, draw, insts, k, n, c, j)
      decreases |insts| - k
    {
      var inst := insts[k];
      if !IsCandidate(inst) {
        WalkKeep(b, next, draw, insts, k, n, c, j);
        k := k + 1;
      } else if draw(c) > KRatio {
        WalkKeep(b, next, draw, insts, k, n, c, j);
        k, c := k + 1, c + 1;
      } else {
        WalkReplace(b, next, draw, insts, k, n, c, j);
        insts := insts[..k] + Substitute(inst, n) + insts[k + 1..];
        k, n, c := k + 8, n + 7, c + 1;
      }
      j := j + 1;
    }
    assert b.body[j..] == [] && insts[..k] == insts;
    b' := b.(body := insts);
    next' := n;
  }

  /** The blocks of a function after `RunOnFunction`, each rewritten with
      the fresh numbers its predecessors left over and the draws from the
      start. */
  function RewriteBlocks(bs: seq<Block>, n: ValueId, draw: nat -> real): (r: seq<Block>)
    ensures |r| == |bs|
  {
    if bs == [] then []
    else [bs[0].(body := RewriteAdds(bs[0].body, n, 0, draw))] + RewriteBlocks(bs[1..], FreshAfter(bs[0].body, n, 0, draw), draw)
  }

  /** The first fresh number the `k`-th block is rewritten with. */
  function BlockStart(bs: seq<Block>, n: ValueId, draw: nat -> real, k: nat): (m: ValueId)
    requires k <= |bs|
    ensures m >= n
  {
    if k == 0 then n else BlockStart(bs[1..], FreshAfter(bs[0].body, n, 0, draw), draw, k - 1)
  }

  /** The `k`-th rewritten block is the `k`-th block with its body
      rewritten from its own start, and keeps its number and terminator. */
  lemma {:induction false} RewriteBlocksAt(bs: seq<Block>, n: ValueId, draw: nat -> real, k: nat)
    requires k < |bs|
    ensures RewriteBlocks(bs, n, draw)[k] == bs[k].(body := RewriteAdds(bs[k].body, BlockStart(bs, n, draw, k), 0, draw))
  {
    if k > 0 {
      RewriteBlocksAt(bs[1..], FreshAfter(bs[0].body, n, 0, draw), draw, k - 1);
    }
  }

  /** `RunOnFunction` (mba_add.cc:31-33): every block in turn. */
  method RunOnFunction(f: Function, next: ValueId, draw: nat -> real) returns (g: Function)
    ensures g == f.(blocks := RewriteBlocks(f.blocks, next, draw))
  {
    var blocks := f.blocks;
    var n: ValueId := next;
    for k := 0 to |blocks|
      invariant |blocks| == |f.blocks| && blocks[k..] == f.blocks[k..]
      invariant blocks[..k] + RewriteBlocks(f.blocks[k..], n, draw) == RewriteBlocks(f.blocks, next, draw)
    {
      var bb := blocks[k];
      assert f.blocks[k..][0] == bb && f.blocks[k..][1..] == f.blocks[k + 1..];
      var bb', n' := RunOnBasicBlock(bb, n, draw);
      assert RewriteBlocks(f.blocks[k..], n, draw) == [bb'] + RewriteBlocks(f.blocks[k + 1..], n', draw);
      ghost var before := blocks;
      blocks := blocks[k := bb'];
      assert blocks[k + 1..] == f.blocks[k + 1..] by {
        assert blocks[k + 1..] == before[k + 1..] && before[k + 1..] == before[k..][1..];
      }
      assert blocks[..k + 1] + RewriteBlocks(f.blocks[k + 1..], n', draw) == RewriteBlocks(f.blocks, next, draw) by {
        assert blocks[..k + 1] == before[..k] + [bb'];
        assert before[..k] + [bb'] + RewriteBlocks(f.blocks[k + 1..], n', draw) == before[..k] + RewriteBlocks(f.blocks[k..], n, draw);
      }
      n := n';
    }
    g := f.(blocks := blocks);
  }

  // ---------------------------------------------------------------------
  // The substitution computes `a + b`
  // ---------------------------------------------------------------------

  lemma Pow2Eight()
    ensures Pow2(8) == 256
  {
    assert Pow2(2) == 4;
    assert Pow2(4) == 16;
  }

  /** `(e * 39 + 23) * 151 + 111 == e` modulo 256, step by step as the
      instructions wrap: `39 * 151 == 1 + 23 * 256` and
      `23 * 151 + 111 == 14 * 256`. */
  lemma AffineInverse(e: nat)
    requires e < 256
    ensures ((((e * 39) % 256 + 23) % 256 * 151) % 256 + 111) % 256 == e
  {
    var e3 := (e * 39) % 256;
    var e4 := (e3 + 23) % 256;
    ModAddLeft(e * 39, 23, 256);
    assert e4 == (e * 39 + 23) % 256;
    var e5 := (e4 * 151) % 256;
    ModMulLeft(e * 39 + 23, 151, 256);
    assert e5 == ((e * 39 + 23) * 151) % 256;
    ModAddLeft((e * 39 + 23) * 151, 111, 256);
    assert (e * 39 + 23) * 151 + 111 == 256 * (23 * e + 14) + e;
    ModShift(23 * e + 14, e, 256);
    ModSmall(e, 256);
  }

  /** `e0 = a ^ b` and `a & b`, stored under `n` and `n + 1`. */
  lemma StepsXorAnd(i: Inst, n: ValueId, e: Env, ext: Ext)
    requires IsCandidate(i) && i.id < n && forall o :: o in i.operands ==> Low(o, n)
    ensures var sub := Substitute(i, n);
      var x, y := Word(e, i.operands[0], 8), Word(e, i.operands[1], 8);
      Step(sub[1], Step(sub[0], e, ext), ext) == e[InstV(n) := BitXor(x, y, 8)][InstV(n + 1) := BitAnd(x, y, 8)]
  {
    Pow2Eight();
    var sub := Substitute(i, n);
    var a, b := i.operands[0], i.operands[1];
    assert a in i.operands && b in i.operands;
    var x, y := Word(e, a, 8), Word(e, b, 8);
    var e0 := e[InstV(n) := BitXor(x, y, 8)];
    StepBinary(sub[0], e, ext);
    assert Step(sub[0], e, ext) == e0;
    StepBinary(sub[1], e0, ext);
    WordStored(e, InstV(n), BitXor(x, y, 8), a, 8);
    WordStored(e, InstV(n), BitXor(x, y, 8), b, 8);
  }

  /** `e1 = 2 * (a & b)` and `e2 = e0 + e1`, stored under `n + 2` and
      `n + 3`. */
  lemma StepsMulAdd(i: Inst, n: ValueId, e1: Env, ext: Ext, v0: nat, v1: nat)
    requires IsCandidate(i) && v0 < 256 && v1 < 256
    requires Get(e1, InstV(n)) == v0 && Get(e1, InstV(n + 1)) == v1
    ensures var sub := Substitute(i, n);
      var v2 := (2 * v1) % 256;
      Step(sub[3], Step(sub[2], e1, ext), ext) == e1[InstV(n + 2) := v2][InstV(n + 3) := (v0 + v2) % 256]
  {
    Pow2Eight();
    var sub := Substitute(i, n);
    var v2 := (2 * v1) % 256;
    var e2 := e1[InstV(n + 2) := v2];
    assert Step(sub[2], e1, ext) == e2 by {
      StepBinary(sub[2], e1, ext);
      ModSmall(v1, 256);
      assert Word(e1, ConstV(2), 8) == 2;
      assert Word(e1, InstV(n + 1), 8) == v1;
      assert Apply(Mul, 2, v1, 8) == v2;
    }
    StepBinary(sub[3], e2, ext);
    ModSmall(v0, 256);
    ModSmall(v2, 256);
    WordStored(e1, InstV(n + 2), v2, InstV(n), 8);
    WordStored(e1, InstV(n + 2), v2, InstV(n + 2), 8);
  }

  /** The environment after the first four instructions of the
      substitute. */
  lemma FirstFour(i: Inst, n: ValueId, e: Env, ext: Ext)
    requires IsCandidate(i) && i.id < n && forall o :: o in i.operands ==> Low(o, n)
    ensures var x, y := Word(e, i.operands[0], 8), Word(e, i.operands[1], 8);
      var v0, v1 := BitXor(x, y, 8), BitAnd(x, y, 8);
      var v2 := (2 * v1) % 256;
      Run(Substitute(i, n)[..4], e, ext) ==
        e[InstV(n) := v0][InstV(n + 1) := v1][InstV(n + 2) := v2][InstV(n + 3) := (v0 + v2) % 256]
  {
    Pow2Eight();
    var sub := Substitute(i, n)[..4];
    var x, y := Word(e, i.operands[0], 8), Word(e, i.operands[1], 8);
    var v0, v1 := BitXor(x, y, 8), BitAnd(x, y, 8);
    var e1 := e[InstV(n) := v0][InstV(n + 1) := v1];
    StepsXorAnd(i, n, e, ext);
    StepsMulAdd(i, n, e1, ext, v0, v1);
    RunFour(sub, e, ext);
  }

  /** The first four instructions of the substitute leave
      `(a ^ b) + 2 * (a & b)`, which is `a + b` modulo 256, in `e2`. */
  lemma FirstHalf(i: Inst, n: ValueId, e: Env, ext: Ext)
    requires IsCandidate(i) && i.id < n && forall o :: o in i.operands ==> Low(o, n)
    ensures var e' := Run(Substitute(i, n)[..4], e, ext);
      Get(e', InstV(n + 3)) == (Word(e, i.operands[0], 8) + Word(e, i.operands[1], 8)) % 256 &&
      forall v :: Low(v, n) ==> Get(e', v) == Get(e, v)
  {
    FirstFour(i, n, e, ext);
    SumStored(e, n, Word(e, i.operands[0], 8), Word(e, i.operands[1], 8));
    FirstHalfKeeps(i, n, e, ext);
  }

  /** The fourth value the first half stores is `x + y` modulo 256. */
  lemma SumStored(e: Env, n: ValueId, x: nat, y: nat)
    requires x < 256 && y < 256
    ensures var v0, v1 := BitXor(x, y, 8), BitAnd(x, y, 8);
      var v2 := (2 * v1) % 256;
      Get(e[InstV(n) := v0][InstV(n + 1) := v1][InstV(n + 2) := v2][InstV(n + 3) := (v0 + v2) % 256], InstV(n + 3)) ==
        (x + y) % 256
  {
    Pow2Eight();
    XorAndWrap(x, y);
  }

  lemma FirstHalfKeeps(i: Inst, n: ValueId, e: Env, ext: Ext)
    requires IsCandidate(i) && i.id < n && forall o :: o in i.operands ==> Low(o, n)
    ensures forall v :: Low(v, n) ==> Get(Run(Substitute(i, n)[..4], e, ext), v) == Get(e, v)
  {
    FirstFour(i, n, e, ext);
  }

  /** `(a ^ b) + (2 * (a & b) mod 256)` is `a + b` modulo 256. */
  lemma XorAndWrap(x: nat, y: nat)
    requires x < Pow2(8) && y < Pow2(8)
    ensures (BitXor(x, y, 8) + (2 * BitAnd(x, y, 8)) % 256) % 256 == (x + y) % 256
  {
    XorAndSum(x, y, 8);
    CarriesWrap(BitXor(x, y, 8), BitAnd(x, y, 8), x + y);
  }

  /** Wrapping the doubled carries before adding them does not change the
      sum modulo 256. */
  lemma CarriesWrap(v0: int, v1: int, sum: int)
    requires v0 + 2 * v1 == sum
    ensures (v0 + (2 * v1) % 256) % 256 == sum % 256
  {
    ModAddLeft(2 * v1, v0, 256);
  }

  /** An 8-bit `add` or `mul` of a stored byte `x` and the constant `k`. */
  lemma StepByConst(i: Inst, e: Env, ext: Ext, x: nat, k: nat)
    requires IsIntBinary(i) && i.ty == IntTy(8) && (i.op.Add? || i.op.Mul?)
    requires i.operands[0].InstV? && Get(e, i.operands[0]) == x && x < 256
    requires i.operands[1] == ConstV(k) && k < 256
    ensures Step(i, e, ext) == e[InstV(i.id) := if i.op.Add? then (x + k) % 256 else (x * k) % 256]
  {
    Pow2Eight();
    StepBinary(i, e, ext);
    ModSmall(x, 256);
    ModSmall(k, 256);
  }

  /** The last four instructions turn `e2` into `e2 * 39 + 23`, times 151,
      plus 111, which is `e2` again modulo 256, and store it under the
      number of the candidate. */
  lemma SecondHalf(i: Inst, n: ValueId, e: Env, ext: Ext)
    requires IsCandidate(i) && i.id < n
    requires Get(e, InstV(n + 3)) < 256 && Get(e, InstV(n + 3)) >= 0
    ensures var e' := Run(Substitute(i, n)[4..], e, ext);
      Get(e', InstV(i.id)) == Get(e, InstV(n + 3)) &&
      forall v :: Low(v, n) && v != InstV(i.id) ==> Get(e', v) == Get(e, v)
  {
    var sub := Substitute(i, n)[4..];
    var x := Get(e, InstV(n + 3));
    var v4 := (x * 39) % 256;
    var v5 := (v4 + 23) % 256;
    var v6 := (v5 * 151) % 256;
    var v7 := (v6 + 111) % 256;
    var e4 := e[InstV(n + 4) := v4];
    var e5 := e4[InstV(n + 5) := v5];
    var e6 := e5[InstV(n + 6) := v6];
    var e7 := e6[InstV(i.id) := v7];
    assert Run(sub, e, ext) == e7 by {
      StepByConst(sub[0], e, ext, x, 39);
      StepByConst(sub[1], e4, ext, v4, 23);
      StepByConst(sub[2], e5, ext, v5, 151);
      StepByConst(sub[3], e6, ext, v6, 111);
      RunFour(sub, e, ext);
    }
    assert v7 == x by {
      AffineInverse(x);
    }
  }

  /** Running the substitute of a candidate stores under its number what
      the candidate computes, `a + b` modulo 256, and leaves every other
      value below `n` as it was. */
  lemma SubstituteComputes(i: Inst, n: ValueId, e: Env, ext: Ext)
    requires IsCandidate(i) && i.id < n && forall o :: o in i.operands ==> Low(o, n)
    ensures Get(Run(Substitute(i, n), e, ext), InstV(i.id)) == Result(i, e, ext)
    ensures forall v :: Low(v, n) && v != InstV(i.id) ==> Get(Run(Substitute(i, n), e, ext), v) == Get(e, v)
  {
    Pow2Eight();
    var sub := Substitute(i, n);
    assert sub == sub[..4] + sub[4..];
    RunAppend(sub[..4], sub[4..], e, ext);
    FirstHalf(i, n, e, ext);
    SecondHalf(i, n, Run(sub[..4], e, ext), ext);
    StepBinary(i, e, ext);
  }

  // ---------------------------------------------------------------------
  // The rewritten block computes what the original did
  // ---------------------------------------------------------------------

  /** A substitute, run from environments that agree below `bound`,
      ends where the candidate itself ends. */
  lemma SubstituteAgree(i: Inst, n: ValueId, bound: ValueId, e1: Env, e2: Env, ext: Ext)
    requires IsCandidate(i) && i.id < bound <= n && forall o :: o in i.operands ==> Low(o, bound)
    requires Agree(e1, e2, bound)
    ensures Agree(Run(Substitute(i, n), e1, ext), Step(i, e2, ext), bound)
  {
    assert forall o :: o in i.operands ==> Low(o, n);
    SubstituteComputes(i, n, e1, ext);
    assert Result(i, e1, ext) == Result(i, e2, ext) by {
      assert i.operands[0] in i.operands && i.operands[1] in i.operands;
    }
  }

  /** Run from environments that agree below `bound`, the rewritten body
      and the original body end in environments that still agree below
      `bound`: every argument, global and original instruction has the
      same value after the substitution as before it, whatever the draws. */
  lemma {:induction false} RewritePreserves(s: seq<Inst>, n: ValueId, c: nat, draw: nat -> real,
                                           bound: ValueId, e1: Env, e2: Env, ext: Ext)
    requires Scoped(s, bound) && bound <= n && Agree(e1, e2, bound)
    ensures Agree(Run(RewriteAdds(s, n, c, draw), e1, ext), Run(s, e2, ext), bound)
  {
    if s != [] {
      var i := s[0];
      assert s[0] in s;
      assert Scoped(s[1..], bound);
      var c' := if IsCandidate(i) then c + 1 else c;
      var n' := if IsCandidate(i) && draw(c) <= KRatio then n + 7 else n;
      var head := if IsCandidate(i) && draw(c) <= KRatio then Substitute(i, n) else [i];
      var rest := RewriteAdds(s[1..], n', c', draw);
      assert RewriteAdds(s, n, c, draw) == head + rest;
      RunAppend(head, rest, e1, ext);
      if IsCandidate(i) && draw(c) <= KRatio {
        SubstituteAgree(i, n, bound, e1, e2, ext);
      } else {
        StepAgree(i, e1, e2, bound, ext);
      }
      RewritePreserves(s[1..], n', c', draw, bound, Run(head, e1, ext), Step(i, e2, ext), ext);
    }
  }

  /** Every block of the function computes after `RunOnFunction` what it
      computed before, on every value below the first fresh number. */
  lemma FunctionPreserves(f: Function, next: ValueId, draw: nat -> real, k: nat, e1: Env, e2: Env, ext: Ext)
    requires k < |f.blocks| && Scoped(f.blocks[k].body, next) && Agree(e1, e2, next)
    ensures var g := RewriteBlocks(f.blocks, next, draw);
      g[k].id == f.blocks[k].id && g[k].term == f.blocks[k].term &&
      Agree(Run(g[k].body, e1, ext), Run(f.blocks[k].body, e2, ext), next)
  {
    RewriteBlocksAt(f.blocks, next, draw, k);
    RewritePreserves(f.blocks[k].body, BlockStart(f.blocks, next, draw, k), 0, draw, next, e1, e2, ext);
  }

  // ---------------------------------------------------------------------
  // What is replaced, and where
  // ---------------------------------------------------------------------

  /** Of a substitute only its last instruction, which carries the
      candidate's number, is an original. */
  lemma OriginalsOfSubstitute(i: Inst, n: ValueId, bound: ValueId)
    requires IsCandidate(i) && i.id < bound <= n
    ensures Originals(Substitute(i, n), bound) == [Substitute(i, n)[7]]
  {
    var sub := Substitute(i, n);
    assert sub == sub[..7] + [sub[7]];
    OriginalsAppend(sub[..7], [sub[7]], bound);
    OriginalsNone(sub[..7], bound);
    assert Originals([sub[7]], bound) == [sub[7]];
  }

  /** What stands at the place of `orig` after the rewrite: the same
      number; an instruction that is not a candidate is kept as it was; a
      candidate is kept (its draw exceeded `KRatio`) or replaced by the
      final `add ..., 111` of its substitute, which reads a new
      instruction. */
  predicate KeptOrReplaced(orig: Inst, now: Inst, bound: ValueId) {
    && now.id == orig.id
    && (!IsCandidate(orig) ==> now == orig)
    && (IsCandidate(orig) ==>
          now == orig ||
          (now.op == Add && now.ty == IntTy(8) && |now.operands| == 2 && now.operands[1] == ConstV(111) &&
           now.operands[0].InstV? && now.operands[0].id >= bound))
  }

  /** Leaving out the new instructions, the rewritten body is the original
      one with each instruction, in its place, kept or replaced as
      `KeptOrReplaced` says. */
  lemma {:induction false} RewriteInPlace(s: seq<Inst>, n: ValueId, c: nat, draw: nat -> real, bound: ValueId)
    requires Scoped(s, bound) && bound <= n
    ensures var r := Originals(RewriteAdds(s, n, c, draw), bound);
      |r| == |s| && forall k :: 0 <= k < |s| ==> KeptOrReplaced(s[k], r[k], bound)
  {
    if s != [] {
      var i := s[0];
      assert s[0] in s;
      assert Scoped(s[1..], bound);
      var replaced := IsCandidate(i) && draw(c) <= KRatio;
      var c' := if IsCandidate(i) then c + 1 else c;
      var n' := if replaced then n + 7 else n;
      var head := if replaced then Substitute(i, n) else [i];
      var rest := RewriteAdds(s[1..], n', c', draw);
      RewriteCons(s, n, c, draw);
      OriginalsAppend(head, rest, bound);
      if replaced {
        OriginalsOfSubstitute(i, n, bound);
      } else {
        assert Originals([i], bound) == [i];
      }
      RewriteInPlace(s[1..], n', c', draw, bound);
      var r := Originals(RewriteAdds(s, n, c, draw), bound);
      var r1 := Originals(rest, bound);
      assert r == Originals(head, bound) + r1;
      forall k | 0 <= k < |s|
        ensures KeptOrReplaced(s[k], r[k], bound)
      {
        if k > 0 {
          assert r[k] == r1[k - 1] && s[k] == s[1..][k - 1];
        }
      }
    }
  }

  /** With `KRatio == 1` and every draw in `[0, 1)`, the skip test never
      fires: every candidate is substituted. */
  lemma {:induction false} EveryCandidateReplaced(s: seq<Inst>, n: ValueId, c: nat, draw: nat -> real, bound: ValueId)
    requires Scoped(s, bound) && bound <= n
    requires forall d :: 0.0 <= draw(d) < 1.0
    ensures var r := Originals(RewriteAdds(s, n, c, draw), bound);
      |r| == |s| &&
      forall k :: 0 <= k < |s| && IsCandidate(s[k]) ==>
        r[k] != s[k] && r[k].id == s[k].id && r[k].op == Add && |r[k].operands| == 2 && r[k].operands[1] == ConstV(111)
  {
    RewriteInPlace(s, n, c, draw, bound);
    if s != [] {
      var i := s[0];
      assert s[0] in s;
      assert Scoped(s[1..], bound);
      var c' := if IsCandidate(i) then c + 1 else c;
      var n' := if IsCandidate(i) then n + 7 else n;
      var head := if IsCandidate(i) then Substitute(i, n) else [i];
      var rest := RewriteAdds(s[1..], n', c', draw);
      RewriteCons(s, n, c, draw);
      OriginalsAppend(head, rest, bound);
      if IsCandidate(i) {
        OriginalsOfSubstitute(i, n, bound);
        assert i.operands[0] in i.operands;
      } else {
        assert Originals([i], bound) == [i];
      }
      EveryCandidateReplaced(s[1..], n', c', draw, bound);
      var r := Originals(RewriteAdds(s, n, c, draw), bound);
      var r1 := Originals(rest, bound);
      assert r == Originals(head, bound) + r1;
      forall k | 0 <= k < |s| && IsCandidate(s[k])
        ensures r[k] != s[k] && r[k].id == s[k].id && r[k].op == Add && |r[k].operands| == 2 && r[k].operands[1] == ConstV(111)
      {
        if k > 0 {
          assert r[k] == r1[k - 1] && s[k] == s[1..][k - 1];
        }
      }
    }
  }
}
