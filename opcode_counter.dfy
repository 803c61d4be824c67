/** The opcode histogram of opcode_counter.cc: for every function of the
    module, how many of its instructions carry each opcode name. The
    module is only read: it is a value here and the pass returns the
    histograms it would print. */
module OpcodeCounter {
  import opened IR
  import opened Histogram

  /** The opcode names of `s`, in order. */
  function Names(s: seq<Inst>): (r: seq<string>)
    ensures |r| == |s|
  {
    if s == [] then [] else Names(s[..|s| - 1]) + [OpcodeName(s[|s| - 1].op)]
  }

  /** The `k`-th name is the opcode name of the `k`-th instruction. */
  lemma {:induction false} NamesAt(s: seq<Inst>, k: nat)
    requires k < |s|
    ensures Names(s)[k] == OpcodeName(s[k].op)
  {
    if k < |s| - 1 {
      NamesAt(s[..|s| - 1], k);
    }
  }

  /** The histogram of one function: its opcode names, counted. */
  function OpcodeHistogram(f: Function): map<string, nat> {
    Tally(Names(BlocksInsts(f.blocks)))
  }

  /** Counting the next instruction of a block: a name not yet in the map
      is set to 1, one already in it is incremented. */
  lemma CountStep(seen: seq<Inst>, i: Inst)
    ensures Tally(Names(seen + [i])) == Bump(Tally(Names(seen)), OpcodeName(i.op))
  {
    assert (seen + [i])[..|seen|] == seen;
    assert Names(seen + [i]) == Names(seen) + [OpcodeName(i.op)];
    SnocStep(Names(seen), OpcodeName(i.op));
  }

  /** Counting one instruction named `name` (opcode_counter.cc:31-35): a
      name not yet in the map is set to 1, one already in it is
      incremented. */
  method Increment(opcodeMap: map<string, nat>, name: string) returns (opcodeMap': map<string, nat>)
    ensures name in opcodeMap'
    ensures opcodeMap'[name] == if name in opcodeMap then opcodeMap[name] + 1 else 1
    ensures forall other :: other != name ==> (other in opcodeMap' <==> other in opcodeMap)
    ensures forall other :: other != name && other in opcodeMap ==> opcodeMap'[other] == opcodeMap[other]
    ensures opcodeMap' == Bump(opcodeMap, name)
  {
    if name !in opcodeMap {
      opcodeMap' := opcodeMap[name := 1];
    } else {
      opcodeMap' := opcodeMap[name := opcodeMap[name] + 1];
    }
  }

  /** The map holds the counts of the opcode names of `seen`. */
  ghost predicate Counted(opcodeMap: map<string, nat>, seen: seq<Inst>) {
    opcodeMap == Tally(Names(seen))
  }

  /** The inner loop of `RunOnModule` (opcode_counter.cc:29-36), over the
      instructions of one block. */
  method CountBlock(insts: seq<Inst>, opcodeMap: map<string, nat>, ghost before: seq<Inst>)
    returns (opcodeMap': map<string, nat>)
    requires Counted(opcodeMap, before)
    ensures Counted(opcodeMap', before + insts)
  {
    opcodeMap' := opcodeMap;
    assert before + insts[..0] == before;
    for ii := 0 to |insts|
      invariant Counted(opcodeMap', before + insts[..ii])
    {
      CountStep(before + insts[..ii], insts[ii]);
      opcodeMap' := Increment(opcodeMap', OpcodeName(insts[ii].op));
      assert before + insts[..ii + 1] == before + insts[..ii] + [insts[ii]];
    }
    assert insts[..|insts|] == insts;
  }

  /** The loops of `RunOnModule` over the blocks of one function
      (opcode_counter.cc:27-37), starting from a new, empty map. */
  method CountOpcodes(f: Function) returns (opcodeMap: map<string, nat>)
    ensures opcodeMap == OpcodeHistogram(f)
  {
    opcodeMap := map[];
    for bi := 0 to |f.blocks|
      invariant Counted(opcodeMap, BlocksInsts(f.blocks[..bi]))
    {
      opcodeMap := CountBlock(Insts(f.blocks[bi]), opcodeMap, BlocksInsts(f.blocks[..bi]));
      BlockStep(f.blocks, bi);
    }
    assert f.blocks[..|f.blocks|] == f.blocks;
  }

  /** `RunOnModule` (opcode_counter.cc:24-42): one histogram per function,
      in module order; each is printed and then dropped. */
  method RunOnModule(m: Module) returns (histograms: seq<map<string, nat>>)
    ensures |histograms| == |m.functions|
    ensures forall k :: 0 <= k < |m.functions| ==> histograms[k] == OpcodeHistogram(m.functions[k])
  {
    histograms := [];
    for fi := 0 to |m.functions|
      invariant |histograms| == fi
      invariant forall k :: 0 <= k < fi ==> histograms[k] == OpcodeHistogram(m.functions[k])
    {
      var opcodeMap := CountOpcodes(m.functions[fi]);
      histograms := histograms + [opcodeMap];
    }
  }

  /** Some instruction of `s` has the opcode name `name`. */
  ghost predicate HasOpcodeName(s: seq<Inst>, name: string) {
    exists k :: 0 <= k < |s| && OpcodeName(s[k].op) == name
  }

  /** A name occurs among the names of `s` exactly when some instruction
      of `s` has it. */
  lemma NamesMembers(s: seq<Inst>, name: string)
    ensures name in Names(s) <==> HasOpcodeName(s, name)
  {
    var ns := Names(s);
    if name in ns {
      var k :| 0 <= k < |ns| && ns[k] == name;
      NamesAt(s, k);
    }
    if HasOpcodeName(s, name) {
      var k :| 0 <= k < |s| && OpcodeName(s[k].op) == name;
      NamesAt(s, k);
    }
  }

  /** The keys of a histogram are exactly the opcode names of the
      function's instructions. */
  lemma HistogramKeys(f: Function, name: string)
    ensures name in OpcodeHistogram(f) <==> HasOpcodeName(BlocksInsts(f.blocks), name)
  {
    var ns := Names(BlocksInsts(f.blocks));
    TallyIsMultiset(ns);
    NamesMembers(BlocksInsts(f.blocks), name);
    assert name in multiset(ns) <==> name in ns;
  }

  /** Each count is the number of instructions with that opcode name, and
      so at least 1. */
  lemma HistogramCounts(f: Function)
    ensures var ns := Names(BlocksInsts(f.blocks)); var h := OpcodeHistogram(f);
      forall name :: name in h ==> h[name] == multiset(ns)[name] && h[name] >= 1
  {
    TallyIsMultiset(Names(BlocksInsts(f.blocks)));
  }

  /** The keys, in the order first seen, are listed once each and are
      exactly the keys of the histogram. */
  lemma HistogramOrder(f: Function)
    ensures var ns := Names(BlocksInsts(f.blocks));
      Distinct(FirstSeen(ns)) && forall name :: name in FirstSeen(ns) <==> name in Tally(ns)
  {
    var ns := Names(BlocksInsts(f.blocks));
    TallyIsMultiset(ns);
    FirstSeenKeys(ns);
    assert forall name :: name in multiset(ns) <==> name in ns;
  }

  /** The counts of all keys, each key taken once, add up to the number of
      instructions of the function. */
  lemma HistogramSum(f: Function)
    ensures var ns := Names(BlocksInsts(f.blocks));
      (forall name :: name in FirstSeen(ns) ==> name in Tally(ns)) &&
      SumCounts(FirstSeen(ns), Tally(ns)) == |BlocksInsts(f.blocks)|
  {
    TallySum(Names(BlocksInsts(f.blocks)));
  }
}
