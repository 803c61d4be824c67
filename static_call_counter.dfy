/** The direct-call counter of static_call_counter.cc: for the whole
    module, how many call sites call each function directly. One
    `MapVector` is kept for the whole module; it is modelled as the list
    of its keys in insertion order and the map from key to count. A
    function is named by its name, which is unique in a module. */
module StaticCallCounter {
  import opened IR
  import opened Histogram

  /** The callees of the direct calls in `s`, in order: call-base
      instructions whose called operand is a function. Indirect calls and
      every other instruction contribute nothing. */
  function DirectCallees(s: seq<Inst>): seq<string> {
    if s == [] then []
    else
      var last := s[|s| - 1];
      DirectCallees(s[..|s| - 1]) + (if CalledFunction(last).Some? then [CalledFunction(last).value] else [])
  }

  /** The callees of the direct calls of a module, function by function,
      block by block. */
  function ModuleCallees(m: Module): seq<string> {
    DirectCallees(FunctionsInsts(m.functions))
  }

  /** Looking at one more instruction. */
  lemma CalleesStep(seen: seq<Inst>, i: Inst)
    ensures DirectCallees(seen + [i]) ==
      DirectCallees(seen) + (if CalledFunction(i).Some? then [CalledFunction(i).value] else [])
  {
    assert (seen + [i])[..|seen|] == seen;
  }

  lemma FunctionStep(fs: seq<Function>, fi: nat)
    requires fi < |fs|
    ensures FunctionsInsts(fs[..fi + 1]) == FunctionsInsts(fs[..fi]) + BlocksInsts(fs[fi].blocks)
  {
    assert fs[..fi + 1][..fi] == fs[..fi];
  }

  /** The keys and counts after the instructions `seen`. */
  ghost predicate Counted(keys: seq<string>, counts: map<string, nat>, seen: seq<Inst>) {
    keys == FirstSeen(DirectCallees(seen)) && counts == Tally(DirectCallees(seen))
  }

  /** One turn of the innermost loop of `RunOnModule`
      (static_call_counter.cc:34-47): anything but a direct call is
      skipped; the callee of a direct call is looked up, inserted with 0 at
      the end of the keys when missing, and then incremented. */
  method CountCall(keys: seq<string>, counts: map<string, nat>, ghost seen: seq<Inst>, instruction: Inst)
    returns (keys': seq<string>, counts': map<string, nat>)
    requires Counted(keys, counts, seen)
    ensures Counted(keys', counts', seen + [instruction])
  {
    CalleesStep(seen, instruction);
    keys', counts' := keys, counts;
    var callee := CalledFunction(instruction);
    if callee.None? {
      assert DirectCallees(seen + [instruction]) == DirectCallees(seen);
      return;
    }
    SnocStep(DirectCallees(seen), callee.value);
    if callee.value !in counts' {
      keys' := keys' + [callee.value];
      counts' := counts'[callee.value := 0];
    }
    counts' := counts'[callee.value := counts'[callee.value] + 1];
  }

  /** The innermost loop of `RunOnModule` (static_call_counter.cc:32-48),
      over the instructions of one block. */
  method CountInstructions(insts: seq<Inst>, keys: seq<string>, counts: map<string, nat>, ghost seen: seq<Inst>)
    returns (keys': seq<string>, counts': map<string, nat>)
    requires Counted(keys, counts, seen)
    ensures Counted(keys', counts', seen + insts)
  {
    keys', counts' := keys, counts;
    assert seen + insts[..0] == seen;
    for ii := 0 to |insts|
      invariant Counted(keys', counts', seen + insts[..ii])
    {
      keys', counts' := CountCall(keys', counts', seen + insts[..ii], insts[ii]);
      assert seen + insts[..ii + 1] == seen + insts[..ii] + [insts[ii]];
    }
    assert insts[..|insts|] == insts;
  }

  /** The loop of `RunOnModule` over the blocks of one function
      (static_call_counter.cc:31-49). */
  method CountBlocks(blocks: seq<Block>, keys: seq<string>, counts: map<string, nat>, ghost seen: seq<Inst>)
    returns (keys': seq<string>, counts': map<string, nat>)
    requires Counted(keys, counts, seen)
    ensures Counted(keys', counts', seen + BlocksInsts(blocks))
  {
    keys', counts' := keys, counts;
    assert seen + BlocksInsts(blocks[..0]) == seen;
    for bi := 0 to |blocks|
      invariant Counted(keys', counts', seen + BlocksInsts(blocks[..bi]))
    {
      BlockStep(blocks, bi);
      keys', counts' := CountInstructions(Insts(blocks[bi]), keys', counts', seen + BlocksInsts(blocks[..bi]));
      assert seen + BlocksInsts(blocks[..bi]) + Insts(blocks[bi]) == seen + BlocksInsts(blocks[..bi + 1]);
    }
    assert blocks[..|blocks|] == blocks;
  }

  /** `RunOnModule` (static_call_counter.cc:27-52): one `MapVector` for the
      whole module, filled function by function; the result is what is
      printed, in key order. */
  method RunOnModule(m: Module) returns (keys: seq<string>, counts: map<string, nat>)
    ensures keys == FirstSeen(ModuleCallees(m))
    ensures counts == Tally(ModuleCallees(m))
  {
    keys, counts := [], map[];
    for fi := 0 to |m.functions|
      invariant Counted(keys, counts, FunctionsInsts(m.functions[..fi]))
    {
      FunctionStep(m.functions, fi);
      keys, counts := CountBlocks(m.functions[fi].blocks, keys, counts, FunctionsInsts(m.functions[..fi]));
    }
    assert m.functions[..|m.functions|] == m.functions;
  }

  // ---------------------------------------------------------------------
  // What the result says
  // ---------------------------------------------------------------------

  /** Some instruction of `s` calls `name` directly. */
  ghost predicate IsCalledIn(s: seq<Inst>, name: string) {
    exists k :: 0 <= k < |s| && CalledFunction(s[k]) == Some(name)
  }

  /** A callee is listed exactly when some instruction of `s` calls it
      directly. */
  lemma {:induction false} CalleesMembers(s: seq<Inst>)
    ensures forall name :: name in DirectCallees(s) <==> IsCalledIn(s, name)
  {
    if s != [] {
      var t := s[..|s| - 1];
      CalleesMembers(t);
      forall name
        ensures name in DirectCallees(s) <==> IsCalledIn(s, name)
      {
        if IsCalledIn(s, name) {
          var k :| 0 <= k < |s| && CalledFunction(s[k]) == Some(name);
          if k < |t| {
            assert t[k] == s[k];
          }
        }
        if name in DirectCallees(t) {
          var k :| 0 <= k < |t| && CalledFunction(t[k]) == Some(name);
          assert s[k] == t[k];
        }
      }
    }
  }

  /** The indices of the direct calls in `s`. */
  function CallSites(s: seq<Inst>): set<nat> {
    set k | 0 <= k < |s| && CalledFunction(s[k]).Some?
  }

  /** There are as many callees listed as there are direct calls. */
  lemma {:induction false} CalleesCount(s: seq<Inst>)
    ensures |DirectCallees(s)| == |CallSites(s)|
  {
    if s != [] {
      var t := s[..|s| - 1];
      CalleesCount(t);
      if CalledFunction(s[|s| - 1]).Some? {
        assert CallSites(s) == CallSites(t) + {|t|};
      } else {
        assert CallSites(s) == CallSites(t);
      }
    }
  }

  /** The keys are listed once each, in the order of their first call,
      and are exactly the keys of the counts. */
  lemma ResultKeys(m: Module)
    ensures var keys, counts := FirstSeen(ModuleCallees(m)), Tally(ModuleCallees(m));
      Distinct(keys) && (forall name :: name in keys <==> name in counts)
  {
    var cs := ModuleCallees(m);
    FirstSeenKeys(cs);
    TallyIsMultiset(cs);
    assert forall name :: name in multiset(cs) <==> name in cs;
  }

  /** A function has a count exactly when some instruction of the module
      calls it directly. */
  lemma ResultCallees(m: Module, name: string)
    ensures name in Tally(ModuleCallees(m)) <==> IsCalledIn(FunctionsInsts(m.functions), name)
  {
    var s := FunctionsInsts(m.functions);
    var cs := DirectCallees(s);
    TallyIsMultiset(cs);
    CalleesMembers(s);
    assert name in multiset(cs) <==> name in cs;
  }

  /** Each count is the number of direct calls of that function, and so at
      least 1. */
  lemma ResultCounts(m: Module)
    ensures var counts := Tally(ModuleCallees(m));
      forall name :: name in counts ==> counts[name] == multiset(ModuleCallees(m))[name] >= 1
  {
    TallyIsMultiset(ModuleCallees(m));
  }

  /** The counts add up to the number of direct calls in the module. */
  lemma ResultSum(m: Module)
    ensures var keys, counts := FirstSeen(ModuleCallees(m)), Tally(ModuleCallees(m));
      (forall name :: name in keys ==> name in counts) &&
      SumCounts(keys, counts) == |CallSites(FunctionsInsts(m.functions))|
  {
    TallySum(ModuleCallees(m));
    CalleesCount(FunctionsInsts(m.functions));
  }

  /** Calls to `name` from the functions `fs`. */
  function CallsTo(fs: seq<Function>, name: string): nat {
    multiset(DirectCallees(FunctionsInsts(fs)))[name]
  }

  /** The counts accumulate over the whole module: the calls of a function
      counted after others add to theirs. */
  lemma {:induction false} CalleesAppend(s: seq<Inst>, t: seq<Inst>)
    ensures DirectCallees(s + t) == DirectCallees(s) + DirectCallees(t)
  {
    if t == [] {
      assert s + t == s;
    } else {
      var t' := t[..|t| - 1];
      assert (s + t)[..|s + t| - 1] == s + t';
      CalleesAppend(s, t');
    }
  }

  lemma ModuleWide(fs: seq<Function>, f: Function, name: string)
    ensures CallsTo(fs + [f], name) == CallsTo(fs, name) + CallsTo([f], name)
    ensures var c := Tally(DirectCallees(FunctionsInsts(fs + [f])));
      name in c ==> c[name] == CallsTo(fs, name) + CallsTo([f], name)
  {
    assert (fs + [f])[..|fs|] == fs;
    assert [f][..0] == [];
    assert FunctionsInsts([f]) == BlocksInsts(f.blocks);
    CalleesAppend(FunctionsInsts(fs), BlocksInsts(f.blocks));
    TallyIsMultiset(DirectCallees(FunctionsInsts(fs + [f])));
  }
}
