/** The evaluation stack the instrumented method needs, and the limit its header announces. */
module StackDepth {
  import opened Bytes
  import opened Opcodes
  import opened Listing
  import opened Probes
  import opened Integrity
  import opened Machine
  import opened Preservation

  /** The 16-bit MaxStack field of the fat header. */
  function StackField(limit: nat): nat { limit % 0x1_0000 }

  /** One more value for a probe with an argument. */
  function Slots(h: Hooks): nat {
    if h.arg.Some? && (h.enter != TOKEN_NIL || h.exit != TOKEN_NIL) then 1 else 0
  }

  lemma {:induction false} ProbePushes(t: OpcodeTable, hook: nat, arg: Option<nat>)
    requires t.Valid()
    ensures PushSum(t, Probe(hook, arg)) >= (if arg.Some? then 1 else 0)
    ensures PushSum(t, Epilog(hook, arg)) >= (if arg.Some? then 1 else 0)
  {
    if arg.Some? {
      assert Probe(hook, arg) == [LoadArg(arg.value)] + [CallHook(hook)];
      PushSumConcat(t, [LoadArg(arg.value)], [CallHook(hook)]);
      assert PushSum(t, [LoadArg(arg.value)]) == PushSum(t, []) + 1;
    }
    PushSumConcat(t, Probe(hook, arg), [RET]);
  }

  lemma {:induction false} ExpandRetPushes(t: OpcodeTable, p: Program, k: nat, hook: nat, arg: Option<nat>)
    requires t.Valid() && k < |p.code| && p.code[k].op == CEE_RET
    ensures PushSum(t, ExpandRet(p, k, hook, arg).code) == PushSum(t, p.code) + PushSum(t, Epilog(hook, arg))
  {
    ExpandRetIsSplice(p, k, hook, arg);
    PushSumSplice(t, WithOp(p, k, CEE_NOP), k + 1, Epilog(hook, arg));
    PushSumFrame(t, WithOp(p, k, CEE_NOP).code, p.code);
  }

  lemma {:induction false} ExitLoopPushes(t: OpcodeTable, p: Program, k: nat, hook: nat, arg: Option<nat>)
    requires t.Valid() && k <= |p.code|
    ensures PushSum(t, ExitLoop(p, k, hook, arg).code) >= PushSum(t, p.code)
    ensures HasRetFrom(p.code, k) ==>
              PushSum(t, ExitLoop(p, k, hook, arg).code) >= PushSum(t, p.code) + PushSum(t, Epilog(hook, arg))
    decreases |p.code| - k
  {
    hide PushSum, ExpandRet, Epilog, Splice;
    if k < |p.code| {
      if p.code[k].op == CEE_RET {
        ExpandRetIsSplice(p, k, hook, arg);
        ExpandRetPushes(t, p, k, hook, arg);
        ExitLoopPushes(t, ExpandRet(p, k, hook, arg), k + 1 + |Epilog(hook, arg)|, hook, arg);
      } else {
        ExitLoopPushes(t, p, k + 1, hook, arg);
      }
    }
  }

  /** The limit grows by at least what the probes need. */
  lemma {:induction false} ProbesRaiseLimit(t: OpcodeTable, p: Program, h: Hooks)
    requires t.Valid() && AddProbes(p, h).Some?
    ensures PushSum(t, AddProbes(p, h).value.code) >= PushSum(t, p.code) + Slots(h)
  {
    hide PushSum, ExitLoop, Splice, Probe, Epilog;
    var entered := Entered(p, h);
    if h.enter != TOKEN_NIL {
      InsertProbeIsSplice(p, 0, h.enter, h.arg);
      PushSumSplice(t, p, 0, Probe(h.enter, h.arg));
      ProbePushes(t, h.enter, h.arg);
    }
    if h.exit != TOKEN_NIL {
      ExitLoopPushes(t, entered, 0, h.exit, h.arg);
      ProbePushes(t, h.exit, h.arg);
    }
  }

  // ---------- depth of runs ----------

  /** In the first k states, a state at a RET holds at most limit values. */
  ghost predicate RetsWithin<V, M>(t: OpcodeTable, sem: Semantics<V, M>, p: Program, s: State<V, M>, k: nat, limit: int)
    decreases k
  {
    && (s.pc < |p.code| && p.code[s.pc].op == CEE_RET ==> |s.stack| <= limit)
    && (k > 0 ==>
          match Step(t, sem, p, s)
          case Continue(s', _) => RetsWithin(t, sem, p, s', k - 1, limit)
          case _ => true)
  }

  /** A bound holds of fewer steps and of higher limits, and bounds the RETs too. */
  lemma {:induction false} WithinShorter<V, M>(
      t: OpcodeTable, sem: Semantics<V, M>, p: Program, s: State<V, M>, k: nat, k': nat, limit: int, limit': int)
    requires k' <= k && limit <= limit'
    ensures StaysWithin(t, sem, p, s, k, limit) ==>
            StaysWithin(t, sem, p, s, k', limit') && RetsWithin(t, sem, p, s, k', limit')
    ensures RetsWithin(t, sem, p, s, k, limit) ==> RetsWithin(t, sem, p, s, k', limit')
    decreases k
  {
    hide Step;
    if k' > 0 {
      match Step(t, sem, p, s) {
        case Continue(s', _) => WithinShorter(t, sem, p, s', k - 1, k' - 1, limit, limit');
        case _ =>
      }
    }
  }

  /** Where RETs stay RETs, corresponding runs are equally deep. */
  lemma {:induction false} DepthEmbedded<V, M>(
      t: OpcodeTable, sem: Semantics<V, M>, p: Program, q: Program, f: seq<nat>, s: State<V, M>, k: nat, limit: int)
    requires t.Valid() && Embeds(t, p, q, f) && RetsStay(p, q, f) && TablesIntact(t, p.code) && Inside(p, s)
    ensures StaysWithin(t, sem, q, Image(f, s), k, limit) <==> StaysWithin(t, sem, p, s, k, limit)
    ensures RetsWithin(t, sem, q, Image(f, s), k, limit) <==> RetsWithin(t, sem, p, s, k, limit)
    decreases k
  {
    hide Embeds, TablesIntact, Step, RetsStay, Inside;
    RetsMatch(t, p, q, f, s);
    if k > 0 {
      if s.pc < |p.code| && p.code[s.pc].op == CEE_RET {
        RetStep(t, sem, p, q, f, s);
      } else {
        StepEmbedded(t, sem, p, q, f, s);
        match Step(t, sem, p, s) {
          case Continue(s', _) => DepthEmbedded(t, sem, p, q, f, s', k - 1, limit);
          case _ =>
        }
      }
    }
  }

  lemma {:induction false} RetsMatch<V, M>(t: OpcodeTable, p: Program, q: Program, f: seq<nat>, s: State<V, M>)
    requires t.Valid() && Embeds(t, p, q, f) && RetsStay(p, q, f) && Inside(p, s)
    ensures var pc := Image(f, s).pc;
            pc < |q.code| && q.code[pc].op == CEE_RET <==> s.pc < |p.code| && p.code[s.pc].op == CEE_RET
  {
    if s.pc < |p.code| {
      assert InstrEmbedded(t, p, q, f, s.pc);
    }
  }

  /** A probe needs one slot when it has an argument, and nothing else. */
  lemma {:induction false} ProbeDepth<V(!new), M(!new)>(
      t: OpcodeTable, sem: Semantics<V, M>, q: Program, s: State<V, M>, hook: nat, arg: Option<nat>, k: nat, limit: int)
    requires t.Valid() && HookReports(sem, hook, arg)
    requires var probe := Probe(hook, arg); s.pc + |probe| <= |q.code| && q.code[s.pc..s.pc + |probe|] == probe
    ensures var e := |Probe(hook, arg)|;
            && (StaysWithin(t, sem, q, s, k + e, limit) <==>
                  |s.stack| + (if arg.Some? then 1 else 0) <= limit
                    && StaysWithin(t, sem, q, s.(pc := s.pc + e), k, limit))
            && (RetsWithin(t, sem, q, s, k + e, limit) <==> RetsWithin(t, sem, q, s.(pc := s.pc + e), k, limit))
  {
    hide CoverOf, ViewOf, OpcodeTable.Valid, HookReports;
    ProbeOpcodes(t);
    var probe := Probe(hook, arg);
    assert forall i {:trigger q.code[i]} | s.pc <= i < s.pc + |probe| ::
           q.code[i] == q.code[s.pc..s.pc + |probe|][i - s.pc];
    ReportsHere(sem, hook, arg, ViewOf(t, q, s.pc, s.pending), s.stack, s.mem);
    if arg.Some? {
      var loaded := s.(pc := s.pc + 1, stack := s.stack + [sem.literal(arg.value)]);
      assert Step(t, sem, q, s) == Continue(loaded, []);
      ReportsHere(sem, hook, arg, ViewOf(t, q, s.pc + 1, s.pending), s.stack, s.mem);
      assert Step(t, sem, q, loaded) == Continue(s.(pc := s.pc + 2), [Event(hook, arg)]);
      assert StaysWithin(t, sem, q, s, k + 2, limit) <==>
             |s.stack| <= limit && StaysWithin(t, sem, q, loaded, k + 1, limit);
      assert RetsWithin(t, sem, q, s, k + 2, limit) <==> RetsWithin(t, sem, q, loaded, k + 1, limit);
      WithinNow(t, sem, q, s.(pc := s.pc + 2), k, limit);
    } else {
      assert Step(t, sem, q, s) == Continue(s.(pc := s.pc + 1), [Event(hook, arg)]);
      WithinNow(t, sem, q, s.(pc := s.pc + 1), k, limit);
    }
  }

  lemma {:induction false} WithinNow<V, M>(
      t: OpcodeTable, sem: Semantics<V, M>, p: Program, s: State<V, M>, k: nat, limit: int)
    ensures StaysWithin(t, sem, p, s, k, limit) ==> |s.stack| <= limit
  {
  }

  /** An expanded RET needs one slot when the probe has an argument: no less, once its run is long
      enough to load it, and no more. */
  lemma {:induction false} EpilogDepth<V(!new), M(!new)>(
      t: OpcodeTable, sem: Semantics<V, M>, q: Program, s: State<V, M>, hook: nat, arg: Option<nat>, k: nat, limit: int)
    requires t.Valid() && HookReports(sem, hook, arg) && NopIdles(sem)
    requires var epilog := Epilog(hook, arg);
             && s.pc + 1 + |epilog| <= |q.code| && q.code[s.pc].op == CEE_NOP
             && q.code[s.pc + 1..s.pc + 1 + |epilog|] == epilog
    ensures |s.stack| + (if arg.Some? then 1 else 0) <= limit ==> StaysWithin(t, sem, q, s, k, limit)
    ensures StaysWithin(t, sem, q, s, k + |Epilog(hook, arg)|, limit) ==>
            |s.stack| + (if arg.Some? then 1 else 0) <= limit
  {
    hide Step, Probe, OpcodeTable.Valid, HookReports, NopIdles;
    var probe, epilog, ready := Probe(hook, arg), Epilog(hook, arg), s.(pc := s.pc + 1);
    EpilogSteps(t, sem, q, s, hook, arg);
    ProbeDepth(t, sem, q, ready, hook, arg, k, limit);
    assert StaysWithin(t, sem, q, s, k + |epilog|, limit) <==>
           |s.stack| <= limit && StaysWithin(t, sem, q, ready, k + |probe|, limit);
    WithinShorter(t, sem, q, s, k + |epilog|, k, limit, limit);
  }

  /** With epilogs in place of RETs, a run is as deep as before, or one deeper at a RET. */
  lemma {:induction false} ExitDepth<V(!new), M(!new)>(
      t: OpcodeTable, sem: Semantics<V, M>, p: Program, q: Program, f: seq<nat>, s: State<V, M>, hook: nat,
      arg: Option<nat>, k: nat, limit: int)
    requires t.Valid() && HookReports(sem, hook, arg) && NopIdles(sem)
    requires Embeds(t, p, q, f) && RetsExpanded(p, q, f, Epilog(hook, arg)) && TablesIntact(t, p.code) && Inside(p, s)
    ensures StaysWithin(t, sem, p, s, k, limit) && (arg.Some? ==> RetsWithin(t, sem, p, s, k, limit - 1)) ==>
              StaysWithin(t, sem, q, Image(f, s), k, limit)
    ensures StaysWithin(t, sem, q, Image(f, s), k + |Epilog(hook, arg)|, limit) ==>
              StaysWithin(t, sem, p, s, k, limit) && (arg.Some? ==> RetsWithin(t, sem, p, s, k, limit - 1))
    decreases k
  {
    hide Embeds, TablesIntact, Step, HookReports, NopIdles, Epilog, Inside, OpcodeTable.Valid;
    WithinNow(t, sem, q, Image(f, s), k + |Epilog(hook, arg)|, limit);
    if s.pc < |p.code| && p.code[s.pc].op == CEE_RET {
      EpilogDepth(t, sem, q, Image(f, s), hook, arg, k, limit);
      RetReturns(t, sem, p, s);
    } else if k > 0 {
      StepEmbedded(t, sem, p, q, f, s);
      match Step(t, sem, p, s) {
        case Continue(s', _) => ExitDepth(t, sem, p, q, f, s', hook, arg, k - 1, limit);
        case _ =>
      }
    }
  }

  lemma {:induction false} RetReturns<V, M>(t: OpcodeTable, sem: Semantics<V, M>, p: Program, s: State<V, M>)
    requires t.Valid() && s.pc < |p.code| && p.code[s.pc].op == CEE_RET
    ensures Step(t, sem, p, s) == Return(s.stack, s.mem)
  {
  }

  /** A run through the enter probe is as deep as before, or needs the slot of the argument. */
  lemma {:induction false} EnterDepth<V(!new), M(!new)>(
      t: OpcodeTable, sem: Semantics<V, M>, p: Program, hook: nat, arg: Option<nat>, mem: M, k: nat, limit: int)
    requires t.Valid() && ProgramOk(t, p) && HookReports(sem, hook, arg)
    ensures var q, e := AddEnter(p, hook, arg), |Probe(hook, arg)|;
            && (StaysWithin(t, sem, q, Entry([], mem), k + e, limit) <==>
                  (arg.Some? ==> 1 <= limit) && StaysWithin(t, sem, p, Entry([], mem), k, limit))
            && (RetsWithin(t, sem, q, Entry([], mem), k + e, limit) <==>
                 RetsWithin(t, sem, p, Entry([], mem), k, limit))
  {
    hide Step, Embeds, RetsStay, TablesIntact, HookReports, Probe, Splice, AddEnter, StaysWithin, RetsWithin;
    AddEnterIsSplice(p, hook, arg);
    var probe := Probe(hook, arg);
    var q, f, s := AddEnter(p, hook, arg), EnterMap(|p.code|, |probe|), Entry([], mem);
    EnterEmbeds(t, p, hook, arg);
    DepthEmbedded(t, sem, p, q, f, s, k, limit);
    assert Image(f, s) == s.(pc := |probe|);
    SpliceFront(p, probe);
    ProbeDepth(t, sem, q, s, hook, arg, k, limit);
    WithinNow(t, sem, p, s, k, limit);
  }

  /** The same of the exit loop, from the start of the method. */
  lemma {:induction false} ExitLoopDepth<V(!new), M(!new)>(
      t: OpcodeTable, sem: Semantics<V, M>, p: Program, hook: nat, arg: Option<nat>, mem: M, k: nat, limit: int)
    requires t.Valid() && ProgramOk(t, p) && HookReports(sem, hook, arg) && NopIdles(sem)
    ensures var q, s := ExitLoop(p, 0, hook, arg), Entry([], mem);
            && (StaysWithin(t, sem, p, s, k, limit) && (arg.Some? ==> RetsWithin(t, sem, p, s, k, limit - 1)) ==>
                  StaysWithin(t, sem, q, s, k, limit))
            && (StaysWithin(t, sem, q, s, k + |Epilog(hook, arg)|, limit) ==>
                  StaysWithin(t, sem, p, s, k, limit) && (arg.Some? ==> RetsWithin(t, sem, p, s, k, limit - 1)))
  {
    hide Step, Embeds, RetsExpanded, TablesIntact, HookReports, NopIdles, Epilog, ExitLoop, StaysWithin, RetsWithin;
    var f, s := ExitMap(p.code, |Epilog(hook, arg)|), Entry([], mem);
    ProgramInBounds(t, p);
    ExitEmbeds(t, p, hook, arg);
    ExitLoopExpands(p, hook, arg);
    ExitDepth(t, sem, p, ExitLoop(p, 0, hook, arg), f, s, hook, arg, k, limit);
    assert Image(f, s) == s;
  }

  // ---------- the depth of a method ----------

  /** No run of the method holds more than limit values. */
  ghost predicate Always<V, M>(t: OpcodeTable, sem: Semantics<V, M>, p: Program, mem: M, limit: int) {
    forall k: nat :: StaysWithin(t, sem, p, Entry([], mem), k, limit)
  }

  /** No run of the method holds more than limit values at a RET. */
  ghost predicate RetsAlways<V, M>(t: OpcodeTable, sem: Semantics<V, M>, p: Program, mem: M, limit: int) {
    forall k: nat :: RetsWithin(t, sem, p, Entry([], mem), k, limit)
  }

  lemma {:induction false} EnterAlways<V(!new), M(!new)>(
      t: OpcodeTable, sem: Semantics<V, M>, p: Program, h: Hooks, mem: M, limit: int)
    requires t.Valid() && ProgramOk(t, p) && HooksReport(sem, h)
    ensures Always(t, sem, Entered(p, h), mem, limit) <==>
            Always(t, sem, p, mem, limit) && (h.enter != TOKEN_NIL && h.arg.Some? ==> 1 <= limit)
    ensures RetsAlways(t, sem, Entered(p, h), mem, limit) <==> RetsAlways(t, sem, p, mem, limit)
  {
    hide Step, ProgramOk, AddEnter, HookReports, NopIdles, StaysWithin, RetsWithin, Probe;
    if h.enter != TOKEN_NIL {
      var q, s, e := AddEnter(p, h.enter, h.arg), Entry([], mem), |Probe(h.enter, h.arg)|;
      EnterDepth(t, sem, p, h.enter, h.arg, mem, 0, limit);
      forall k: nat
        ensures Always(t, sem, q, mem, limit) ==> StaysWithin(t, sem, p, s, k, limit)
        ensures RetsAlways(t, sem, q, mem, limit) ==> RetsWithin(t, sem, p, s, k, limit)
        ensures Always(t, sem, p, mem, limit) && (h.arg.Some? ==> 1 <= limit) ==> StaysWithin(t, sem, q, s, k, limit)
        ensures RetsAlways(t, sem, p, mem, limit) ==> RetsWithin(t, sem, q, s, k, limit)
      {
        EnterDepth(t, sem, p, h.enter, h.arg, mem, k, limit);
        WithinShorter(t, sem, q, s, k + e, k, limit, limit);
      }
    }
  }

  lemma {:induction false} ExitAlways<V(!new), M(!new)>(
      t: OpcodeTable, sem: Semantics<V, M>, p: Program, hook: nat, arg: Option<nat>, mem: M, limit: int)
    requires t.Valid() && ProgramOk(t, p) && HookReports(sem, hook, arg) && NopIdles(sem)
    ensures Always(t, sem, ExitLoop(p, 0, hook, arg), mem, limit) <==>
            Always(t, sem, p, mem, limit) && (arg.Some? ==> RetsAlways(t, sem, p, mem, limit - 1))
  {
    hide Step, ProgramOk, ExitLoop, HookReports, NopIdles, StaysWithin, RetsWithin, Epilog;
    var q, s, less := ExitLoop(p, 0, hook, arg), Entry([], mem), limit - 1;
    forall k: nat
      ensures Always(t, sem, p, mem, limit) && (arg.Some? ==> RetsAlways(t, sem, p, mem, less)) ==>
                StaysWithin(t, sem, q, s, k, limit)
      ensures Always(t, sem, q, mem, limit) ==> StaysWithin(t, sem, p, s, k, limit)
      ensures Always(t, sem, q, mem, limit) && arg.Some? ==> RetsWithin(t, sem, p, s, k, less)
    {
      ExitLoopDepth(t, sem, p, hook, arg, mem, k, limit);
    }
  }

  /** The depth of the instrumented method, exactly: it keeps to a limit if and only if the original
      does, there is room for the argument of an entry probe, and every RET leaves room for the
      argument of the exit probe. */
  lemma {:induction false} ProbesDepthIsExact<V(!new), M(!new)>(
      t: OpcodeTable, sem: Semantics<V, M>, p: Program, h: Hooks, mem: M, limit: int)
    requires t.Valid() && ProgramOk(t, p) && HooksOk(h) && AddProbes(p, h).Some? && HooksReport(sem, h)
    ensures Always(t, sem, AddProbes(p, h).value, mem, limit) <==>
            && Always(t, sem, p, mem, limit)
            && (h.enter != TOKEN_NIL && h.arg.Some? ==> 1 <= limit)
            && (h.exit != TOKEN_NIL && h.arg.Some? ==> RetsAlways(t, sem, p, mem, limit - 1))
  {
    hide Step, ProgramOk, HookReports, NopIdles, ExitLoop, AddEnter, Always, RetsAlways;
    EnterAlways(t, sem, p, h, mem, limit);
    EnterAlways(t, sem, p, h, mem, limit - 1);
    if h.exit != TOKEN_NIL {
      if h.enter != TOKEN_NIL {
        EnterKeepsOk(t, p, h.enter, h.arg);
      }
      ExitAlways(t, sem, Entered(p, h), h.exit, h.arg, mem, limit);
    }
  }

  /** Run by run: a run that never holds more than limit values needs at most one more with the
      probes in. */
  lemma {:induction false} ProbesDepth<V(!new), M(!new)>(
      t: OpcodeTable, sem: Semantics<V, M>, p: Program, h: Hooks, mem: M, k: nat, limit: nat)
    requires t.Valid() && ProgramOk(t, p) && HooksOk(h) && AddProbes(p, h).Some? && HooksReport(sem, h)
    requires StaysWithin(t, sem, p, Entry([], mem), k, limit)
    ensures StaysWithin(t, sem, AddProbes(p, h).value, Entry([], mem), k, Need(h, limit))
  {
    hide Step, ProgramOk, HookReports, NopIdles, AddEnter, ExitLoop, StaysWithin, RetsWithin;
    var s, need := Entry([], mem), Need(h, limit);
    WithinShorter(t, sem, p, s, k, k, limit, limit);
    WithinShorter(t, sem, p, s, k, k, limit, need);
    if h.enter != TOKEN_NIL {
      var q, e := AddEnter(p, h.enter, h.arg), |Probe(h.enter, h.arg)|;
      EnterKeepsOk(t, p, h.enter, h.arg);
      EnterDepth(t, sem, p, h.enter, h.arg, mem, k, need);
      EnterDepth(t, sem, p, h.enter, h.arg, mem, k, limit);
      WithinShorter(t, sem, q, s, k + e, k, need, need);
      WithinShorter(t, sem, q, s, k + e, k, limit, limit);
    }
    if h.exit != TOKEN_NIL {
      ExitLoopDepth(t, sem, Entered(p, h), h.exit, h.arg, mem, k, need);
    }
  }

  // ---------- the emitted limit ----------

  /** What a method that needs declared values needs with the probes in. */
  function Need(h: Hooks, declared: nat): (r: nat)
    ensures declared <= r <= declared + Slots(h)
  {
    if h.arg.Some? && h.exit != TOKEN_NIL then declared + 1
    else if h.arg.Some? && h.enter != TOKEN_NIL && declared == 0 then 1
    else declared
  }

  /** The limit in the header of a method whose list is code. */
  function EmittedLimit(t: OpcodeTable, code: seq<Instr>, declared: nat): nat {
    StackField(Low32(declared + PushSum(t, code)))
  }

  /** The sum of the declared limit and the pushes does not carry out of 16 bits, and the pushes,
      modulo 2^16, cover what the probes add. */
  predicate LimitFits(t: OpcodeTable, code: seq<Instr>, h: Hooks, declared: nat) {
    var pushed := PushSum(t, code) % 0x1_0000;
    declared + pushed < 0x1_0000 && Need(h, declared) - declared <= pushed
  }

  /** When the emitted limit covers the need; below 2^16 pushes, exactly when the sum fits 16 bits. */
  lemma {:induction false} LimitFitsExactly(t: OpcodeTable, p: Program, h: Hooks, declared: nat)
    requires t.Valid() && AddProbes(p, h).Some? && declared < 0x1_0000
    ensures var code := AddProbes(p, h).value.code;
            && (LimitFits(t, code, h, declared) <==> Need(h, declared) <= EmittedLimit(t, code, declared))
            && (PushSum(t, code) < 0x1_0000 ==>
                 (LimitFits(t, code, h, declared) <==> declared + PushSum(t, code) < 0x1_0000))
  {
    hide PushSum, AddProbes;
    ProbesRaiseLimit(t, p, h);
    FieldOfSum(declared, PushSum(t, AddProbes(p, h).value.code));
  }

  lemma {:induction false} FieldOfSum(declared: nat, pushed: nat)
    requires declared < 0x1_0000
    ensures var low := pushed % 0x1_0000;
            StackField(Low32(declared + pushed)) == if declared + low < 0x1_0000 then declared + low
              else declared + low - 0x1_0000
  {
    var sum := declared + pushed;
    assert sum % TWO_32 % 0x1_0000 == sum % 0x1_0000;
    assert sum % 0x1_0000 == (declared + pushed % 0x1_0000) % 0x1_0000;
  }

  /** The limit the rewriter accumulates is enough for the instrumented method. */
  lemma {:induction false} EmittedLimitSuffices<V(!new), M(!new)>(
      t: OpcodeTable, sem: Semantics<V, M>, p: Program, h: Hooks, mem: M, k: nat, declared: nat)
    requires t.Valid() && ProgramOk(t, p) && HooksOk(h) && AddProbes(p, h).Some? && HooksReport(sem, h)
    requires StaysWithin(t, sem, p, Entry([], mem), k, declared) && declared < 0x1_0000
    requires LimitFits(t, AddProbes(p, h).value.code, h, declared)
    ensures StaysWithin(t, sem, AddProbes(p, h).value, Entry([], mem), k,
            EmittedLimit(t, AddProbes(p, h).value.code, declared))
  {
    hide Step, ProgramOk, HooksReport, AddProbes, StaysWithin, PushSum, LimitFits, EmittedLimit;
    LimitFitsExactly(t, p, h, declared);
    ProbesDepth(t, sem, p, h, mem, k, declared);
    WithinShorter(t, sem, AddProbes(p, h).value, Entry([], mem), k, k, Need(h, declared),
                  EmittedLimit(t, AddProbes(p, h).value.code, declared));
  }

  /** The original makes full use of its limit: some run holds declared values where it matters, at a
      RET that gets a probe with an argument, and anywhere if there is none. */
  ghost predicate LimitIsTight<V, M>(
      t: OpcodeTable, sem: Semantics<V, M>, p: Program, h: Hooks, mem: M, declared: nat) {
    if h.exit != TOKEN_NIL && h.arg.Some? then !RetsAlways(t, sem, p, mem, declared - 1)
    else !Always(t, sem, p, mem, declared - 1)
  }

  /** For such a method the emitted limit is enough if and only if the sum fits. */
  lemma {:induction false} EmittedLimitSufficesIff<V(!new), M(!new)>(
      t: OpcodeTable, sem: Semantics<V, M>, p: Program, h: Hooks, mem: M, declared: nat)
    requires t.Valid() && ProgramOk(t, p) && HooksOk(h) && AddProbes(p, h).Some? && HooksReport(sem, h)
    requires declared < 0x1_0000 && Always(t, sem, p, mem, declared) && LimitIsTight(t, sem, p, h, mem, declared)
    ensures var q := AddProbes(p, h).value;
            Always(t, sem, q, mem, EmittedLimit(t, q.code, declared)) <==> LimitFits(t, q.code, h, declared)
  {
    hide Step, ProgramOk, HooksReport, AddProbes, Always, RetsAlways, PushSum, LimitFits, EmittedLimit;
    var limit: int := EmittedLimit(t, AddProbes(p, h).value.code, declared);
    LimitFitsExactly(t, p, h, declared);
    ProbesDepthIsExact(t, sem, p, h, mem, limit);
    if declared <= limit {
      AlwaysHigher(t, sem, p, mem, declared, limit);
      AlwaysHigher(t, sem, p, mem, declared, limit - 1);
    } else {
      AlwaysHigher(t, sem, p, mem, limit, declared - 1);
    }
    AlwaysHigher(t, sem, p, mem, limit - 1, declared - 1);
  }

  lemma {:induction false} AlwaysHigher<V, M>(
      t: OpcodeTable, sem: Semantics<V, M>, p: Program, mem: M, limit: int, limit': int)
    ensures limit <= limit' && Always(t, sem, p, mem, limit) ==>
            Always(t, sem, p, mem, limit') && RetsAlways(t, sem, p, mem, limit')
    ensures limit <= limit' && RetsAlways(t, sem, p, mem, limit) ==> RetsAlways(t, sem, p, mem, limit')
  {
    hide StaysWithin, RetsWithin, Step;
    if limit <= limit' {
      forall k: nat
        ensures StaysWithin(t, sem, p, Entry([], mem), k, limit) ==>
                  StaysWithin(t, sem, p, Entry([], mem), k, limit') && RetsWithin(t, sem, p, Entry([], mem), k, limit')
        ensures RetsWithin(t, sem, p, Entry([], mem), k, limit) ==> RetsWithin(t, sem, p, Entry([], mem), k, limit')
      {
        WithinShorter(t, sem, p, Entry([], mem), k, k, limit, limit');
      }
    }
  }

  /** A method for which it is not enough: the field comes out as 0, and the enter probe holds one
      value. The original never holds any. */
  lemma {:induction false} EmittedLimitCanFail(t: OpcodeTable)
    requires t.Valid() && t.pushes[CEE_CALL] <= 1
    ensures var sem, p, h, declared := ReportingCalls(Some(7)), Program([RET], []), Hooks(1, 0, Some(7)),
            0xFFFF - t.pushes[CEE_CALL];
            && HooksReport(sem, h) && Always(t, sem, p, (), 0) && AddProbes(p, h).Some?
            && EmittedLimit(t, AddProbes(p, h).value.code, declared) == 0
            && !Always(t, sem, AddProbes(p, h).value, (), 0)
  {
    hide Splice, PushSum, HooksReport, StaysWithin, Always, RetsAlways, Step;
    var sem, p, h := ReportingCalls(Some(7)), Program([RET], []), Hooks(1, 0, Some(7));
    HooksCanReport(h);
    LoneRetIsOk(t);
    LoneRetStaysEmpty(t, sem, ());
    LoneRetPushes(t);
    ProbesDepthIsExact(t, sem, p, h, (), 0);
  }

  lemma {:induction false} LoneRetIsOk(t: OpcodeTable)
    requires t.Valid()
    ensures ProgramOk(t, Program([RET], []))
  {
    var code := [RET];
    assert Pending(t, code, 0) == 0 && Pending(t, code, 1) == 0;
    assert EntryDue(t, code, 0);
    assert WellTyped(t, code, 0);
  }

  lemma {:induction false} LoneRetStaysEmpty<V, M>(t: OpcodeTable, sem: Semantics<V, M>, mem: M)
    requires t.Valid()
    ensures Always(t, sem, Program([RET], []), mem, 0)
  {
  }

  lemma {:induction false} LoneRetPushes(t: OpcodeTable)
    requires t.Valid()
    ensures var q := AddProbes(Program([RET], []), Hooks(1, 0, Some(7)));
            q.Some? && PushSum(t, q.value.code) == 1 + t.pushes[CEE_CALL]
  {
    hide Splice, PushSum;
    var p := Program([RET], []);
    AddEnterIsSplice(p, 1, Some(7));
    PushSumSplice(t, p, 0, Probe(1, Some(7)));
    assert Probe(1, Some(7)) == [LoadArg(7)] + [CallHook(1)];
    PushSumConcat(t, [LoadArg(7)], [CallHook(1)]);
    PushSumSingle(t, LoadArg(7));
    PushSumSingle(t, CallHook(1));
    PushSumSingle(t, RET);
  }
}
