/** Instrumentation and widening preserve the meaning of a method. */
module Preservation {
  import opened Bytes
  import opened Opcodes
  import opened Listing
  import opened Layout
  import opened Probes
  import opened Regions
  import opened Integrity
  import opened Machine

  // ---------- the three edits are embeddings ----------

  function IdentityMap(n: nat): seq<nat> { seq(n + 1, i => i) }

  function EnterMap(n: nat, e: nat): seq<nat> { seq(n + 1, i requires 0 <= i => i + e) }

  function ExitMap(code: seq<Instr>, m: nat): (f: seq<nat>)
    ensures |f| == |code| + 1 && forall i {:trigger f[i]} | 0 <= i <= |code| :: f[i] == Moved(code, m, |code|, i)
  {
    seq(|code| + 1, i requires 0 <= i <= |code| => Moved(code, m, |code|, i))
  }

  /** A RET of p is a RET of q. */
  ghost predicate RetsStay(p: Program, q: Program, f: seq<nat>) {
    && |f| > |p.code|
    && forall i {:trigger p.code[i]} | 0 <= i < |p.code| && p.code[i].op == CEE_RET ::
         f[i] < |q.code| && q.code[f[i]].op == CEE_RET
  }

  lemma {:induction false} WideningEmbeds(t: OpcodeTable, p: Program, wide: seq<Instr>)
    requires t.Valid() && ProgramOk(t, p) && Widening(p.code, wide)
    ensures Embeds(t, p, p.(code := wide), IdentityMap(|p.code|))
    ensures RetsStay(p, p.(code := wide), IdentityMap(|p.code|))
  {
    hide CoverOf, TablesIntact, WellTyped, ClauseTyped;
    var q, f := p.(code := wide), IdentityMap(|p.code|);
    ProgramInBounds(t, p);
    forall i {:trigger p.code[i]} | 0 <= i < |p.code|
      ensures (q.code[i].op == CEE_RET <==> p.code[i].op == CEE_RET) && InstrEmbedded(t, p, q, f, i)
    {
      WidenedOp(t, p.code, wide, i);
      WidenedBranch(t, p.code, wide, i);
    }
    forall i | 0 <= i < |p.code|
      ensures InstrEmbedded(t, p, q, f, i)
    {
      assert p.code[i] == p.code[i];
    }
  }

  lemma {:induction false} WidenedBranch(t: OpcodeTable, a: seq<Instr>, b: seq<Instr>, i: nat)
    requires t.Valid() && Widening(a, b) && i < |a|
    ensures t.IsBranch(b[i].op) <==> t.IsBranch(a[i].op)
    ensures b[i].target == a[i].target
  {
    if b[i] != a[i] {
      WidenKeepsCondition(t, a[i].op);
    }
  }

  lemma {:induction false} EnterEmbeds(t: OpcodeTable, p: Program, hook: nat, arg: Option<nat>)
    requires t.Valid() && ProgramOk(t, p)
    ensures Embeds(t, p, AddEnter(p, hook, arg), EnterMap(|p.code|, |Probe(hook, arg)|))
    ensures RetsStay(p, AddEnter(p, hook, arg), EnterMap(|p.code|, |Probe(hook, arg)|))
  {
    hide TablesIntact, WellTyped, Splice, AddEnter, InstrEmbedded;
    AddEnterIsSplice(p, hook, arg);
    var e := |Probe(hook, arg)|;
    var q, f := Splice(p, 0, Probe(hook, arg)), EnterMap(|p.code|, e);
    ProgramInBounds(t, p);
    forall i | 0 <= i < |p.code|
      ensures InstrEmbedded(t, p, q, f, i)
    {
      EnterInstr(t, p, Probe(hook, arg), i);
    }
    EnterCover(p, e, q, |p.code|);
    forall c | 0 <= c < |p.eh|
      ensures ClauseEmbedded(p, q, f, c)
    {
      assert p.eh[c].WellFormed(|p.code|);
    }
  }

  lemma {:induction false} EnterInstr(t: OpcodeTable, p: Program, probe: seq<Instr>, i: nat)
    requires t.Valid() && InBounds(p) && i < |p.code|
    ensures InstrEmbedded(t, p, Splice(p, 0, probe), EnterMap(|p.code|, |probe|), i)
  {
    hide Splice, CoverOf, ActionOf, OpcodeTable.IsBranch;
    EnterCover(p, |probe|, Splice(p, 0, probe), i);
  }

  lemma {:induction false} EnterCover(p: Program, e: nat, q: Program, i: nat)
    requires InBounds(p) && i <= |p.code| && |q.eh| == |p.eh|
    requires forall c {:trigger q.eh[c]} | 0 <= c < |q.eh| :: q.eh[c] == ShiftClause(p.eh[c], 0, e)
    ensures CoverOf(q.eh, i + e) == CoverOf(p.eh, i)
  {
    forall c | 0 <= c < |p.eh|
      ensures CoverOf(q.eh, i + e)[c] == CoverOf(p.eh, i)[c]
    {
      EnterKeepsRegions(p.eh[c], e, |p.code|, i);
    }
  }

  lemma {:induction false} ExitEmbeds(t: OpcodeTable, p: Program, hook: nat, arg: Option<nat>)
    requires t.Valid() && ProgramOk(t, p)
    ensures Embeds(t, p, ExitLoop(p, 0, hook, arg), ExitMap(p.code, |Epilog(hook, arg)|))
  {
    hide TablesIntact, WellTyped, ExitLoop, ActionOf, Moved, Epilog;
    var epilog := Epilog(hook, arg);
    var q, f := ExitLoop(p, 0, hook, arg), ExitMap(p.code, |epilog|);
    ProgramInBounds(t, p);
    ExitLoopShape(p, hook, arg);
    forall i | 0 <= i < |p.code|
      ensures InstrEmbedded(t, p, q, f, i)
    {
      assert InstrExited(p, q, |p.code|, epilog, i);
      ExitCover(p, |epilog|, q, i);
      MovedNext(p.code, |epilog|, i);
    }
    ExitCover(p, |epilog|, q, |p.code|);
    forall c | 0 <= c < |p.eh|
      ensures ClauseEmbedded(p, q, f, c)
    {
      assert q.eh[c] == MovedClause(p.code, |epilog|, |p.code|, p.eh[c]);
    }
  }

  lemma {:induction false} MovedNext(code: seq<Instr>, m: nat, i: nat)
    requires i < |code|
    ensures Moved(code, m, |code|, i + 1) == Moved(code, m, |code|, i) + 1 + if code[i].op == CEE_RET then m else 0
    ensures Moved(code, m, |code|, NONE) == NONE
  {
  }

  lemma {:induction false} ExitCover(p: Program, m: nat, q: Program, i: nat)
    requires InBounds(p) && i <= |p.code| && |q.eh| == |p.eh|
    requires forall c {:trigger q.eh[c]} | 0 <= c < |p.eh| :: q.eh[c] == MovedClause(p.code, m, |p.code|, p.eh[c])
    ensures CoverOf(q.eh, Moved(p.code, m, |p.code|, i)) == CoverOf(p.eh, i)
  {
    hide Moved;
    var at := Moved(p.code, m, |p.code|, i);
    forall c | 0 <= c < |p.eh|
      ensures CoverOf(q.eh, at)[c] == CoverOf(p.eh, i)[c]
    {
      assert q.eh[c] == MovedClause(p.code, m, |p.code|, p.eh[c]);
      ExitKeepsRegions(p.code, m, p.eh[c], i);
    }
  }

  // ---------- runs ----------

  /** Where RETs stay RETs, corresponding states run alike, step for step. */
  lemma {:induction false} RunEmbedded<V, M>(
      t: OpcodeTable, sem: Semantics<V, M>, p: Program, q: Program, f: seq<nat>, s: State<V, M>, k: nat)
    requires t.Valid() && Embeds(t, p, q, f) && RetsStay(p, q, f) && TablesIntact(t, p.code) && Inside(p, s)
    ensures Run(t, sem, q, Image(f, s), k) == Run(t, sem, p, s, k)
    decreases k
  {
    hide Embeds, TablesIntact, Image, Destination, PendingAfter, CoverOf, ViewOf;
    if k > 0 {
      if s.pc < |p.code| && p.code[s.pc].op == CEE_RET {
        RetStep(t, sem, p, q, f, s);
      } else {
        StepEmbedded(t, sem, p, q, f, s);
        match Step(t, sem, p, s) {
          case Continue(s', _) => RunEmbedded(t, sem, p, q, f, s', k - 1);
          case _ =>
        }
      }
    }
  }

  lemma {:induction false} RetStep<V, M>(
      t: OpcodeTable, sem: Semantics<V, M>, p: Program, q: Program, f: seq<nat>, s: State<V, M>)
    requires t.Valid() && RetsStay(p, q, f) && s.pc < |p.code| && p.code[s.pc].op == CEE_RET
    ensures Step(t, sem, p, s) == Step(t, sem, q, Image(f, s)) == Return(s.stack, s.mem)
  {
  }

  /** A method that has returned stays returned. */
  lemma {:induction false} RunMonotone<V, M>(
      t: OpcodeTable, sem: Semantics<V, M>, p: Program, s: State<V, M>, k: nat, k': nat)
    requires k <= k' && Run(t, sem, p, s, k).Returned?
    ensures Run(t, sem, p, s, k') == Run(t, sem, p, s, k)
    decreases k
  {
    hide Step;
    match Step(t, sem, p, s) {
      case Continue(s', _) => RunMonotone(t, sem, p, s', k - 1, k' - 1);
      case _ =>
    }
  }

  /** The probe at k runs through without touching the state and emits one event. */
  lemma {:induction false} ProbeRuns<V(!new), M(!new)>(
      t: OpcodeTable, sem: Semantics<V, M>, q: Program, s: State<V, M>, hook: nat, arg: Option<nat>, k: nat)
    requires t.Valid() && HookReports(sem, hook, arg)
    requires var probe := Probe(hook, arg); s.pc + |probe| <= |q.code| && q.code[s.pc..s.pc + |probe|] == probe
    ensures Run(t, sem, q, s, k + |Probe(hook, arg)|) ==
            Before([Event(hook, arg)], Run(t, sem, q, s.(pc := s.pc + |Probe(hook, arg)|), k))
    ensures k < |Probe(hook, arg)| ==> Run(t, sem, q, s, k) == Running
  {
    hide CoverOf, ViewOf, OpcodeTable.Valid, HookReports;
    ProbeOpcodes(t);
    var probe := Probe(hook, arg);
    assert forall i {:trigger q.code[i]} | s.pc <= i < s.pc + |probe| ::
           q.code[i] == q.code[s.pc..s.pc + |probe|][i - s.pc];
    if arg.Some? {
      var loaded := s.(pc := s.pc + 1, stack := s.stack + [sem.literal(arg.value)]);
      ReportsHere(sem, hook, arg, ViewOf(t, q, s.pc, s.pending), s.stack, s.mem);
      assert Step(t, sem, q, s) == Continue(loaded, []);
      ReportsHere(sem, hook, arg, ViewOf(t, q, s.pc + 1, s.pending), s.stack, s.mem);
      assert Step(t, sem, q, loaded) == Continue(s.(pc := s.pc + 2), [Event(hook, arg)]);
      assert Run(t, sem, q, s, k + 2) == Before([], Run(t, sem, q, loaded, k + 1));
    } else {
      ReportsHere(sem, hook, arg, ViewOf(t, q, s.pc, s.pending), s.stack, s.mem);
      assert Step(t, sem, q, s) == Continue(s.(pc := s.pc + 1), [Event(hook, arg)]);
    }
  }

  lemma {:induction false} ReportsHere<V(!new), M(!new)>(
      sem: Semantics<V, M>, hook: nat, arg: Option<nat>, view: View, stack: seq<V>, mem: M)
    requires HookReports(sem, hook, arg)
    ensures ReportsAt(sem, hook, arg, view, stack, mem)
  {
  }

  /** The first and the last step at an expanded RET, and the probe between them. */
  lemma {:induction false} EpilogSteps<V(!new), M(!new)>(
      t: OpcodeTable, sem: Semantics<V, M>, q: Program, s: State<V, M>, hook: nat, arg: Option<nat>)
    requires t.Valid() && NopIdles(sem)
    requires var epilog := Epilog(hook, arg);
             && s.pc + 1 + |epilog| <= |q.code| && q.code[s.pc].op == CEE_NOP
             && q.code[s.pc + 1..s.pc + 1 + |epilog|] == epilog
    ensures var probe, at := Probe(hook, arg), s.pc + 1;
            && Step(t, sem, q, s) == Continue(s.(pc := at), [])
            && at + |probe| <= |q.code| && q.code[at..at + |probe|] == probe
            && Step(t, sem, q, s.(pc := at + |probe|)) == Return(s.stack, s.mem)
  {
    hide CoverOf, ViewOf, OpcodeTable.Valid, NopIdles;
    ProbeOpcodes(t);
    var probe, epilog, at := Probe(hook, arg), Epilog(hook, arg), s.pc + 1;
    IdlesHere(sem, q.code[s.pc].arg, ViewOf(t, q, s.pc, s.pending), s.stack, s.mem);
    assert q.code[at..at + |probe|] == q.code[at..at + |epilog|][..|probe|] == probe;
    assert epilog[|probe|] == RET;
    assert q.code[at + |probe|] == q.code[at..at + |epilog|][|probe|];
  }

  /** At an expanded RET: the NOP, the probe and the new RET run, and nothing else. */
  lemma {:induction false} EpilogRuns<V(!new), M(!new)>(
      t: OpcodeTable, sem: Semantics<V, M>, q: Program, s: State<V, M>, hook: nat, arg: Option<nat>, k: nat)
    requires t.Valid() && HookReports(sem, hook, arg) && NopIdles(sem)
    requires var epilog := Epilog(hook, arg);
             && s.pc + 1 + |epilog| <= |q.code| && q.code[s.pc].op == CEE_NOP
             && q.code[s.pc + 1..s.pc + 1 + |epilog|] == epilog
    ensures k > |Epilog(hook, arg)| ==> Run(t, sem, q, s, k) == Returned(s.stack, s.mem, [Event(hook, arg)])
    ensures k <= |Epilog(hook, arg)| ==> Run(t, sem, q, s, k) == Running
  {
    hide Step, Probe, OpcodeTable.Valid, HookReports, NopIdles;
    var probe, ready := Probe(hook, arg), s.(pc := s.pc + 1);
    EpilogSteps(t, sem, q, s, hook, arg);
    if k > 0 {
      assert Run(t, sem, q, s, k) == Before([], Run(t, sem, q, ready, k - 1));
      if k - 1 >= |probe| {
        ProbeRuns(t, sem, q, ready, hook, arg, k - 1 - |probe|);
      } else {
        ProbeRuns(t, sem, q, ready, hook, arg, k - 1);
      }
    }
  }

  lemma {:induction false} IdlesHere<V(!new), M(!new)>(
      sem: Semantics<V, M>, arg: nat, view: View, stack: seq<V>, mem: M)
    requires NopIdles(sem)
    ensures IdlesAt(sem, arg, view, stack, mem)
  {
  }

  /** The outcome with one more event at its end. */
  function WithExit<V, M>(r: Outcome<V, M>, e: Event): Outcome<V, M> {
    if r.Returned? then r.(events := r.events + [e]) else r
  }

  /** Every RET of p is an expanded one in q. */
  ghost predicate RetsExpanded(p: Program, q: Program, f: seq<nat>, epilog: seq<Instr>) {
    && |f| > |p.code|
    && forall i {:trigger p.code[i]} | 0 <= i < |p.code| && p.code[i].op == CEE_RET ::
         && f[i] + 1 + |epilog| <= |q.code| && q.code[f[i]].op == CEE_NOP
         && q.code[f[i] + 1..f[i] + 1 + |epilog|] == epilog
  }

  lemma {:induction false} ExitLoopExpands(p: Program, hook: nat, arg: Option<nat>)
    requires InBounds(p)
    ensures RetsExpanded(p, ExitLoop(p, 0, hook, arg), ExitMap(p.code, |Epilog(hook, arg)|), Epilog(hook, arg))
  {
    hide ExitLoop, Moved, Epilog;
    var epilog := Epilog(hook, arg);
    var q := ExitLoop(p, 0, hook, arg);
    ExitLoopShape(p, hook, arg);
    forall i {:trigger p.code[i]} | 0 <= i < |p.code| && p.code[i].op == CEE_RET
      ensures var at := Moved(p.code, |epilog|, |p.code|, i);
              at + 1 + |epilog| <= |q.code| && q.code[at].op == CEE_NOP && q.code[at + 1..at + 1 + |epilog|] == epilog
    {
      assert InstrExited(p, q, |p.code|, epilog, i);
    }
  }

  /** With epilogs in place of RETs a run returns exactly when it did, that many steps later, with
      one more event. */
  lemma {:induction false} RunWithEpilogs<V(!new), M(!new)>(
      t: OpcodeTable, sem: Semantics<V, M>, p: Program, q: Program, f: seq<nat>, s: State<V, M>, hook: nat,
      arg: Option<nat>, k: nat)
    requires t.Valid() && HookReports(sem, hook, arg) && NopIdles(sem)
    requires Embeds(t, p, q, f) && RetsExpanded(p, q, f, Epilog(hook, arg)) && TablesIntact(t, p.code) && Inside(p, s)
    ensures Run(t, sem, p, s, k).Returned? ==>
              Run(t, sem, q, Image(f, s), k + |Epilog(hook, arg)|) == WithExit(Run(t, sem, p, s, k), Event(hook, arg))
    ensures !Run(t, sem, p, s, k).Returned? ==> !Run(t, sem, q, Image(f, s), k + |Epilog(hook, arg)|).Returned?
    decreases k + |Epilog(hook, arg)|
  {
    hide Embeds, TablesIntact, Step, Image, RetsExpanded, HookReports, NopIdles, Epilog, Inside, OpcodeTable.Valid;
    var m := |Epilog(hook, arg)|;
    if k == 0 {
      NotYetReturned(t, sem, p, q, f, s, hook, arg, m);
    } else if s.pc < |p.code| && p.code[s.pc].op == CEE_RET {
      RetRuns(t, sem, p, q, f, s, hook, arg, k + m);
    } else {
      StepEmbedded(t, sem, p, q, f, s);
      match Step(t, sem, p, s) {
        case Continue(s', events) =>
          RunWithEpilogs(t, sem, p, q, f, s', hook, arg, k - 1);
          assert Run(t, sem, q, Image(f, s), k + m) == Before(events, Run(t, sem, q, Image(f, s'), k - 1 + m));
          BeforeExit(events, Run(t, sem, p, s', k - 1), Event(hook, arg));
        case _ =>
      }
    }
  }

  lemma {:induction false} BeforeExit<V, M>(events: seq<Event>, r: Outcome<V, M>, e: Event)
    ensures Before(events, WithExit(r, e)) == WithExit(Before(events, r), e)
  {
    if r.Returned? {
      assert events + (r.events + [e]) == events + r.events + [e];
    }
  }

  lemma {:induction false} RetRuns<V(!new), M(!new)>(
      t: OpcodeTable, sem: Semantics<V, M>, p: Program, q: Program, f: seq<nat>, s: State<V, M>, hook: nat,
      arg: Option<nat>, k: nat)
    requires t.Valid() && HookReports(sem, hook, arg) && NopIdles(sem)
    requires RetsExpanded(p, q, f, Epilog(hook, arg)) && s.pc < |p.code| && p.code[s.pc].op == CEE_RET
    ensures Step(t, sem, p, s) == Return(s.stack, s.mem)
    ensures k > |Epilog(hook, arg)| ==> Run(t, sem, q, Image(f, s), k) == Returned(s.stack, s.mem, [Event(hook, arg)])
    ensures k <= |Epilog(hook, arg)| ==> Run(t, sem, q, Image(f, s), k) == Running
  {
    EpilogRuns(t, sem, q, Image(f, s), hook, arg, k);
  }

  /** No run of q returns within the length of an epilog. */
  lemma {:induction false} NotYetReturned<V(!new), M(!new)>(
      t: OpcodeTable, sem: Semantics<V, M>, p: Program, q: Program, f: seq<nat>, s: State<V, M>, hook: nat,
      arg: Option<nat>, k: nat)
    requires t.Valid() && HookReports(sem, hook, arg) && NopIdles(sem)
    requires Embeds(t, p, q, f) && RetsExpanded(p, q, f, Epilog(hook, arg)) && TablesIntact(t, p.code) && Inside(p, s)
    requires k <= |Epilog(hook, arg)|
    ensures !Run(t, sem, q, Image(f, s), k).Returned?
    decreases k
  {
    hide Embeds, TablesIntact, Destination, PendingAfter, CoverOf, ViewOf, RetsExpanded, HookReports, NopIdles, Epilog;
    if k > 0 {
      if s.pc < |p.code| && p.code[s.pc].op == CEE_RET {
        RetRuns(t, sem, p, q, f, s, hook, arg, k);
      } else {
        StepEmbedded(t, sem, p, q, f, s);
        match Step(t, sem, p, s) {
          case Continue(s', _) => NotYetReturned(t, sem, p, q, f, s', hook, arg, k - 1);
          case _ =>
        }
      }
    }
  }

  // ---------- the instrumented method ----------

  function Entry<V, M>(stack: seq<V>, mem: M): State<V, M> { State(0, [], stack, mem) }

  /** The semantics the probes rely on, for the hooks that are requested. */
  ghost predicate HooksReport<V(!new), M(!new)>(sem: Semantics<V, M>, h: Hooks) {
    && NopIdles(sem)
    && (h.enter != TOKEN_NIL ==> HookReports(sem, h.enter, h.arg))
    && (h.exit != TOKEN_NIL ==> HookReports(sem, h.exit, h.arg))
  }

  /** A semantics over numbers in which every call takes the hook's argument and reports it, and
      leave and endfinally unwind by the rule. */
  function ReportingCalls(arg: Option<nat>): Semantics<nat, ()> {
    Semantics((action: Action, x: nat, view: View, stack: seq<nat>, mem: ()) =>
                if action == Operation(CEE_LDC_I4) then Effect(stack + [x], mem, [], Fall)
                else if action == Branch(Leaving) then Effect([], mem, [], Unwind(view.here, view.target, Jump))
                else if action == Operation(CEE_ENDFINALLY) then
                  Effect([], mem, [], Unwind(view.here, view.resume, Resume))
                else if action != Operation(CEE_CALL) then Effect(stack, mem, [], Fall)
                else if arg.Some? && |stack| > 0 then
                  Effect(stack[..|stack| - 1], mem, [Event(x, Some(stack[|stack| - 1]))], Fall)
                else Effect(stack, mem, [Event(x, None)], Fall),
              (v: nat) => v)
  }

  /** What is asked of a semantics can be had, together with the rule for leaving try blocks. */
  lemma {:induction false} HooksCanReport(h: Hooks)
    ensures HooksReport(ReportingCalls(h.arg), h) && FollowsLeaveRule(ReportingCalls(h.arg))
  {
    var sem := ReportingCalls(h.arg);
    forall hook: nat, view: View, stack: seq<nat>, mem: ()
      ensures ReportsAt(sem, hook, h.arg, view, stack, mem)
    {
      if h.arg.Some? {
        assert (stack + [h.arg.value])[..|stack|] == stack;
      }
    }
  }

  /** The steps the probes add to a returning run. */
  function Cost(h: Hooks): nat {
    (if h.enter != TOKEN_NIL then |Probe(h.enter, h.arg)| else 0) +
    (if h.exit != TOKEN_NIL then |Epilog(h.exit, h.arg)| else 0)
  }

  /** The outcome with the enter event in front and the exit event at the end. */
  function Framed<V, M>(h: Hooks, r: Outcome<V, M>): Outcome<V, M> {
    var exited := if h.exit != TOKEN_NIL then WithExit(r, Event(h.exit, h.arg)) else r;
    if h.enter != TOKEN_NIL then Before([Event(h.enter, h.arg)], exited) else exited
  }

  lemma {:induction false} EnterRuns<V(!new), M(!new)>(
      t: OpcodeTable, sem: Semantics<V, M>, p: Program, hook: nat, arg: Option<nat>, stack: seq<V>, mem: M, k: nat)
    requires t.Valid() && ProgramOk(t, p) && HookReports(sem, hook, arg)
    ensures Run(t, sem, AddEnter(p, hook, arg), Entry(stack, mem), k + |Probe(hook, arg)|) ==
            Before([Event(hook, arg)], Run(t, sem, p, Entry(stack, mem), k))
  {
    hide Run, Step, Embeds, RetsStay, TablesIntact, HookReports, Probe, Splice, AddEnter;
    AddEnterIsSplice(p, hook, arg);
    var probe := Probe(hook, arg);
    var q, f, s := AddEnter(p, hook, arg), EnterMap(|p.code|, |probe|), Entry(stack, mem);
    EnterEmbeds(t, p, hook, arg);
    RunEmbedded(t, sem, p, q, f, s, k);
    assert Image(f, s) == s.(pc := |probe|);
    SpliceFront(p, probe);
    ProbeRuns(t, sem, q, s, hook, arg, k);
  }

  lemma {:induction false} ExitRuns<V(!new), M(!new)>(
      t: OpcodeTable, sem: Semantics<V, M>, p: Program, hook: nat, arg: Option<nat>, stack: seq<V>, mem: M, k: nat)
    requires t.Valid() && ProgramOk(t, p) && HookReports(sem, hook, arg) && NopIdles(sem)
    ensures var r, r' := Run(t, sem, p, Entry(stack, mem), k),
            Run(t, sem, ExitLoop(p, 0, hook, arg), Entry(stack, mem), k + |Epilog(hook, arg)|);
            && (r'.Returned? <==> r.Returned?)
            && (r.Returned? ==> r' == WithExit(r, Event(hook, arg)))
  {
    hide Run, Step, Embeds, RetsExpanded, TablesIntact, HookReports, NopIdles, Epilog, ExitLoop;
    var m := |Epilog(hook, arg)|;
    var q, f, s := ExitLoop(p, 0, hook, arg), ExitMap(p.code, m), Entry(stack, mem);
    ProgramInBounds(t, p);
    ExitEmbeds(t, p, hook, arg);
    ExitLoopExpands(p, hook, arg);
    RunWithEpilogs(t, sem, p, q, f, s, hook, arg, k);
    assert Image(f, s) == s;
  }

  /** A run of the instrumented method returns exactly when the original run does, with the same
      stack and memory, and reports entry first and exit last. */
  lemma {:induction false} ProbesPreserveMeaning<V(!new), M(!new)>(
      t: OpcodeTable, sem: Semantics<V, M>, p: Program, h: Hooks, stack: seq<V>, mem: M, k: nat)
    requires t.Valid() && ProgramOk(t, p) && HooksOk(h) && AddProbes(p, h).Some? && HooksReport(sem, h)
    ensures var r, r' := Run(t, sem, p, Entry(stack, mem), k),
            Run(t, sem, AddProbes(p, h).value, Entry(stack, mem), k + Cost(h));
            && (r'.Returned? <==> r.Returned?)
            && (r.Returned? ==> r' == Framed(h, r))
  {
    hide Run, ProgramOk, HookReports, NopIdles, AddEnter, ExitLoop, Probe, Epilog;
    var entered, e := p, 0;
    if h.enter != TOKEN_NIL {
      entered, e := AddEnter(p, h.enter, h.arg), |Probe(h.enter, h.arg)|;
      EnterKeepsOk(t, p, h.enter, h.arg);
      EnterRuns(t, sem, p, h.enter, h.arg, stack, mem, k);
    }
    if h.exit != TOKEN_NIL {
      ExitRuns(t, sem, entered, h.exit, h.arg, stack, mem, k + e);
      if h.enter != TOKEN_NIL {
        BeforeExit([Event(h.enter, h.arg)], Run(t, sem, p, Entry(stack, mem), k), Event(h.exit, h.arg));
      }
    }
  }

  /** Read from the instrumented side: each returning run is a framed run of the original. */
  lemma {:induction false} ReturningRunsAreFramed<V(!new), M(!new)>(
      t: OpcodeTable, sem: Semantics<V, M>, p: Program, h: Hooks, stack: seq<V>, mem: M, k: nat)
    requires t.Valid() && ProgramOk(t, p) && HooksOk(h) && AddProbes(p, h).Some? && HooksReport(sem, h)
    requires Run(t, sem, AddProbes(p, h).value, Entry(stack, mem), k).Returned?
    ensures k > Cost(h)
    ensures var r := Run(t, sem, p, Entry(stack, mem), k - Cost(h));
            r.Returned? && Run(t, sem, AddProbes(p, h).value, Entry(stack, mem), k) == Framed(h, r)
  {
    hide Step, ProgramOk, HooksReport, AddProbes, Cost;
    if k <= Cost(h) {
      RunMonotone(t, sem, AddProbes(p, h).value, Entry(stack, mem), k, Cost(h));
      ProbesPreserveMeaning(t, sem, p, h, stack, mem, 0);
      assert false;
    }
    ProbesPreserveMeaning(t, sem, p, h, stack, mem, k - Cost(h));
  }

  /** Widening changes no run at all. */
  lemma {:induction false} WideningPreservesMeaning<V, M>(
      t: OpcodeTable, sem: Semantics<V, M>, p: Program, wide: seq<Instr>, stack: seq<V>, mem: M, k: nat)
    requires t.Valid() && ProgramOk(t, p) && Widening(p.code, wide)
    ensures Run(t, sem, p.(code := wide), Entry(stack, mem), k) == Run(t, sem, p, Entry(stack, mem), k)
  {
    hide Run, Embeds, RetsStay, TablesIntact;
    var f, s := IdentityMap(|p.code|), Entry(stack, mem);
    WideningEmbeds(t, p, wide);
    RunEmbedded(t, sem, p, p.(code := wide), f, s, k);
    assert Image(f, s) == s;
  }
}
