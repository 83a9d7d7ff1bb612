/** An abstract machine that runs method bodies. What an instruction does to the stack and the
    memory is a parameter; control flow, including jumps into exception handlers, is not. */
module Machine {
  import opened Bytes
  import opened Opcodes
  import opened Listing
  import opened Encoding
  import opened Probes

  /** A hook call the outside world sees. */
  datatype Event = Event(hook: nat, arg: Option<nat>)

  /** Where control goes: on, to the jump target, to entry k of the switch table, into the handler
      or filter of a clause, back to where a leave was heading, or out of the method. */
  datatype Go = Fall | Jump | Case(k: nat) | ToHandler(clause: nat) | ToFilter(clause: nat) | Resume | Escape

  datatype Effect<V, M> = Effect(stack: seq<V>, mem: M, events: seq<Event>, go: Go)

  /** How a position lies to one clause: the clause's kind and class, and whether the position is in
      its try block and in its handler. */
  datatype Region = Region(flags: nat, token: nat, inTry: bool, inHandler: bool)

  /** How a position lies to every clause of the method, in table order. */
  type Cover = seq<Region>

  /** What an instruction knows of the method around it: the regions it lies in, those its jump
      target lies in, and those of the place the innermost unfinished leave is heading for. */
  datatype View = View(here: Cover, target: Option<Cover>, resume: Option<Cover>)

  /** The meaning of instructions: a function of action, operand, view, stack and memory. */
  datatype Semantics<!V, !M> = Semantics(exec: (Action, nat, View, seq<V>, M) -> Effect<V, M>, literal: nat -> V)

  /** pending holds the targets of leaves whose finally handlers are still running. */
  datatype State<V, M> = State(pc: nat, pending: seq<nat>, stack: seq<V>, mem: M)

  datatype StepResult<V, M> = Continue(state: State<V, M>, events: seq<Event>) | Return(stack: seq<V>, mem: M) | Stop

  datatype Outcome<V, M> = Running | Stuck | Returned(stack: seq<V>, mem: M, events: seq<Event>)

  function CoverOf(eh: seq<Clause>, i: nat): Cover {
    seq(|eh|, c requires 0 <= c < |eh| => Region(eh[c].flags, eh[c].token, eh[c].InTry(i), eh[c].InHandler(i)))
  }

  function ViewOf(t: OpcodeTable, p: Program, i: nat, pending: seq<nat>): View
    requires i < |p.code|
  {
    var x := p.code[i];
    View(CoverOf(p.eh, i),
         if t.IsBranch(x.op) && x.target >= 0 then Some(CoverOf(p.eh, x.target)) else None,
         if |pending| > 0 then Some(CoverOf(p.eh, pending[|pending| - 1])) else None)
  }

  /** The position control goes to, NONE when there is none. */
  function Destination(t: OpcodeTable, p: Program, i: nat, pending: seq<nat>, go: Go): int
    requires i < |p.code|
  {
    var x := p.code[i];
    match go
    case Fall => if x.op == CEE_SWITCH then i + 1 + x.arg else i + 1
    case Jump => if t.IsBranch(x.op) then x.target else NONE
    case Case(k) => if x.op == CEE_SWITCH && k < x.arg && i + 1 + k < |p.code| then p.code[i + 1 + k].target else NONE
    case ToHandler(c) => if c < |p.eh| then p.eh[c].handlerBegin else NONE
    case ToFilter(c) => if c < |p.eh| then p.eh[c].filter else NONE
    case Resume => if |pending| > 0 then pending[|pending| - 1] else NONE
    case Escape => NONE
  }

  /** A leave that enters a handler notes where it was heading; resuming forgets it. */
  function PendingAfter(t: OpcodeTable, x: Instr, pending: seq<nat>, go: Go): seq<nat> {
    if go.ToHandler? && t.IsBranch(x.op) && x.target >= 0 then pending + [x.target]
    else if go.Resume? && |pending| > 0 then pending[..|pending| - 1]
    else pending
  }

  ghost function Step<V, M>(t: OpcodeTable, sem: Semantics<V, M>, p: Program, s: State<V, M>): StepResult<V, M> {
    if s.pc >= |p.code| || p.code[s.pc].op == t.SwitchArg() then Stop
    else if p.code[s.pc].op == CEE_RET then Return(s.stack, s.mem)
    else
      var x := p.code[s.pc];
      var e := sem.exec(ActionOf(x.op), x.arg, ViewOf(t, p, s.pc, s.pending), s.stack, s.mem);
      var next := Destination(t, p, s.pc, s.pending, e.go);
      if next < 0 then Stop
      else Continue(State(next, PendingAfter(t, x, s.pending, e.go), e.stack, e.mem), e.events)
  }

  /** At most k steps from s. */
  ghost function Run<V, M>(t: OpcodeTable, sem: Semantics<V, M>, p: Program, s: State<V, M>, k: nat): Outcome<V, M>
    decreases k
  {
    if k == 0 then Running
    else
      match Step(t, sem, p, s)
      case Stop => Stuck
      case Return(stack, mem) => Returned(stack, mem, [])
      case Continue(s', events) => Before(events, Run(t, sem, p, s', k - 1))
  }

  function Before<V, M>(events: seq<Event>, r: Outcome<V, M>): Outcome<V, M> {
    if r.Returned? then r.(events := events + r.events) else r
  }

  /** The evaluation stack holds at most limit values in each of the first k states. */
  ghost predicate StaysWithin<V, M>(
      t: OpcodeTable, sem: Semantics<V, M>, p: Program, s: State<V, M>, k: nat, limit: int)
    decreases k
  {
    && |s.stack| <= limit
    && (k > 0 ==>
          match Step(t, sem, p, s)
          case Continue(s', _) => StaysWithin(t, sem, p, s', k - 1, limit)
          case _ => true)
  }

  // ---------- what the probes need of the semantics ----------

  ghost predicate IdlesAt<V, M>(sem: Semantics<V, M>, arg: nat, view: View, stack: seq<V>, mem: M) {
    sem.exec(Operation(CEE_NOP), arg, view, stack, mem) == Effect(stack, mem, [], Fall)
  }

  ghost predicate NopIdles<V(!new), M(!new)>(sem: Semantics<V, M>) {
    forall arg: nat, view: View, stack: seq<V>, mem: M :: IdlesAt(sem, arg, view, stack, mem)
  }

  /** Loading the argument pushes one value; the hook takes it, reports itself and returns. */
  ghost predicate ReportsAt<V, M>(
      sem: Semantics<V, M>, hook: nat, arg: Option<nat>, view: View, stack: seq<V>, mem: M) {
    match arg
    case None => sem.exec(Operation(CEE_CALL), hook, view, stack, mem) == Effect(stack, mem, [Event(hook, None)], Fall)
    case Some(v) =>
      && sem.exec(Operation(CEE_LDC_I4), v, view, stack, mem) == Effect(stack + [sem.literal(v)], mem, [], Fall)
      && sem.exec(Operation(CEE_CALL), hook, view, stack + [sem.literal(v)], mem) ==
           Effect(stack, mem, [Event(hook, Some(v))], Fall)
  }

  ghost predicate HookReports<V(!new), M(!new)>(sem: Semantics<V, M>, hook: nat, arg: Option<nat>) {
    forall view: View, stack: seq<V>, mem: M :: ReportsAt(sem, hook, arg, view, stack, mem)
  }

  // ---------- the rule for leaving try blocks ----------

  /** The first finally clause, from c on, whose try block holds here but not there; inner clauses
      come first in the table. */
  function NextFinally(here: Cover, there: Cover, c: nat): Option<nat>
    requires |there| == |here|
    decreases |here| - c
  {
    if c >= |here| then None
    else if here[c].flags == EH_FINALLY && here[c].inTry && !there[c].inTry then Some(c)
    else NextFinally(here, there, c + 1)
  }

  /** The next handler on the way there, or done when none is left. */
  function Unwind(here: Cover, there: Option<Cover>, done: Go): Go {
    if there.None? || |there.value| != |here| then done
    else
      match NextFinally(here, there.value, 0)
      case Some(c) => ToHandler(c)
      case None => done
  }

  ghost predicate UnwindsAt<V, M>(sem: Semantics<V, M>, arg: nat, view: View, stack: seq<V>, mem: M) {
    && sem.exec(Branch(Leaving), arg, view, stack, mem).go == Unwind(view.here, view.target, Jump)
    && sem.exec(Operation(CEE_ENDFINALLY), arg, view, stack, mem).go == Unwind(view.here, view.resume, Resume)
  }

  /** A leave runs exactly the finally handlers between itself and its target, innermost first
      (sections III.3.35 and III.3.46 of ECMA-335). */
  ghost predicate FollowsLeaveRule<V(!new), M(!new)>(sem: Semantics<V, M>) {
    forall arg: nat, view: View, stack: seq<V>, mem: M :: UnwindsAt(sem, arg, view, stack, mem)
  }

  /** Clause c is a finally whose try block is left on the way from here to there. */
  predicate Left(here: Cover, there: Cover, c: nat)
    requires c < |here| == |there|
  {
    here[c].flags == 2 && here[c].inTry && !there[c].inTry
  }

  lemma {:induction false} NextFinallyIsFirst(here: Cover, there: Cover, c: nat)
    requires |there| == |here|
    ensures match NextFinally(here, there, c)
            case Some(d) => c <= d < |here| && Left(here, there, d) && forall e | c <= e < d :: !Left(here, there, e)
            case None => forall e | c <= e < |here| :: !Left(here, there, e)
    decreases |here| - c
  {
    if c < |here| && !Left(here, there, c) {
      NextFinallyIsFirst(here, there, c + 1);
    }
  }

  /** go is into the first finally left on the way, or done when none is left. */
  ghost predicate GoesThrough(here: Cover, there: Cover, go: Go, done: Go)
    requires |there| == |here|
  {
    if go.ToHandler? then
      && go.clause < |here| && Left(here, there, go.clause)
      && forall e: nat | e < go.clause :: !Left(here, there, e)
    else go == done && forall e: nat | e < |here| :: !Left(here, there, e)
  }

  /** Under the rule a leave towards there runs the first finally it leaves next, and jumps when it
      leaves none; the same goes for endfinally (0xDC) and resuming. */
  lemma {:induction false} LeaveRuleExactly<V(!new), M(!new)>(
      sem: Semantics<V, M>, arg: nat, view: View, there: Cover, stack: seq<V>, mem: M)
    requires FollowsLeaveRule(sem) && |there| == |view.here|
    ensures view.target == Some(there) ==>
              GoesThrough(view.here, there, sem.exec(Branch(Leaving), arg, view, stack, mem).go, Jump)
    ensures view.resume == Some(there) ==>
              GoesThrough(view.here, there, sem.exec(Operation(0xDC), arg, view, stack, mem).go, Resume)
  {
    hide NextFinally;
    assert UnwindsAt(sem, arg, view, stack, mem);
    NextFinallyIsFirst(view.here, there, 0);
  }

  // ---------- embeddings ----------

  /** f[i] is where q holds instruction i of p. */
  ghost predicate Embeds(t: OpcodeTable, p: Program, q: Program, f: seq<nat>) {
    && |f| == |p.code| + 1 && f[|p.code|] == |q.code| && |q.eh| == |p.eh|
    && InBounds(p) && CoverOf(q.eh, |q.code|) == CoverOf(p.eh, |p.code|)
    && (forall i {:trigger InstrEmbedded(t, p, q, f, i)} | 0 <= i < |p.code| :: InstrEmbedded(t, p, q, f, i))
    && (forall c {:trigger ClauseEmbedded(p, q, f, c)} | 0 <= c < |p.eh| :: ClauseEmbedded(p, q, f, c))
  }

  predicate MapsTo(f: seq<nat>, a: int, b: int) {
    if 0 <= a < |f| then b == f[a] else b == a
  }

  /** Everything but a RET does the same in q, falls through to the next instruction and jumps alike. */
  ghost predicate InstrEmbedded(t: OpcodeTable, p: Program, q: Program, f: seq<nat>, i: nat)
    requires i < |p.code| && |f| == |p.code| + 1
  {
    && f[i] < |q.code|
    && CoverOf(q.eh, f[i]) == CoverOf(p.eh, i)
    && (p.code[i].op != CEE_RET ==>
          && f[i + 1] == f[i] + 1
          && SameInstr(t, p.code[i], q.code[f[i]])
          && MapsTo(f, p.code[i].target, q.code[f[i]].target))
  }

  /** The two have the same meaning, up to the width of a displacement. */
  predicate SameInstr(t: OpcodeTable, x: Instr, y: Instr) {
    && ActionOf(y.op) == ActionOf(x.op) && y.arg == x.arg
    && (t.IsBranch(y.op) <==> t.IsBranch(x.op))
    && (y.op == t.SwitchArg() <==> x.op == t.SwitchArg())
    && (y.op == CEE_SWITCH <==> x.op == CEE_SWITCH)
    && (y.op == CEE_RET <==> x.op == CEE_RET)
  }

  ghost predicate ClauseEmbedded(p: Program, q: Program, f: seq<nat>, c: nat)
    requires c < |p.eh| && c < |q.eh|
  {
    && MapsTo(f, p.eh[c].handlerBegin, q.eh[c].handlerBegin)
    && MapsTo(f, p.eh[c].filter, q.eh[c].filter)
  }

  /** A state of p whose positions lie in the method. */
  ghost predicate Inside<V, M>(p: Program, s: State<V, M>) {
    s.pc <= |p.code| && forall j {:trigger s.pending[j]} | 0 <= j < |s.pending| :: s.pending[j] <= |p.code|
  }

  /** The state of q that corresponds to s. */
  function Image<V, M>(f: seq<nat>, s: State<V, M>): State<V, M> {
    State(At(f, s.pc), seq(|s.pending|, j requires 0 <= j < |s.pending| => At(f, s.pending[j])), s.stack, s.mem)
  }

  function At(f: seq<nat>, i: nat): nat {
    if i < |f| then f[i] else i
  }

  lemma {:induction false} TableEmbedded(t: OpcodeTable, p: Program, q: Program, f: seq<nat>, i: nat, k: nat)
    requires t.Valid() && Embeds(t, p, q, f) && TablesIntact(t, p.code)
    requires i < |p.code| && p.code[i].op == CEE_SWITCH && k <= p.code[i].arg
    ensures i + 1 + k <= |p.code| && |f| == |p.code| + 1 && f[i + 1 + k] == f[i] + 1 + k
    ensures k < p.code[i].arg ==> i + 1 + k < |p.code| && p.code[i + 1 + k].op == t.SwitchArg()
  {
    hide Embeds, Pending, TablesIntact, OpcodeTable.Valid;
    AfterSwitch(t, p.code, i);
    TableFollows(t, p.code, i + 1);
    if k == 0 {
      NextEmbedded(t, p, q, f, i);
    } else {
      TableEmbedded(t, p, q, f, i, k - 1);
      SwitchArgIsNoRet(t);
      NextEmbedded(t, p, q, f, i + k);
    }
  }

  lemma {:induction false} AfterSwitch(t: OpcodeTable, code: seq<Instr>, i: nat)
    requires i < |code| && code[i].op == CEE_SWITCH
    ensures Pending(t, code, i + 1) == code[i].arg
  {
  }

  lemma {:induction false} SwitchArgIsNoRet(t: OpcodeTable)
    requires t.Valid()
    ensures t.SwitchArg() != CEE_RET
  {
  }

  lemma {:induction false} NextEmbedded(t: OpcodeTable, p: Program, q: Program, f: seq<nat>, i: nat)
    requires Embeds(t, p, q, f) && i < |p.code| && p.code[i].op != CEE_RET
    ensures |f| == |p.code| + 1 && f[i + 1] == f[i] + 1
  {
    assert InstrEmbedded(t, p, q, f, i);
  }

  /** The destinations of corresponding instructions correspond. */
  lemma {:induction false} DestinationEmbedded<V, M>(
      t: OpcodeTable, p: Program, q: Program, f: seq<nat>, s: State<V, M>, go: Go)
    requires t.Valid() && Embeds(t, p, q, f) && TablesIntact(t, p.code) && Inside(p, s)
    requires s.pc < |p.code| && p.code[s.pc].op != CEE_RET
    ensures At(f, s.pc) < |q.code|
    ensures var d := Destination(t, p, s.pc, s.pending, go);
            var d' := Destination(t, q, At(f, s.pc), Image(f, s).pending, go);
            NONE <= d <= |p.code| && MapsTo(f, d, d')
  {
    hide TablesIntact, CoverOf;
    var i := s.pc;
    assert InstrEmbedded(t, p, q, f, i);
    match go
    case Fall =>
      if p.code[i].op == CEE_SWITCH {
        TableEmbedded(t, p, q, f, i, p.code[i].arg);
      }
    case Case(k) =>
      if p.code[i].op == CEE_SWITCH && k < p.code[i].arg {
        TableEmbedded(t, p, q, f, i, k);
        assert InstrEmbedded(t, p, q, f, i + 1 + k);
      }
    case ToHandler(c) =>
      if c < |p.eh| {
        assert ClauseEmbedded(p, q, f, c);
      }
    case ToFilter(c) =>
      if c < |p.eh| {
        assert ClauseEmbedded(p, q, f, c);
      }
    case _ =>
  }

  /** Corresponding positions lie in the same regions, the end of the code included. */
  lemma {:induction false} CoverEmbedded(t: OpcodeTable, p: Program, q: Program, f: seq<nat>, i: nat)
    requires Embeds(t, p, q, f) && i <= |p.code|
    ensures CoverOf(q.eh, f[i]) == CoverOf(p.eh, i)
  {
    hide CoverOf;
    if i < |p.code| {
      assert InstrEmbedded(t, p, q, f, i);
    }
  }

  /** Corresponding instructions see the same regions around themselves, their targets and the place
      a leave is heading for. */
  lemma {:induction false} ViewEmbedded<V, M>(t: OpcodeTable, p: Program, q: Program, f: seq<nat>, s: State<V, M>)
    requires Embeds(t, p, q, f) && Inside(p, s) && s.pc < |p.code| && p.code[s.pc].op != CEE_RET
    ensures f[s.pc] < |q.code|
    ensures ViewOf(t, q, f[s.pc], Image(f, s).pending) == ViewOf(t, p, s.pc, s.pending)
  {
    hide CoverOf, ActionOf, OpcodeTable.IsBranch;
    assert InstrEmbedded(t, p, q, f, s.pc);
    CoverEmbedded(t, p, q, f, s.pc);
    if p.code[s.pc].target >= 0 {
      CoverEmbedded(t, p, q, f, p.code[s.pc].target);
    }
    if |s.pending| > 0 {
      CoverEmbedded(t, p, q, f, s.pending[|s.pending| - 1]);
    }
  }

  /** One step of p that is not a RET is one step of q. */
  lemma {:induction false} StepEmbedded<V, M>(
      t: OpcodeTable, sem: Semantics<V, M>, p: Program, q: Program, f: seq<nat>, s: State<V, M>)
    requires t.Valid() && Embeds(t, p, q, f) && TablesIntact(t, p.code) && Inside(p, s)
    requires s.pc < |p.code| ==> p.code[s.pc].op != CEE_RET
    ensures match Step(t, sem, p, s)
            case Stop => Step(t, sem, q, Image(f, s)).Stop?
            case Return(_, _) => false
            case Continue(s', events) => Inside(p, s') && Step(t, sem, q, Image(f, s)) == Continue(Image(f, s'), events)
  {
    hide TablesIntact, CoverOf, ViewOf, Destination, ActionOf;
    if s.pc < |p.code| {
      var i := s.pc;
      assert InstrEmbedded(t, p, q, f, i);
      var x := p.code[i];
      if x.op != t.SwitchArg() {
        var e := sem.exec(ActionOf(x.op), x.arg, ViewOf(t, p, i, s.pending), s.stack, s.mem);
        ViewEmbedded(t, p, q, f, s);
        DestinationEmbedded(t, p, q, f, s, e.go);
        PendingEmbedded(t, p, q, f, s, e.go);
      }
    }
  }

  lemma {:induction false} PendingEmbedded<V, M>(
      t: OpcodeTable, p: Program, q: Program, f: seq<nat>, s: State<V, M>, go: Go)
    requires t.Valid() && Embeds(t, p, q, f) && Inside(p, s) && s.pc < |p.code| && p.code[s.pc].op != CEE_RET
    ensures f[s.pc] < |q.code|
    ensures var a := PendingAfter(t, p.code[s.pc], s.pending, go);
            && (forall j {:trigger a[j]} | 0 <= j < |a| :: a[j] <= |p.code|)
            && PendingAfter(t, q.code[f[s.pc]], Image(f, s).pending, go) ==
                 seq(|a|, j requires 0 <= j < |a| => At(f, a[j]))
  {
    assert InstrEmbedded(t, p, q, f, s.pc);
    var x, y := p.code[s.pc], q.code[f[s.pc]];
    var a, b := PendingAfter(t, x, s.pending, go), PendingAfter(t, y, Image(f, s).pending, go);
    assert |a| == |b|;
    assert forall j | 0 <= j < |a| :: b[j] == At(f, a[j]);
  }
}
