/** The enter and exit probes, as edits of a program. */
module Probes {
  import opened Bytes
  import opened Opcodes
  import opened Listing

  /** The nil metadata token: no hook requested. */
  const TOKEN_NIL: nat := 0

  /** The hooks to call, and the argument to pass them (none for a hook without parameters). */
  datatype Hooks = Hooks(enter: nat, exit: nat, arg: Option<nat>)

  const NOP := Instr(CEE_NOP, 0, NONE)
  const RET := Instr(CEE_RET, 0, NONE)

  function LoadArg(arg: nat): Instr { Instr(CEE_LDC_I4, arg, NONE) }

  function CallHook(hook: nat): Instr { Instr(CEE_CALL, hook, NONE) }

  /** The instructions of one probe. */
  function Probe(hook: nat, arg: Option<nat>): (r: seq<Instr>)
    ensures NoTargets(r) && 1 <= |r| <= 2
  {
    match arg
    case None => [CallHook(hook)]
    case Some(v) => [LoadArg(v), CallHook(hook)]
  }

  /** Splices a probe in front of position k, one node at a time. */
  function InsertProbe(p: Program, k: nat, hook: nat, arg: Option<nat>): (q: Program)
    requires k <= |p.code|
  {
    match arg
    case None => Splice(p, k, [CallHook(hook)])
    case Some(v) => Splice(Splice(p, k, [LoadArg(v)]), k + 1, [CallHook(hook)])
  }

  lemma {:induction false} InsertProbeIsSplice(p: Program, k: nat, hook: nat, arg: Option<nat>)
    requires k <= |p.code|
    ensures InsertProbe(p, k, hook, arg) == Splice(p, k, Probe(hook, arg))
  {
    if arg.Some? {
      SpliceAfter(p, k, [LoadArg(arg.value)], [CallHook(hook)]);
      assert [LoadArg(arg.value)] + [CallHook(hook)] == Probe(hook, arg);
    }
  }

  function AddEnter(p: Program, hook: nat, arg: Option<nat>): Program {
    InsertProbe(p, 0, hook, arg)
  }

  lemma {:induction false} AddEnterIsSplice(p: Program, hook: nat, arg: Option<nat>)
    ensures AddEnter(p, hook, arg) == Splice(p, 0, Probe(hook, arg))
  {
    InsertProbeIsSplice(p, 0, hook, arg);
  }

  function WithOp(p: Program, k: nat, op: nat): Program
    requires k < |p.code|
  {
    p.(code := p.code[k := p.code[k].(op := op)])
  }

  /** What the exit loop does to the RET at k: RET becomes NOP, a new RET goes behind it, and the
      probe in front of that. */
  function ExpandRet(p: Program, k: nat, hook: nat, arg: Option<nat>): (q: Program)
    requires k < |p.code|
  {
    InsertProbe(Splice(WithOp(p, k, CEE_NOP), k + 1, [RET]), k + 1, hook, arg)
  }

  /** What follows the NOP in place of a RET. */
  function Epilog(hook: nat, arg: Option<nat>): (r: seq<Instr>)
    ensures NoTargets(r) && |r| == |Probe(hook, arg)| + 1
  {
    Probe(hook, arg) + [RET]
  }

  /** The list after the RET at k has been given this epilog. */
  function Expanded(p: Program, k: nat, epilog: seq<Instr>): Program
    requires k < |p.code|
  {
    Splice(WithOp(p, k, CEE_NOP), k + 1, epilog)
  }

  lemma {:induction false} ExpandRetIsSplice(p: Program, k: nat, hook: nat, arg: Option<nat>)
    requires k < |p.code|
    ensures ExpandRet(p, k, hook, arg) == Splice(WithOp(p, k, CEE_NOP), k + 1, Epilog(hook, arg))
  {
    var q := WithOp(p, k, CEE_NOP);
    InsertProbeIsSplice(Splice(q, k + 1, [RET]), k + 1, hook, arg);
    SpliceBefore(q, k + 1, Probe(hook, arg), [RET]);
  }

  /** The rest of the exit loop from node k on; it resumes behind the RET it has just added. */
  function ExitLoop(p: Program, k: nat, hook: nat, arg: Option<nat>): (q: Program)
    requires k <= |p.code|
    decreases |p.code| - k
  {
    if k == |p.code| then p
    else if p.code[k].op == CEE_RET then
      ExpandRetIsSplice(p, k, hook, arg);
      ExitLoop(ExpandRet(p, k, hook, arg), k + 1 + |Epilog(hook, arg)|, hook, arg)
    else ExitLoop(p, k + 1, hook, arg)
  }

  predicate HasRetFrom(code: seq<Instr>, k: nat) {
    exists i :: k <= i < |code| && code[i].op == CEE_RET
  }

  predicate HasRet(code: seq<Instr>) {
    HasRetFrom(code, 0)
  }

  function Entered(p: Program, h: Hooks): Program {
    if h.enter != TOKEN_NIL then AddEnter(p, h.enter, h.arg) else p
  }

  /** Both probes; a method without a RET takes no exit probe and the injection fails. */
  function AddProbes(p: Program, h: Hooks): Option<Program> {
    var entered := Entered(p, h);
    if h.exit == TOKEN_NIL then Some(entered)
    else if HasRet(entered.code) then Some(ExitLoop(entered, 0, h.exit, h.arg))
    else None
  }

  // ---------- the exit loop is a flat map ----------

  /** How many nodes the exit loop adds for the first i instructions, m for each RET. */
  function Extra(code: seq<Instr>, m: nat, i: nat): nat
    requires i <= |code|
  {
    if i == 0 then 0 else Extra(code, m, i - 1) + if code[i - 1].op == CEE_RET then m else 0
  }

  /** Where the node of position pos stands once the first i instructions have been visited. */
  function Moved(code: seq<Instr>, m: nat, i: nat, pos: int): (r: int)
    requires i <= |code| && NONE <= pos <= |code|
    ensures pos == NONE ==> r == NONE
    ensures pos >= 0 ==> r >= pos
  {
    if pos < 0 then pos else pos + Extra(code, m, if pos < i then pos else i)
  }

  lemma {:induction false} ExtraMonotone(code: seq<Instr>, m: nat, i: nat, j: nat)
    requires i <= j <= |code|
    ensures Extra(code, m, i) <= Extra(code, m, j)
    ensures i < j && code[i].op == CEE_RET ==> Extra(code, m, i) + m <= Extra(code, m, j)
    decreases j
  {
    if i < j {
      ExtraMonotone(code, m, i, j - 1);
    }
  }

  /** Positions keep their order. */
  lemma {:induction false} MovedStrict(code: seq<Instr>, m: nat, i: nat, a: nat, b: nat)
    requires i <= |code| && a < b <= |code|
    ensures Moved(code, m, i, a) < Moved(code, m, i, b)
    ensures a < i && code[a].op == CEE_RET ==> Moved(code, m, i, a) + m < Moved(code, m, i, b)
  {
    ExtraMonotone(code, m, if a < i then a else i, if b < i then b else i);
  }

  /** Visiting one more node moves everything behind an expanded RET and nothing else. */
  lemma {:induction false} MovedStep(code: seq<Instr>, m: nat, i: nat, pos: int)
    requires i < |code| && NONE <= pos <= |code|
    ensures Moved(code, m, i + 1, pos) ==
            if code[i].op == CEE_RET then Shift(Moved(code, m, i, pos), Moved(code, m, i, i) + 1, m)
              else Moved(code, m, i, pos)
  {
    if i < pos {
      MovedStrict(code, m, i, i, pos);
    } else if 0 <= pos < i {
      MovedStrict(code, m, i, pos, i);
    }
  }

  /** Instruction j of the original as the finished list holds it. */
  function MovedInstr(code: seq<Instr>, m: nat, i: nat, j: nat): Instr
    requires i <= |code| && j < |code| && NONE <= code[j].target <= |code|
  {
    var x := code[j].(target := Moved(code, m, i, code[j].target));
    if j < i && x.op == CEE_RET then x.(op := CEE_NOP) else x
  }

  function MovedClause(code: seq<Instr>, m: nat, i: nat, c: Clause): Clause
    requires i <= |code| && c.WellFormed(|code|)
  {
    Clause(c.flags, Moved(code, m, i, c.tryBegin), Moved(code, m, i, c.tryEnd), Moved(code, m, i, c.handlerBegin),
           Moved(code, m, i, c.handlerEnd), c.token, Moved(code, m, i, c.filter))
  }

  /** Pointers point into the list. */
  ghost predicate InBounds(p: Program) {
    && (forall j {:trigger p.code[j]} | 0 <= j < |p.code| :: NONE <= p.code[j].target <= |p.code|)
    && (forall c {:trigger p.eh[c]} | 0 <= c < |p.eh| :: p.eh[c].WellFormed(|p.code|))
  }

  /** q is p after the exit loop has visited the first i instructions of p. */
  ghost predicate ExitedUpTo(p: Program, q: Program, i: nat, epilog: seq<Instr>)
    requires InBounds(p) && i <= |p.code|
  {
    var m := |epilog|;
    && |q.code| == Moved(p.code, m, i, |p.code|)
    && (forall j {:trigger InstrExited(p, q, i, epilog, j)} | 0 <= j < |p.code| :: InstrExited(p, q, i, epilog, j))
    && |q.eh| == |p.eh|
    && (forall c {:trigger q.eh[c]} | 0 <= c < |p.eh| :: q.eh[c] == MovedClause(p.code, m, i, p.eh[c]))
  }

  ghost predicate InstrExited(p: Program, q: Program, i: nat, epilog: seq<Instr>, j: nat)
    requires InBounds(p) && i <= |p.code| && j < |p.code|
  {
    var m := |epilog|;
    var at := Moved(p.code, m, i, j);
    && at < |q.code| && q.code[at] == MovedInstr(p.code, m, i, j)
    && (j < i && p.code[j].op == CEE_RET ==> at + m < |q.code| && q.code[at + 1..at + 1 + m] == epilog)
  }

  lemma {:induction false} ExitedStep(p: Program, q: Program, i: nat, hook: nat, arg: Option<nat>)
    requires InBounds(p) && i < |p.code| && ExitedUpTo(p, q, i, Epilog(hook, arg))
    ensures var k := Moved(p.code, |Epilog(hook, arg)|, i, i);
            && k < |q.code| && (q.code[k].op == CEE_RET <==> p.code[i].op == CEE_RET)
            && var next := if p.code[i].op == CEE_RET then ExpandRet(q, k, hook, arg) else q;
               ExitedUpTo(p, next, i + 1, Epilog(hook, arg))
  {
    hide Moved, Splice, ExpandRet, InstrExited, Epilog;
    var epilog := Epilog(hook, arg);
    var m := |epilog|;
    ExitedHere(p, q, i, epilog);
    var k := Moved(p.code, m, i, i);
    if p.code[i].op == CEE_RET {
      ExpandRetIsSplice(q, k, hook, arg);
      ExpandedStep(p, q, i, epilog);
    } else {
      SkippedStep(p, q, i, epilog);
    }
  }

  lemma {:induction false} ExitedHere(p: Program, q: Program, i: nat, epilog: seq<Instr>)
    requires InBounds(p) && i < |p.code| && ExitedUpTo(p, q, i, epilog)
    ensures Moved(p.code, |epilog|, i, i) < |q.code|
    ensures q.code[Moved(p.code, |epilog|, i, i)].op == p.code[i].op
  {
    hide Moved;
    assert InstrExited(p, q, i, epilog, i);
  }

  lemma {:induction false} SkippedStep(p: Program, q: Program, i: nat, epilog: seq<Instr>)
    requires InBounds(p) && i < |p.code| && ExitedUpTo(p, q, i, epilog) && p.code[i].op != CEE_RET
    ensures ExitedUpTo(p, q, i + 1, epilog)
  {
    hide Moved;
    var m := |epilog|;
    forall pos: int | NONE <= pos <= |p.code|
      ensures Moved(p.code, m, i + 1, pos) == Moved(p.code, m, i, pos)
    {
      MovedStep(p.code, m, i, pos);
    }
    var next := i + 1;
    forall j | 0 <= j < |p.code|
      ensures InstrExited(p, q, next, epilog, j)
    {
      assert InstrExited(p, q, i, epilog, j);
    }
  }

  lemma {:induction false} ExpandedStep(p: Program, q: Program, i: nat, epilog: seq<Instr>)
    requires InBounds(p) && i < |p.code| && ExitedUpTo(p, q, i, epilog) && p.code[i].op == CEE_RET && NoTargets(epilog)
    ensures Moved(p.code, |epilog|, i, i) < |q.code|
    ensures ExitedUpTo(p, Expanded(q, Moved(p.code, |epilog|, i, i), epilog), i + 1, epilog)
  {
    hide Moved, Splice;
    var m := |epilog|;
    var k := Moved(p.code, m, i, i);
    assert InstrExited(p, q, i, epilog, i);
    var r := WithOp(q, k, CEE_NOP);
    var s := Splice(r, k + 1, epilog);
    MovedStep(p.code, m, i, |p.code|);
    MovedStrict(p.code, m, i, i, |p.code|);
    var next := i + 1;
    forall j | 0 <= j < |p.code|
      ensures InstrExited(p, s, next, epilog, j)
    {
      ExpandedInstr(p, q, i, epilog, j);
    }
    forall c {:trigger s.eh[c]} | 0 <= c < |p.eh|
      ensures s.eh[c] == MovedClause(p.code, m, i + 1, p.eh[c])
    {
      assert q.eh[c] == MovedClause(p.code, m, i, p.eh[c]);
      MovedStep(p.code, m, i, p.eh[c].tryBegin);
      MovedStep(p.code, m, i, p.eh[c].tryEnd);
      MovedStep(p.code, m, i, p.eh[c].handlerBegin);
      MovedStep(p.code, m, i, p.eh[c].handlerEnd);
      MovedStep(p.code, m, i, p.eh[c].filter);
    }
  }

  lemma {:induction false} EpilogStays(q: Program, k: nat, epilog: seq<Instr>, at: nat)
    requires NoTargets(epilog) && at + |epilog| < k < |q.code| && q.code[at + 1..at + 1 + |epilog|] == epilog
    ensures Splice(WithOp(q, k, CEE_NOP), k + 1, epilog).code[at + 1..at + 1 + |epilog|] == epilog
  {
    hide Splice;
    var s := Splice(WithOp(q, k, CEE_NOP), k + 1, epilog);
    forall a | 0 <= a < |epilog|
      ensures s.code[at + 1 + a] == epilog[a]
    {
      assert q.code[at + 1 + a] == q.code[at + 1..at + 1 + |epilog|][a];
    }
  }

  lemma {:induction false} ExpandedInstr(p: Program, q: Program, i: nat, epilog: seq<Instr>, j: nat)
    requires InBounds(p) && i < |p.code| && ExitedUpTo(p, q, i, epilog) && p.code[i].op == CEE_RET
    requires j < |p.code| && Moved(p.code, |epilog|, i, i) < |q.code| && NoTargets(epilog)
    ensures InstrExited(p, Expanded(q, Moved(p.code, |epilog|, i, i), epilog), i + 1, epilog, j)
  {
    hide Moved, Splice, InstrExited;
    assert InstrExited(p, q, i, epilog, j);
    if j < i {
      ExpandedBehind(p, q, i, epilog, j);
    } else {
      ExpandedAhead(p, q, i, epilog, j);
    }
  }

  /** A node visited before: it and its epilog stay where they are. */
  lemma {:induction false} ExpandedBehind(p: Program, q: Program, i: nat, epilog: seq<Instr>, j: nat)
    requires InBounds(p) && j < i < |p.code| && InstrExited(p, q, i, epilog, j) && p.code[i].op == CEE_RET
    requires Moved(p.code, |epilog|, i, i) < |q.code| && NoTargets(epilog)
    ensures InstrExited(p, Expanded(q, Moved(p.code, |epilog|, i, i), epilog), i + 1, epilog, j)
  {
    hide Moved, Splice;
    var m := |epilog|;
    var k := Moved(p.code, m, i, i);
    MovedStep(p.code, m, i, j);
    MovedStep(p.code, m, i, p.code[j].target);
    MovedStrict(p.code, m, i, j, i);
    if p.code[j].op == CEE_RET {
      EpilogStays(q, k, epilog, Moved(p.code, m, i, j));
    }
  }

  /** The node expanded now, or one still to come. */
  lemma {:induction false} ExpandedAhead(p: Program, q: Program, i: nat, epilog: seq<Instr>, j: nat)
    requires InBounds(p) && i <= j < |p.code| && InstrExited(p, q, i, epilog, j) && p.code[i].op == CEE_RET
    requires Moved(p.code, |epilog|, i, i) < |q.code| && NoTargets(epilog)
    ensures InstrExited(p, Expanded(q, Moved(p.code, |epilog|, i, i), epilog), i + 1, epilog, j)
  {
    hide Moved, Splice;
    var m := |epilog|;
    var k := Moved(p.code, m, i, i);
    MovedStep(p.code, m, i, j);
    MovedStep(p.code, m, i, p.code[j].target);
    if i < j {
      MovedStrict(p.code, m, i, i, j);
    } else {
      assert Splice(WithOp(q, k, CEE_NOP), k + 1, epilog).code[k + 1..k + 1 + m] == epilog;
    }
  }

  lemma {:induction false} ExitLoopFrom(p: Program, q: Program, i: nat, hook: nat, arg: Option<nat>)
    requires InBounds(p) && i <= |p.code| && ExitedUpTo(p, q, i, Epilog(hook, arg))
    ensures Moved(p.code, |Epilog(hook, arg)|, i, i) <= |q.code|
    ensures ExitedUpTo(p, ExitLoop(q, Moved(p.code, |Epilog(hook, arg)|, i, i), hook, arg), |p.code|, Epilog(hook, arg))
    decreases |p.code| - i
  {
    hide ExitedUpTo, ExpandRet;
    var m := |Epilog(hook, arg)|;
    ExitedLength(p, q, i, Epilog(hook, arg));
    if i < |p.code| {
      ExitedStep(p, q, i, hook, arg);
      var next := if p.code[i].op == CEE_RET then ExpandRet(q, Moved(p.code, m, i, i), hook, arg) else q;
      ExitLoopFrom(p, next, i + 1, hook, arg);
    }
  }

  lemma {:induction false} ExitedLength(p: Program, q: Program, i: nat, epilog: seq<Instr>)
    requires InBounds(p) && i <= |p.code| && ExitedUpTo(p, q, i, epilog)
    ensures Moved(p.code, |epilog|, i, i) <= |q.code|
    ensures i == |p.code| ==> Moved(p.code, |epilog|, i, i) == |q.code|
  {
    if i < |p.code| {
      MovedStrict(p.code, |epilog|, i, i, |p.code|);
    }
  }

  /** The exit loop replaces every original RET by NOP and the epilog, and leaves all other nodes
      and all pointers on their node; the RETs it adds are not visited again. */
  lemma {:induction false} ExitLoopShape(p: Program, hook: nat, arg: Option<nat>)
    requires InBounds(p)
    ensures ExitedUpTo(p, ExitLoop(p, 0, hook, arg), |p.code|, Epilog(hook, arg))
  {
    var epilog := Epilog(hook, arg);
    assert ExitedUpTo(p, p, 0, epilog) by {
      forall j | 0 <= j < |p.code|
        ensures InstrExited(p, p, 0, epilog, j)
      {
      }
    }
    ExitLoopFrom(p, p, 0, hook, arg);
  }

  /** What the finished list holds in place of instruction j. */
  function Block(code: seq<Instr>, epilog: seq<Instr>, j: nat): seq<Instr>
    requires j < |code| && NONE <= code[j].target <= |code|
  {
    [MovedInstr(code, |epilog|, |code|, j)] + if code[j].op == CEE_RET then epilog else []
  }

  ghost function Blocks(p: Program, epilog: seq<Instr>, i: nat): seq<Instr>
    requires InBounds(p) && i <= |p.code|
  {
    if i == 0 then [] else Blocks(p, epilog, i - 1) + Block(p.code, epilog, i - 1)
  }

  lemma {:induction false} ExitedBlocks(p: Program, q: Program, epilog: seq<Instr>, i: nat)
    requires InBounds(p) && ExitedUpTo(p, q, |p.code|, epilog) && i <= |p.code|
    ensures Moved(p.code, |epilog|, |p.code|, i) <= |q.code|
    ensures q.code[..Moved(p.code, |epilog|, |p.code|, i)] == Blocks(p, epilog, i)
  {
    hide MovedInstr;
    var m, n := |epilog|, |p.code|;
    if i < n {
      MovedStrict(p.code, m, n, i, n);
    }
    if i > 0 {
      ExitedBlocks(p, q, epilog, i - 1);
      assert InstrExited(p, q, n, epilog, i - 1);
      var a, b := Moved(p.code, m, n, i - 1), Moved(p.code, m, n, i);
      assert q.code[a..b] == Block(p.code, epilog, i - 1);
      assert q.code[..b] == q.code[..a] + q.code[a..b];
    }
  }

  /** The exit loop on a list it is changing computes a flat map over the original list. */
  lemma {:induction false} ExitLoopIsFlatMap(p: Program, hook: nat, arg: Option<nat>)
    requires InBounds(p)
    ensures ExitLoop(p, 0, hook, arg).code == Blocks(p, Epilog(hook, arg), |p.code|)
  {
    var q := ExitLoop(p, 0, hook, arg);
    ExitLoopShape(p, hook, arg);
    ExitedBlocks(p, q, Epilog(hook, arg), |p.code|);
    assert q.code[..|q.code|] == q.code;
  }

  function RetCount(code: seq<Instr>): nat {
    if |code| == 0 then 0 else RetCount(code[..|code| - 1]) + if code[|code| - 1].op == CEE_RET then 1 else 0
  }

  lemma {:induction false} RetCountConcat(a: seq<Instr>, b: seq<Instr>)
    ensures RetCount(a + b) == RetCount(a) + RetCount(b)
  {
    if |b| == 0 {
      assert a + b == a;
    } else {
      RetCountConcat(a, b[..|b| - 1]);
      assert (a + b)[..|a + b| - 1] == a + b[..|b| - 1];
    }
  }

  lemma {:induction false} RetCountSingle(x: Instr)
    ensures RetCount([x]) == if x.op == CEE_RET then 1 else 0
  {
    assert RetCount([x][..0]) == 0;
  }

  lemma {:induction false} BlocksKeepRetCount(p: Program, hook: nat, arg: Option<nat>, i: nat)
    requires InBounds(p) && i <= |p.code|
    ensures RetCount(Blocks(p, Epilog(hook, arg), i)) == RetCount(p.code[..i])
  {
    hide Block, RetCount;
    if i == 0 {
      assert p.code[..0] == [] && Blocks(p, Epilog(hook, arg), 0) == [];
    } else {
      BlocksKeepRetCount(p, hook, arg, i - 1);
      RetCountConcat(Blocks(p, Epilog(hook, arg), i - 1), Block(p.code, Epilog(hook, arg), i - 1));
      BlockRetCount(p.code, hook, arg, i - 1);
      RetCountConcat(p.code[..i - 1], [p.code[i - 1]]);
      RetCountSingle(p.code[i - 1]);
      assert p.code[..i] == p.code[..i - 1] + [p.code[i - 1]];
    }
  }

  lemma {:induction false} BlockRetCount(code: seq<Instr>, hook: nat, arg: Option<nat>, j: nat)
    requires j < |code| && NONE <= code[j].target <= |code|
    ensures RetCount(Block(code, Epilog(hook, arg), j)) == if code[j].op == CEE_RET then 1 else 0
  {
    hide Moved;
    var head := MovedInstr(code, |Epilog(hook, arg)|, |code|, j);
    RetCountConcat([head], if code[j].op == CEE_RET then Epilog(hook, arg) else []);
    RetCountConcat(Probe(hook, arg), [RET]);
    assert RetCount([head]) == (if head.op == CEE_RET then 1 else 0) && RetCount([RET]) == 1;
    assert RetCount([]) == 0;
    if arg.Some? {
      RetCountConcat([LoadArg(arg.value)], [CallHook(hook)]);
      assert Probe(hook, arg) == [LoadArg(arg.value)] + [CallHook(hook)];
    }
  }

  /** No exit is added or lost. */
  lemma {:induction false} ExitLoopKeepsRetCount(p: Program, hook: nat, arg: Option<nat>)
    requires InBounds(p)
    ensures RetCount(ExitLoop(p, 0, hook, arg).code) == RetCount(p.code)
  {
    ExitLoopIsFlatMap(p, hook, arg);
    BlocksKeepRetCount(p, hook, arg, |p.code|);
    assert p.code[..|p.code|] == p.code;
  }
}
