/** Every edit the rewriter makes keeps lists well formed. */
module Integrity {
  import opened Bytes
  import opened Opcodes
  import opened Listing
  import opened Layout
  import opened Encoding
  import opened Parsing
  import opened Probes
  import opened Regions

  ghost predicate ProgramOk(t: OpcodeTable, p: Program) {
    && WellFormed(t, p.code)
    && forall c {:trigger p.eh[c]} | 0 <= c < |p.eh| :: ClauseTyped(t, p.code, p.eh[c])
  }

  lemma {:induction false} ProgramClause(t: OpcodeTable, p: Program, c: nat)
    requires ProgramOk(t, p) && c < |p.eh|
    ensures ClauseTyped(t, p.code, p.eh[c]) && p.eh[c].WellFormed(|p.code|)
  {
  }

  /** An instruction without jump operand whose operand fits: all the probes are made of. */
  ghost predicate Simple(t: OpcodeTable, x: Instr) {
    && t.Decodable(x.op) && t.FlagsOf(x.op).Plain? && x.op != CEE_SWITCH && x.op != t.SwitchArg()
    && x.arg < Pow256(t.FlagsOf(x.op).size) && x.target == NONE
  }

  ghost predicate AllSimple(t: OpcodeTable, xs: seq<Instr>) {
    forall i {:trigger xs[i]} | 0 <= i < |xs| :: Simple(t, xs[i])
  }

  lemma {:induction false} ProgramInBounds(t: OpcodeTable, p: Program)
    requires ProgramOk(t, p)
    ensures InBounds(p)
  {
    hide TablesIntact;
    forall j {:trigger p.code[j]} | 0 <= j < |p.code|
      ensures NONE <= p.code[j].target <= |p.code|
    {
      assert WellTyped(t, p.code, j);
    }
  }

  lemma {:induction false} PendingSpliced(t: OpcodeTable, p: Program, k: nat, xs: seq<Instr>, i: nat)
    requires k <= |p.code| && AllSimple(t, xs) && Pending(t, p.code, k) == 0 && i <= |p.code| + |xs|
    ensures Pending(t, Splice(p, k, xs).code, i) ==
            if i <= k then Pending(t, p.code, i) else if i < k + |xs| then 0 else Pending(t, p.code, i - |xs|)
  {
    hide Splice;
    if i > 0 {
      PendingSpliced(t, p, k, xs, i - 1);
      var q := Splice(p, k, xs).code;
      if k < i <= k + |xs| {
        assert q[i - 1] == xs[i - 1 - k];
        assert Simple(t, xs[i - 1 - k]);
      }
    }
  }

  lemma {:induction false} TablesSpliced(t: OpcodeTable, p: Program, k: nat, xs: seq<Instr>)
    requires k <= |p.code| && AllSimple(t, xs) && TablesIntact(t, p.code) && Pending(t, p.code, k) == 0
    ensures TablesIntact(t, Splice(p, k, xs).code)
  {
    hide Splice, Pending;
    var q := Splice(p, k, xs).code;
    forall i | 0 <= i < |q|
      ensures EntryDue(t, q, i)
    {
      PendingSpliced(t, p, k, xs, i);
      if i < k {
        assert EntryDue(t, p.code, i);
      } else if i >= k + |xs| {
        assert EntryDue(t, p.code, i - |xs|);
      } else {
        assert Simple(t, xs[i - k]);
      }
    }
    PendingSpliced(t, p, k, xs, |q|);
  }

  /** A pointer that could start an instruction still can after a splice. */
  lemma {:induction false} StartableSpliced(t: OpcodeTable, p: Program, k: nat, xs: seq<Instr>, pos: nat)
    requires k <= |p.code| && AllSimple(t, xs) && Startable(t, p.code, pos)
    ensures Startable(t, Splice(p, k, xs).code, Shift(pos, k, |xs|))
  {
    hide Splice;
  }

  lemma {:induction false} InstrSpliced(t: OpcodeTable, p: Program, k: nat, xs: seq<Instr>, i: nat)
    requires k <= |p.code| && AllSimple(t, xs) && WellFormed(t, p.code) && i < |p.code| + |xs|
    ensures WellTyped(t, Splice(p, k, xs).code, i)
  {
    hide Splice, TablesIntact, Pow256;
    var q := Splice(p, k, xs).code;
    if k <= i < k + |xs| {
      assert q[i] == xs[i - k];
      assert Simple(t, xs[i - k]);
    } else {
      var j := if i < k then i else i - |xs|;
      assert WellTyped(t, p.code, j);
      assert q[i] == ShiftInstr(p.code[j], k, |xs|);
      if t.IsBranch(p.code[j].op) {
        StartableSpliced(t, p, k, xs, p.code[j].target);
      }
    }
  }

  lemma {:induction false} ClauseSpliced(t: OpcodeTable, p: Program, k: nat, xs: seq<Instr>, c: Clause)
    requires k <= |p.code| && AllSimple(t, xs) && ClauseTyped(t, p.code, c)
    ensures ClauseTyped(t, Splice(p, k, xs).code, ShiftClause(c, k, |xs|))
  {
    hide Splice;
    StartableSpliced(t, p, k, xs, c.tryBegin);
    StartableSpliced(t, p, k, xs, c.tryEnd);
    StartableSpliced(t, p, k, xs, c.handlerBegin);
    StartableSpliced(t, p, k, xs, c.handlerEnd + 1);
    if c.HasFilter() {
      StartableSpliced(t, p, k, xs, c.filter);
    }
    if c.handlerEnd + 1 == k && |xs| > 0 {
      assert Simple(t, xs[0]);
    }
  }

  /** Splicing simple instructions anywhere but inside a switch table keeps the program well formed. */
  lemma {:induction false} SpliceKeepsOk(t: OpcodeTable, p: Program, k: nat, xs: seq<Instr>)
    requires ProgramOk(t, p) && k <= |p.code| && AllSimple(t, xs) && Pending(t, p.code, k) == 0
    ensures ProgramOk(t, Splice(p, k, xs))
  {
    hide Splice, Pending, ClauseTyped, WellTyped, TablesIntact, AllSimple, ShiftClause;
    var q := Splice(p, k, xs);
    TablesSpliced(t, p, k, xs);
    forall i | 0 <= i < |q.code|
      ensures WellTyped(t, q.code, i)
    {
      InstrSpliced(t, p, k, xs, i);
    }
    forall c {:trigger q.eh[c]} | 0 <= c < |q.eh|
      ensures ClauseTyped(t, q.code, q.eh[c])
    {
      ClauseSpliced(t, p, k, xs, p.eh[c]);
    }
  }

  /** Turning a RET into a NOP keeps the program well formed. */
  lemma {:induction false} NopKeepsOk(t: OpcodeTable, p: Program, k: nat)
    requires t.Valid() && ProgramOk(t, p) && k < |p.code| && p.code[k].op == CEE_RET
    ensures ProgramOk(t, WithOp(p, k, CEE_NOP))
    ensures Pending(t, WithOp(p, k, CEE_NOP).code, k + 1) == 0
  {
    var q := WithOp(p, k, CEE_NOP);
    assert WellTyped(t, p.code, k);
    forall i | 0 <= i < |q.code|
      ensures WellTyped(t, q.code, i)
    {
      assert WellTyped(t, p.code, i);
    }
    NopKeepsTables(t, p.code, k);
  }

  lemma {:induction false} NopKeepsTables(t: OpcodeTable, code: seq<Instr>, k: nat)
    requires t.Valid() && TablesIntact(t, code) && k < |code| && code[k].op == CEE_RET
    ensures TablesIntact(t, code[k := code[k].(op := CEE_NOP)])
  {
    var q := code[k := code[k].(op := CEE_NOP)];
    forall i | 0 <= i <= |q|
      ensures Pending(t, q, i) == Pending(t, code, i)
    {
      PendingWithoutRet(t, code, k, i);
    }
    forall i | 0 <= i < |q|
      ensures EntryDue(t, q, i)
    {
      assert EntryDue(t, code, i);
    }
  }

  lemma {:induction false} PendingWithoutRet(t: OpcodeTable, code: seq<Instr>, k: nat, i: nat)
    requires t.Valid() && k < |code| && code[k].op == CEE_RET && i <= |code|
    ensures Pending(t, code[k := code[k].(op := CEE_NOP)], i) == Pending(t, code, i)
  {
    if i > 0 {
      PendingWithoutRet(t, code, k, i - 1);
    }
  }

  /** Hook tokens and the argument are 32-bit operands. */
  ghost predicate HookOk(hook: nat, arg: Option<nat>) {
    hook < TWO_32 && (arg.Some? ==> arg.value < TWO_32)
  }

  lemma {:induction false} ProbeIsSimple(t: OpcodeTable, hook: nat, arg: Option<nat>)
    requires t.Valid() && HookOk(hook, arg)
    ensures AllSimple(t, Probe(hook, arg)) && AllSimple(t, Epilog(hook, arg))
  {
    Pow256Values();
  }

  lemma {:induction false} EnterKeepsOk(t: OpcodeTable, p: Program, hook: nat, arg: Option<nat>)
    requires t.Valid() && ProgramOk(t, p) && HookOk(hook, arg)
    ensures ProgramOk(t, AddEnter(p, hook, arg))
  {
    ProbeIsSimple(t, hook, arg);
    InsertProbeIsSplice(p, 0, hook, arg);
    SpliceKeepsOk(t, p, 0, Probe(hook, arg));
  }

  lemma {:induction false} ExitLoopKeepsOk(t: OpcodeTable, p: Program, k: nat, hook: nat, arg: Option<nat>)
    requires t.Valid() && ProgramOk(t, p) && HookOk(hook, arg) && k <= |p.code|
    ensures ProgramOk(t, ExitLoop(p, k, hook, arg))
    decreases |p.code| - k
  {
    hide ProgramOk, ExpandRet, AllSimple, Epilog, Splice;
    if k < |p.code| {
      if p.code[k].op == CEE_RET {
        NopKeepsOk(t, p, k);
        ProbeIsSimple(t, hook, arg);
        ExpandRetIsSplice(p, k, hook, arg);
        SpliceKeepsOk(t, WithOp(p, k, CEE_NOP), k + 1, Epilog(hook, arg));
        ExitLoopKeepsOk(t, ExpandRet(p, k, hook, arg), k + 1 + |Epilog(hook, arg)|, hook, arg);
      } else {
        ExitLoopKeepsOk(t, p, k + 1, hook, arg);
      }
    }
  }

  /** A RET is found behind the enter probe exactly when there was one before. */
  lemma {:induction false} EnterKeepsRets(p: Program, hook: nat, arg: Option<nat>)
    ensures HasRet(AddEnter(p, hook, arg).code) <==> HasRet(p.code)
  {
    hide Splice;
    var q := AddEnter(p, hook, arg);
    InsertProbeIsSplice(p, 0, hook, arg);
    if i :| 0 <= i < |p.code| && p.code[i].op == CEE_RET {
      assert q.code[i + |Probe(hook, arg)|].op == CEE_RET;
    }
  }

  ghost predicate HooksOk(h: Hooks) {
    HookOk(h.enter, h.arg) && HookOk(h.exit, h.arg)
  }

  /** Injection fails exactly for a method without RET that asks for an exit probe; otherwise the
      result is well formed. */
  lemma {:induction false} ProbesKeepOk(t: OpcodeTable, p: Program, h: Hooks)
    requires t.Valid() && ProgramOk(t, p) && HooksOk(h)
    ensures AddProbes(p, h).Some? <==> h.exit == TOKEN_NIL || HasRet(p.code)
    ensures AddProbes(p, h).Some? ==> ProgramOk(t, AddProbes(p, h).value)
  {
    hide ProgramOk, HasRet, AddEnter, ExitLoop;
    var entered := Entered(p, h);
    if h.enter != TOKEN_NIL {
      EnterKeepsOk(t, p, h.enter, h.arg);
      EnterKeepsRets(p, h.enter, h.arg);
    }
    if AddProbes(p, h).Some? && h.exit != TOKEN_NIL {
      ExitLoopKeepsOk(t, entered, 0, h.exit, h.arg);
    }
  }

  /** Widening branches keeps a program well formed. */
  lemma {:induction false} WideningKeepsOk(t: OpcodeTable, p: Program, wide: seq<Instr>)
    requires t.Valid() && ProgramOk(t, p) && Widening(p.code, wide)
    ensures ProgramOk(t, p.(code := wide))
  {
    hide TablesIntact;
    forall i {:trigger wide[i]} | 0 <= i < |wide|
      ensures wide[i].op == t.SwitchArg() <==> p.code[i].op == t.SwitchArg()
    {
      WidenedOp(t, p.code, wide, i);
    }
    forall i | 0 <= i < |wide|
      ensures WellTyped(t, wide, i)
    {
      WidenedInstr(t, p.code, wide, i);
    }
    WideningKeepsTables(t, p.code, wide);
  }

  lemma {:induction false} WidenedOp(t: OpcodeTable, a: seq<Instr>, b: seq<Instr>, i: nat)
    requires t.Valid() && Widening(a, b) && i < |a|
    ensures b[i].op == t.SwitchArg() <==> a[i].op == t.SwitchArg()
    ensures b[i].op == CEE_SWITCH <==> a[i].op == CEE_SWITCH
    ensures b[i].arg == a[i].arg
    ensures ActionOf(b[i].op) == ActionOf(a[i].op)
    ensures b[i].op == CEE_RET <==> a[i].op == CEE_RET
  {
    if b[i] != a[i] {
      WidenKeepsCondition(t, a[i].op);
    }
  }

  lemma {:induction false} WidenedInstr(t: OpcodeTable, a: seq<Instr>, b: seq<Instr>, i: nat)
    requires t.Valid() && Widening(a, b) && WellFormed(t, a) && i < |a|
    ensures WellTyped(t, b, i)
  {
    hide TablesIntact, Pow256;
    assert WellTyped(t, a, i);
    if t.IsBranch(a[i].op) && a[i].target < |a| {
      WidenedOp(t, a, b, a[i].target);
    }
    if b[i] != a[i] {
      WidenKeepsCondition(t, a[i].op);
      WidenedOp(t, a, b, i);
    }
  }

  lemma {:induction false} WideningKeepsTables(t: OpcodeTable, a: seq<Instr>, b: seq<Instr>)
    requires t.Valid() && Widening(a, b) && TablesIntact(t, a)
    ensures TablesIntact(t, b)
  {
    forall i | 0 <= i <= |b|
      ensures Pending(t, b, i) == Pending(t, a, i)
    {
      WideningKeepsPending(t, a, b, i);
    }
    forall i | 0 <= i < |b|
      ensures EntryDue(t, b, i)
    {
      assert EntryDue(t, a, i);
      WidenedOp(t, a, b, i);
    }
  }

  lemma {:induction false} WideningKeepsPending(t: OpcodeTable, a: seq<Instr>, b: seq<Instr>, i: nat)
    requires t.Valid() && Widening(a, b) && i <= |a|
    ensures Pending(t, b, i) == Pending(t, a, i)
  {
    if i > 0 {
      WideningKeepsPending(t, a, b, i - 1);
      WidenedOp(t, a, b, i - 1);
    }
  }
}
