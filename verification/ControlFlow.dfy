/** The abstract machine against the bytes: control goes where displacements, tables and clauses say. */
module ControlFlow {
  import opened Bytes
  import opened Opcodes
  import opened Listing
  import opened Layout
  import opened Encoding
  import opened Parsing
  import opened Probes
  import opened Regions
  import opened Integrity
  import opened Machine
  import opened EndToEnd

  // ---------- switch tables ----------

  /** Position j is an entry of the table of the switch at i. */
  predicate EntryOf(code: seq<Instr>, i: nat, j: nat) {
    i < j < |code| && code[i].op == 0x45 && j <= i + code[i].arg
  }

  /** How many entries are due, by the last switch at all. */
  lemma {:induction false} PendingInTable(t: OpcodeTable, code: seq<Instr>, i: nat, j: nat)
    requires t.Valid() && TablesIntact(t, code) && i < |code| && code[i].op == 0x45 && i < j <= i + 1 + code[i].arg
    ensures i + 1 + code[i].arg <= |code| && Pending(t, code, j) == i + 1 + code[i].arg - j
    ensures j <= i + code[i].arg ==> code[j].op == t.SwitchArg()
  {
    hide TablesIntact, Off;
    assert Pending(t, code, i + 1) == code[i].arg;
    TableFollows(t, code, i + 1);
  }

  /** An entry that is due belongs to a switch in front of it. */
  lemma {:induction false} DueHasSwitch(t: OpcodeTable, code: seq<Instr>, j: nat) returns (i: nat)
    requires t.Valid() && j <= |code| && Pending(t, code, j) > 0
    ensures i < j && code[i].op == 0x45 && i + 1 + code[i].arg - j == Pending(t, code, j)
  {
    if code[j - 1].op == 0x45 {
      i := j - 1;
    } else {
      i := DueHasSwitch(t, code, j - 1);
    }
  }

  /** In a well-formed list the announced number of entries follows each switch, within the list, and
      every entry belongs to such a table. */
  lemma {:induction false} TablesAreWhole(t: OpcodeTable, code: seq<Instr>)
    requires t.Valid() && TablesIntact(t, code)
    ensures forall i {:trigger code[i]} | 0 <= i < |code| && code[i].op == 0x45 :: i + code[i].arg < |code|
    ensures forall i, j {:trigger EntryOf(code, i, j)} | 0 <= i && 0 <= j && EntryOf(code, i, j) ::
              code[j].op == t.SwitchArg()
    ensures forall j {:trigger code[j]} | 0 <= j < |code| && code[j].op == t.SwitchArg() ::
              exists i {:trigger EntryOf(code, i, j)} :: 0 <= i && EntryOf(code, i, j)
  {
    forall i {:trigger code[i]} | 0 <= i < |code| && code[i].op == 0x45
      ensures i + code[i].arg < |code|
    {
      PendingInTable(t, code, i, i + 1);
    }
    forall i, j {:trigger EntryOf(code, i, j)} | 0 <= i && 0 <= j && EntryOf(code, i, j)
      ensures code[j].op == t.SwitchArg()
    {
      PendingInTable(t, code, i, j);
    }
    forall j {:trigger code[j]} | 0 <= j < |code| && code[j].op == t.SwitchArg()
      ensures exists i {:trigger EntryOf(code, i, j)} :: 0 <= i && EntryOf(code, i, j)
    {
      assert EntryDue(t, code, j);
      var i := DueHasSwitch(t, code, j);
      assert EntryOf(code, i, j);
    }
  }

  // ---------- one step ----------

  /** A program laid out for good. */
  ghost predicate LaidOut(t: OpcodeTable, p: Program)
    requires t.Valid()
  {
    ProgramOk(t, p) && Fits(t, p.code) && Off(t, p.code, |p.code|) < TWO_31
  }

  /** What the semantics says of the instruction at s. */
  ghost function EffectAt<V, M>(t: OpcodeTable, sem: Semantics<V, M>, p: Program, s: State<V, M>): Effect<V, M>
    requires s.pc < |p.code|
  {
    var x := p.code[s.pc];
    var action := match ConditionOf(x.op) case Some(c) => Branch(c) case None => Operation(x.op);
    sem.exec(action, x.arg, ViewOf(t, p, s.pc, s.pending), s.stack, s.mem)
  }

  /** The step goes on at the given byte offset, with the stack, memory and events of the effect. */
  ghost predicate GoesTo<V, M>(t: OpcodeTable, p: Program, e: Effect<V, M>, r: StepResult<V, M>, o: int)
    requires t.Valid()
  {
    && r.Continue? && r.state.pc <= |p.code| && Off(t, p.code, r.state.pc) == o
    && r.state.stack == e.stack && r.state.mem == e.mem && r.events == e.events
  }

  lemma {:induction false} OffBehind(t: OpcodeTable, code: seq<Instr>, i: nat)
    requires t.Valid() && i < |code|
    ensures Off(t, code, i + 1) == Off(t, code, i) + |EncodeInstr(t, code, i)|
  {
    hide EncodeInstr;
  }

  /** Falling through goes to the end of the instruction's bytes, of a switch to the end of its table. */
  lemma {:induction false} FallFollowsBytes<V, M>(t: OpcodeTable, sem: Semantics<V, M>, p: Program, s: State<V, M>)
    requires t.Valid() && LaidOut(t, p) && s.pc < |p.code|
    requires p.code[s.pc].op != 0x2A && p.code[s.pc].op != t.SwitchArg() && EffectAt(t, sem, p, s).go == Fall
    ensures var x, o, e, r := p.code[s.pc], Off(t, p.code, s.pc), EffectAt(t, sem, p, s), Step(t, sem, p, s);
            && GoesTo(t, p, e, r, if x.op == 0x45 then o + 5 + 4 * x.arg else o + |EncodeInstr(t, p.code, s.pc)|)
            && r.state.pending == s.pending
  {
    hide Off, EncodeInstr, TablesIntact, Fits;
    OffBehind(t, p.code, s.pc);
    if p.code[s.pc].op == 0x45 {
      PendingInTable(t, p.code, s.pc, s.pc + 1);
      EntryOffset(t, p.code, s.pc, p.code[s.pc].arg);
    }
  }

  lemma {:induction false} SwitchSize(t: OpcodeTable, code: seq<Instr>, i: nat)
    requires t.Valid() && i < |code| && code[i].op == 0x45
    ensures Off(t, code, i + 1) == Off(t, code, i) + 5
  {
    assert t.flags[0x45].SwitchTable?;
  }

  /** Where entry k of a table starts, and for k its size, where the table ends. */
  lemma {:induction false} EntryOffset(t: OpcodeTable, code: seq<Instr>, i: nat, k: nat)
    requires t.Valid() && TablesIntact(t, code) && i < |code| && code[i].op == 0x45 && k <= code[i].arg
    ensures i + 1 + k <= |code| && Off(t, code, i + 1 + k) == Off(t, code, i) + 5 + 4 * k
  {
    hide TablesIntact;
    PendingInTable(t, code, i, i + 1);
    if k == 0 {
      SwitchSize(t, code, i);
    } else {
      EntryOffset(t, code, i, k - 1);
      PendingInTable(t, code, i, i + k);
    }
  }

  /** A jump goes to the end of the instruction's bytes plus the displacement in them. */
  lemma {:induction false} JumpFollowsBytes<V, M>(t: OpcodeTable, sem: Semantics<V, M>, p: Program, s: State<V, M>)
    requires t.Valid() && LaidOut(t, p) && s.pc < |p.code|
    requires ConditionOf(p.code[s.pc].op).Some? && EffectAt(t, sem, p, s).go == Jump
    ensures t.IsBranch(p.code[s.pc].op)
    ensures var o, e, r := Off(t, p.code, s.pc), EffectAt(t, sem, p, s), Step(t, sem, p, s);
            && GoesTo(t, p, e, r, o + |EncodeInstr(t, p.code, s.pc)| + Displacement(t, p.code, s.pc))
            && r.state.pending == s.pending
  {
    hide Off, EncodeInstr, TablesIntact, Displacement, Fits;
    var code, i := p.code, s.pc;
    OffBehind(t, code, i);
    KindsByNumber(t, code[i].op);
    assert WellTyped(t, code, i);
    OkIsNoEmpty(t, code);
    DisplacementsAreRight(t, code, i);
    OffMonotone(t, code, i + 1, |code|);
    OffMonotone(t, code, code[i].target, |code|);
  }

  /** Case k of a switch goes to the end of the table plus the displacement in entry k. */
  lemma {:induction false} CaseFollowsBytes<V, M>(
      t: OpcodeTable, sem: Semantics<V, M>, p: Program, s: State<V, M>, k: nat)
    requires t.Valid() && LaidOut(t, p) && s.pc < |p.code|
    requires p.code[s.pc].op == 0x45 && k < p.code[s.pc].arg && EffectAt(t, sem, p, s).go == Case(k)
    ensures s.pc + 1 + k < |p.code| && t.IsBranch(p.code[s.pc + 1 + k].op)
    ensures var x, o, e, r := p.code[s.pc], Off(t, p.code, s.pc), EffectAt(t, sem, p, s), Step(t, sem, p, s);
            && Off(t, p.code, s.pc + 1 + k) == o + 5 + 4 * k
            && GoesTo(t, p, e, r, o + 5 + 4 * x.arg + Displacement(t, p.code, s.pc + 1 + k))
            && r.state.pending == s.pending
  {
    hide Off, EncodeInstr, TablesIntact, Displacement, Fits, Pending;
    var code, i := p.code, s.pc;
    var j := i + 1 + k;
    PendingInTable(t, code, i, j);
    EntryOffset(t, code, i, k);
    EntryOffset(t, code, i, code[i].arg);
    assert WellTyped(t, code, j);
    OkIsNoEmpty(t, code);
    DisplacementsAreRight(t, code, j);
    OffMonotone(t, code, i + 1 + code[i].arg, |code|);
    OffMonotone(t, code, code[j].target, |code|);
  }

  /** An exception goes to the handler or filter offset of its clause. */
  lemma {:induction false} HandlerFollowsBytes<V, M>(
      t: OpcodeTable, sem: Semantics<V, M>, p: Program, s: State<V, M>, c: nat)
    requires t.Valid() && LaidOut(t, p) && s.pc < |p.code|
    requires p.code[s.pc].op != 0x2A && p.code[s.pc].op != t.SwitchArg() && c < |p.eh|
    ensures var e, r, f := EffectAt(t, sem, p, s), Step(t, sem, p, s), ExportClause(t, p.code, p.eh[c]);
            && (e.go == ToHandler(c) ==> GoesTo(t, p, e, r, f.handlerOffset))
            && (e.go == ToFilter(c) && f.flags % 2 == 1 ==> GoesTo(t, p, e, r, f.tokenOrFilter))
  {
    hide Off, WellFormed, Fits;
    ProgramClause(t, p, c);
  }

  /** A leave that enters a handler notes where it was heading, and resuming goes there. */
  lemma {:induction false} ResumeFollowsLeave<V, M>(
      t: OpcodeTable, sem: Semantics<V, M>, p: Program, s: State<V, M>, c: nat, later: State<V, M>)
    requires t.Valid() && LaidOut(t, p) && s.pc < |p.code| && c < |p.eh|
    requires p.code[s.pc].op in {0xDD, 0xDE} && EffectAt(t, sem, p, s).go == ToHandler(c)
    requires Step(t, sem, p, s).Continue? && later.pc < |p.code| && later.pending == Step(t, sem, p, s).state.pending
    requires p.code[later.pc].op != 0x2A && p.code[later.pc].op != t.SwitchArg()
    requires EffectAt(t, sem, p, later).go == Resume
    ensures t.IsBranch(p.code[s.pc].op)
    ensures var e, r := EffectAt(t, sem, p, later), Step(t, sem, p, later);
            && GoesTo(t, p, e, r, Off(t, p.code, s.pc) + |EncodeInstr(t, p.code, s.pc)| + Displacement(t, p.code, s.pc))
            && r.state.pending == s.pending
  {
    hide Off, EncodeInstr, TablesIntact, Displacement, Fits;
    var code, i := p.code, s.pc;
    OffBehind(t, code, i);
    KindsByNumber(t, code[i].op);
    assert WellTyped(t, code, i);
    OkIsNoEmpty(t, code);
    DisplacementsAreRight(t, code, i);
    OffMonotone(t, code, i + 1, |code|);
    OffMonotone(t, code, code[i].target, |code|);
  }

  /** The cover of byte offset o: for each clause, its flags and token and whether its ranges hold o. */
  ghost predicate CoversOffset(t: OpcodeTable, p: Program, cover: Cover, o: int)
    requires t.Valid()
  {
    && |cover| == |p.eh|
    && forall c {:trigger cover[c]} | 0 <= c < |cover| ::
         var f := ExportClause(t, p.code, p.eh[c]);
         && cover[c].flags == f.flags && cover[c].token == (if f.flags % 2 == 1 then 0 else f.tokenOrFilter)
         && (cover[c].inTry <==> f.tryOffset <= o < f.tryOffset + f.tryLength)
         && (cover[c].inHandler <==> f.handlerOffset <= o < f.handlerOffset + f.handlerLength)
  }

  lemma {:induction false} CoverFollowsBytes(t: OpcodeTable, p: Program, i: nat)
    requires t.Valid() && LaidOut(t, p) && i <= |p.code|
    ensures CoversOffset(t, p, CoverOf(p.eh, i), Off(t, p.code, i))
  {
    hide Off, WellFormed, Fits, ExportClause;
    OkIsNoEmpty(t, p.code);
    var cover := CoverOf(p.eh, i);
    forall c {:trigger cover[c]} | 0 <= c < |cover|
      ensures var f, o := ExportClause(t, p.code, p.eh[c]), Off(t, p.code, i);
              && cover[c].flags == f.flags && cover[c].token == (if f.flags % 2 == 1 then 0 else f.tokenOrFilter)
              && (cover[c].inTry <==> f.tryOffset <= o < f.tryOffset + f.tryLength)
              && (cover[c].inHandler <==> f.handlerOffset <= o < f.handlerOffset + f.handlerLength)
    {
      ProgramClause(t, p, c);
      ExportedRanges(t, p.code, p.eh[c], i);
      ExportedToken(t, p.code, p.eh[c]);
    }
  }

  lemma {:induction false} ExportedToken(t: OpcodeTable, code: seq<Instr>, c: Clause)
    requires t.Valid() && ClauseTyped(t, code, c)
    ensures ExportClause(t, code, c).flags == c.flags
    ensures c.token == if c.flags % 2 == 1 then 0 else ExportClause(t, code, c).tokenOrFilter
  {
  }

  /** What an instruction sees of the method: the ranges that hold its own offset, the offset its jump
      goes to, and the offset the innermost unfinished leave is heading for. */
  lemma {:induction false} ViewFollowsBytes(t: OpcodeTable, p: Program, i: nat, pending: seq<nat>)
    requires t.Valid() && LaidOut(t, p) && i < |p.code| && p.code[i].op != t.SwitchArg()
    requires forall j {:trigger pending[j]} | 0 <= j < |pending| :: pending[j] <= |p.code|
    ensures var view, code := ViewOf(t, p, i, pending), p.code;
            && CoversOffset(t, p, view.here, Off(t, code, i))
            && (view.target.Some? <==> ConditionOf(code[i].op).Some?)
            && (view.target.Some? ==>
                  && t.IsBranch(code[i].op)
                  && CoversOffset(t, p, view.target.value,
                                  Off(t, code, i) + |EncodeInstr(t, code, i)| + Displacement(t, code, i)))
            && (view.resume.Some? <==> |pending| > 0)
            && (|pending| > 0 ==> CoversOffset(t, p, view.resume.value, Off(t, code, pending[|pending| - 1])))
  {
    hide Off, EncodeInstr, TablesIntact, Displacement, Fits, CoverOf, CoversOffset;
    var code := p.code;
    CoverFollowsBytes(t, p, i);
    OffBehind(t, code, i);
    KindsByNumber(t, code[i].op);
    assert WellTyped(t, code, i);
    if t.IsBranch(code[i].op) {
      OkIsNoEmpty(t, code);
      CoverFollowsBytes(t, p, code[i].target);
      DisplacementsAreRight(t, code, i);
      OffMonotone(t, code, i + 1, |code|);
      OffMonotone(t, code, code[i].target, |code|);
    }
    if |pending| > 0 {
      CoverFollowsBytes(t, p, pending[|pending| - 1]);
    }
  }

  /** A RET returns what it finds; an escape, and control running into a table or off the end, stops. */
  lemma {:induction false} EndsOfRuns<V, M>(t: OpcodeTable, sem: Semantics<V, M>, p: Program, s: State<V, M>)
    requires t.Valid()
    ensures s.pc < |p.code| && p.code[s.pc].op == 0x2A ==> Step(t, sem, p, s) == Return(s.stack, s.mem)
    ensures s.pc >= |p.code| || p.code[s.pc].op == t.SwitchArg() ==> Step(t, sem, p, s) == Stop
    ensures s.pc < |p.code| && p.code[s.pc].op != 0x2A && EffectAt(t, sem, p, s).go == Escape ==>
              Step(t, sem, p, s) == Stop
  {
  }
}
