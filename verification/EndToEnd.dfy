/** The whole transformation, from method body to method body. */
module EndToEnd {
  import opened Bytes
  import opened Opcodes
  import opened Listing
  import opened Layout
  import opened Encoding
  import opened Parsing
  import opened RoundTrip
  import opened Probes
  import opened Regions
  import opened Integrity
  import opened Machine
  import opened Preservation

  /** The code bytes and the exception table of a method. */
  datatype Body = Body(il: seq<Byte>, eh: seq<FatClause>)

  /** Every handler ends in front of a node or of the end of the code. */
  ghost predicate HandlersEnd(t: OpcodeTable, code: seq<Instr>, eh: seq<FatClause>)
    requires t.Valid()
  {
    forall c {:trigger eh[c]} | 0 <= c < |eh| :: HandlerEnds(t, code, eh[c])
  }

  ghost function ImportClauses(t: OpcodeTable, code: seq<Instr>, eh: seq<FatClause>): seq<Clause>
    requires t.Valid() && HandlersEnd(t, code, eh)
  {
    seq(|eh|, c requires 0 <= c < |eh| => ImportClause(t, code, eh[c]))
  }

  /** What the importer builds of a body, null pointers and all; None when it rejects the body or
      looks behind a null handler end. */
  ghost function Imported(t: OpcodeTable, b: Body): Option<Program>
    requires t.Valid()
  {
    match Parse(t, b.il)
    case None => None
    case Some(code) => if HandlersEnd(t, code, b.eh) then Some(Program(code, ImportClauses(t, code, b.eh))) else None
  }

  /** No jump and no clause has a null pointer. */
  ghost predicate PointersSet(t: OpcodeTable, p: Program) {
    && Resolved(t, p.code)
    && forall c {:trigger p.eh[c]} | 0 <= c < |p.eh| :: p.eh[c].Set()
  }

  /** The program a body denotes; None when the importer rejects it or a pointer comes out null. */
  ghost function ReadBody(t: OpcodeTable, b: Body): Option<Program>
    requires t.Valid()
  {
    var p := Imported(t, b);
    if p.Some? && PointersSet(t, p.value) then p else None
  }

  /** A body denotes a program exactly when its code parses and every jump and every clause offset
      lands on an instruction start or the end of the code. */
  lemma {:induction false} ReadableIffAllLand(t: OpcodeTable, b: Body)
    requires t.Valid()
    ensures ReadBody(t, b).Some? <==>
            && Parse(t, b.il).Some? && AllLand(t, ReadFrom(t, b.il, 0).value)
            && forall c {:trigger b.eh[c]} | 0 <= c < |b.eh| :: ClauseResolved(t, Parse(t, b.il).value, b.eh[c])
  {
    hide Parse, ReadFrom, AllLand, Lookup, ClauseResolved, ImportClause, HandlerEnds;
    ParsedIsRead(t, b.il);
    if Parse(t, b.il).Some? {
      var code := Parse(t, b.il).value;
      ResolvedIffTargetsLand(t, b.il);
      forall c {:trigger b.eh[c]} | 0 <= c < |b.eh|
        ensures ClauseResolved(t, code, b.eh[c]) <==>
                HandlerEnds(t, code, b.eh[c]) && ImportClause(t, code, b.eh[c]).Set()
      {
        SetIffResolved(t, code, b.eh[c]);
      }
      if HandlersEnd(t, code, b.eh) {
        var p := Imported(t, b).value;
        assert forall c {:trigger p.eh[c]} {:trigger b.eh[c]} | 0 <= c < |p.eh| ::
               p.eh[c] == ImportClause(t, code, b.eh[c]);
      }
    }
  }

  lemma {:induction false} ParsedIsRead(t: OpcodeTable, il: seq<Byte>)
    requires t.Valid()
    ensures Parse(t, il).Some? ==> ReadFrom(t, il, 0).Some?
  {
  }

  function ExportClauses(t: OpcodeTable, p: Program): seq<FatClause>
    requires t.Valid()
  {
    seq(|p.eh|, c requires 0 <= c < |p.eh| => ExportClause(t, p.code, p.eh[c]))
  }

  /** The body written for a program whose branches need no more widening. */
  function WriteBody(t: OpcodeTable, p: Program): Body
    requires t.Valid()
  {
    Body(Encode(t, p.code, |p.code|), ExportClauses(t, p))
  }

  /** What the export makes of a program. */
  function Relaxed(t: OpcodeTable, p: Program): Program
    requires t.Valid()
  {
    p.(code := Relax(t, p.code))
  }

  /** The program the rewriter installs in place of a body; None when it leaves the body alone. */
  ghost function Instrumented(t: OpcodeTable, b: Body, h: Hooks): Option<Program>
    requires t.Valid()
  {
    match ReadBody(t, b)
    case None => None
    case Some(p) =>
      match AddProbes(p, h)
      case None => None
      case Some(q) => Some(Relaxed(t, q))
  }

  /** There is something to install exactly for a readable body that has a RET or wants no exit hook. */
  lemma {:induction false} InstrumentedExactly(t: OpcodeTable, b: Body, h: Hooks)
    requires t.Valid()
    ensures Instrumented(t, b, h).Some? <==>
            && ReadBody(t, b).Some?
            && var code := ReadBody(t, b).value.code;
               h.exit == 0 || exists i :: 0 <= i < |code| && code[i].op == 0x2A
  {
    hide ReadBody, AddEnter, ExitLoop;
    if ReadBody(t, b).Some? && h.enter != TOKEN_NIL {
      EnterKeepsRets(ReadBody(t, b).value, h.enter, h.arg);
    }
  }

  lemma {:induction false} OkIsNoEmpty(t: OpcodeTable, code: seq<Instr>)
    requires t.Valid() && WellFormed(t, code)
    ensures NoEmpty(t, code) && Resolved(t, code)
  {
    hide TablesIntact;
    forall k {:trigger code[k]} | 0 <= k < |code|
      ensures code[k].op != t.Count()
      ensures t.IsBranch(code[k].op) ==> 0 <= code[k].target <= |code|
    {
      assert WellTyped(t, code, k);
    }
  }

  /** A well-formed program has no null pointer. */
  lemma {:induction false} OkIsSet(t: OpcodeTable, p: Program)
    requires t.Valid() && ProgramOk(t, p)
    ensures PointersSet(t, p)
  {
    hide WellFormed;
    OkIsNoEmpty(t, p.code);
    forall c {:trigger p.eh[c]} | 0 <= c < |p.eh|
      ensures p.eh[c].Set()
    {
      assert ClauseTyped(t, p.code, p.eh[c]);
    }
  }

  /** Reading a written body gives the program back: code, switch tables and exception regions. */
  lemma {:induction false} BodyParseUndoesPrint(t: OpcodeTable, p: Program)
    requires t.Valid() && ProgramOk(t, p) && Fits(t, p.code) && Off(t, p.code, |p.code|) < CODE_LIMIT
    ensures ReadBody(t, WriteBody(t, p)) == Some(p)
  {
    hide Parse, Encode, Off, WellFormed, NoEmpty, ClauseTyped, HandlerEnds, ImportClause, ExportClause, Fits,
      PointersSet;
    var b := WriteBody(t, p);
    assert Printable(t, p.code);
    ParseUndoesPrint(t, p.code);
    OkIsNoEmpty(t, p.code);
    OkIsSet(t, p);
    forall c {:trigger b.eh[c]} | 0 <= c < |b.eh|
      ensures HandlerEnds(t, p.code, b.eh[c]) && ImportClause(t, p.code, b.eh[c]) == p.eh[c]
    {
      assert ClauseTyped(t, p.code, p.eh[c]);
      ClauseParseUndoesPrint(t, p.code, p.eh[c]);
    }
    assert ImportClauses(t, p.code, b.eh) == p.eh;
  }

  /** Exporting an unedited import gives the body back, byte for byte and clause for clause. */
  lemma {:induction false} BodyPrintUndoesParse(t: OpcodeTable, b: Body)
    requires t.Valid() && |b.il| < CODE_LIMIT && ReadBody(t, b).Some?
    requires forall c {:trigger b.eh[c]} | 0 <= c < |b.eh| ::
             b.eh[c].tryLength < TWO_32 && b.eh[c].handlerLength < TWO_32
    ensures var p := ReadBody(t, b).value; Relaxed(t, p) == p && WriteBody(t, p) == b
  {
    hide Parse, Encode, Relax, Passes, Fits, ClauseResolved, HandlerEnds, ImportClause, ExportClause, Clause.Set;
    var p := ReadBody(t, b).value;
    PrintUndoesParse(t, b.il);
    forall c | 0 <= c < |b.eh|
      ensures ExportClauses(t, p)[c] == b.eh[c]
    {
      assert p.eh[c] == ImportClause(t, p.code, b.eh[c]) && p.eh[c].Set();
      SetIffResolved(t, p.code, b.eh[c]);
      ClausePrintUndoesParse(t, p.code, b.eh[c]);
    }
    assert ExportClauses(t, p) == b.eh;
  }

  /** What the runtime reads from the installed body is the instrumented program, and a run of it
      returns exactly when the original method does, with the same stack and memory, its events
      framed by one entry and one exit report. */
  lemma {:induction false} InstrumentedBodyPreservesMeaning<V(!new), M(!new)>(
      t: OpcodeTable, sem: Semantics<V, M>, b: Body, h: Hooks, stack: seq<V>, mem: M, k: nat)
    requires t.Valid() && ReadBody(t, b).Some? && ProgramOk(t, ReadBody(t, b).value)
    requires HooksOk(h) && HooksReport(sem, h) && Instrumented(t, b, h).Some?
    requires 10 * |Instrumented(t, b, h).value.code| < CODE_LIMIT
    ensures var p, q := ReadBody(t, b).value, Instrumented(t, b, h).value;
            var r, r' := Run(t, sem, p, Entry(stack, mem), k), Run(t, sem, q, Entry(stack, mem), k + Cost(h));
            && ReadBody(t, WriteBody(t, q)) == Some(q)
            && (r'.Returned? <==> r.Returned?)
            && (r.Returned? ==> r' == Framed(h, r))
  {
    hide Run, ProgramOk, AddProbes, Relax, ReadBody, WriteBody, HooksReport, HooksOk, Off, Fits, Widening;
    var p := ReadBody(t, b).value;
    var probed := AddProbes(p, h).value;
    var q := Relaxed(t, probed);
    ProbesKeepOk(t, p, h);
    RelaxIsSolution(t, probed.code);
    WideningKeepsOk(t, probed, q.code);
    OffMonotone(t, q.code, 0, |q.code|);
    OffStart(t, q.code);
    BodyParseUndoesPrint(t, q);
    WideningPreservesMeaning(t, sem, probed, q.code, stack, mem, k + Cost(h));
    ProbesPreserveMeaning(t, sem, p, h, stack, mem, k);
  }

  /** A body whose clauses describe real regions denotes a well-formed program. */
  lemma {:induction false} ReadBodyIsOk(t: OpcodeTable, b: Body)
    requires t.Valid() && ReadBody(t, b).Some?
    requires forall c {:trigger b.eh[c]} | 0 <= c < |b.eh| ::
               && b.eh[c].tryOffset <= (b.eh[c].tryOffset + b.eh[c].tryLength) % 0x1_0000_0000
               && b.eh[c].handlerOffset < (b.eh[c].handlerOffset + b.eh[c].handlerLength) % 0x1_0000_0000
    ensures ProgramOk(t, ReadBody(t, b).value)
  {
    hide Parse, WellFormed, ClauseResolved, HandlerEnds, ImportClause, ClauseTyped, NoEmpty;
    var p := ReadBody(t, b).value;
    ParseIsWellFormed(t, b.il);
    OkIsNoEmpty(t, p.code);
    forall c {:trigger p.eh[c]} | 0 <= c < |p.eh|
      ensures ClauseTyped(t, p.code, p.eh[c])
    {
      assert p.eh[c] == ImportClause(t, p.code, b.eh[c]) && p.eh[c].Set();
      SetIffResolved(t, p.code, b.eh[c]);
      RealRegions(t, p.code, b.eh[c]);
      ImportedClauseTyped(t, p.code, b.eh[c]);
    }
  }

  lemma {:induction false} ImportedClauseTyped(t: OpcodeTable, code: seq<Instr>, f: FatClause)
    requires t.Valid() && ClauseResolved(t, code, f) && ImportClause(t, code, f).WellFormed(|code|)
    ensures ClauseTyped(t, code, ImportClause(t, code, f))
  {
    hide Off;
  }

  // ---------- pointers stay set ----------

  lemma {:induction false} SpliceSetsPointers(t: OpcodeTable, p: Program, k: nat, xs: seq<Instr>)
    requires PointersSet(t, p) && k <= |p.code| && forall i {:trigger xs[i]} | 0 <= i < |xs| :: !t.IsBranch(xs[i].op)
    ensures PointersSet(t, Splice(p, k, xs))
  {
    hide Splice;
  }

  lemma {:induction false} ExitLoopSetsPointers(t: OpcodeTable, p: Program, k: nat, hook: nat, arg: Option<nat>)
    requires t.Valid() && PointersSet(t, p) && k <= |p.code|
    ensures PointersSet(t, ExitLoop(p, k, hook, arg))
    decreases |p.code| - k
  {
    hide Splice, ExpandRet, OpcodeTable.Valid;
    if k < |p.code| {
      if p.code[k].op == CEE_RET {
        ProbeHasNoJump(t, hook, arg);
        ExpandRetIsSplice(p, k, hook, arg);
        SpliceSetsPointers(t, WithOp(p, k, CEE_NOP), k + 1, Epilog(hook, arg));
        ExitLoopSetsPointers(t, ExpandRet(p, k, hook, arg), k + 1 + |Epilog(hook, arg)|, hook, arg);
      } else {
        ExitLoopSetsPointers(t, p, k + 1, hook, arg);
      }
    }
  }

  lemma {:induction false} ProbeHasNoJump(t: OpcodeTable, hook: nat, arg: Option<nat>)
    requires t.Valid()
    ensures !t.IsBranch(CEE_NOP)
    ensures forall i {:trigger Epilog(hook, arg)[i]} | 0 <= i < |Epilog(hook, arg)| ::
            !t.IsBranch(Epilog(hook, arg)[i].op)
    ensures forall i {:trigger Probe(hook, arg)[i]} | 0 <= i < |Probe(hook, arg)| :: !t.IsBranch(Probe(hook, arg)[i].op)
  {
  }

  /** The probes leave no pointer null. */
  lemma {:induction false} ProbesSetPointers(t: OpcodeTable, p: Program, h: Hooks)
    requires t.Valid() && PointersSet(t, p) && AddProbes(p, h).Some?
    ensures PointersSet(t, AddProbes(p, h).value)
  {
    hide Splice, ExitLoop, PointersSet, OpcodeTable.Valid;
    if h.enter != TOKEN_NIL {
      ProbeHasNoJump(t, h.enter, h.arg);
      InsertProbeIsSplice(p, 0, h.enter, h.arg);
      SpliceSetsPointers(t, p, 0, Probe(h.enter, h.arg));
    }
    if h.exit != TOKEN_NIL {
      ExitLoopSetsPointers(t, Entered(p, h), 0, h.exit, h.arg);
    }
  }

  lemma {:induction false} RelaxKeepsPushes(t: OpcodeTable, code: seq<Instr>)
    requires t.Valid()
    ensures PushSum(t, Relax(t, code)) == PushSum(t, code) && |Relax(t, code)| == |code|
  {
    hide Relax;
    RelaxIsSolution(t, code);
    var wide := Relax(t, code);
    forall i {:trigger wide[i]} | 0 <= i < |wide|
      ensures t.PushesOf(wide[i].op) == t.PushesOf(code[i].op)
    {
      if wide[i] != code[i] {
        WidenedPushes(t, code[i].op);
      }
    }
    PushSumFrame(t, wide, code);
  }

  lemma {:induction false} WidenedPushes(t: OpcodeTable, op: nat)
    requires t.Valid() && IsShort(op)
    ensures t.PushesOf(Widen(op)) == t.PushesOf(op)
  {
    assert t.flags[op].ShortBranch? && t.flags[Widen(op)].LongBranch?;
  }
}
