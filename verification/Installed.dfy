/** What an installed body means to the runtime that reads it. */
module Installed {
  import opened Bytes
  import opened Opcodes
  import opened Listing
  import opened Layout
  import opened Encoding
  import opened Parsing
  import opened RoundTrip
  import opened Probes
  import opened Regions
  import opened Integrity
  import opened Machine
  import opened Preservation
  import opened StackDepth
  import opened EndToEnd
  import opened FatBody

  // ---------- exception regions through all edits ----------

  /** How far the enter probe moves every node. */
  function EnterShift(h: Hooks): nat {
    if h.enter != TOKEN_NIL then |Probe(h.enter, h.arg)| else 0
  }

  lemma {:induction false} EnteredSize(p: Program, h: Hooks)
    ensures |Entered(p, h).code| == |p.code| + EnterShift(h) && |Entered(p, h).eh| == |p.eh|
  {
    hide Splice;
    if h.enter != TOKEN_NIL {
      InsertProbeIsSplice(p, 0, h.enter, h.arg);
    }
  }

  /** Where the node of position i of the original stands in the instrumented list. */
  function Placed(p: Program, h: Hooks, i: nat): nat
    requires i <= |p.code|
  {
    EnteredSize(p, h);
    var j := i + EnterShift(h);
    if h.exit != TOKEN_NIL then Moved(Entered(p, h).code, |Epilog(h.exit, h.arg)|, |Entered(p, h).code|, j) else j
  }

  lemma {:induction false} EnteredClause(p: Program, h: Hooks, c: nat)
    requires c < |p.eh| && p.eh[c].WellFormed(|p.code|)
    ensures |Entered(p, h).eh| == |p.eh|
    ensures Entered(p, h).eh[c] == ShiftClause(p.eh[c], 0, EnterShift(h))
  {
    hide Splice;
    if h.enter != TOKEN_NIL {
      InsertProbeIsSplice(p, 0, h.enter, h.arg);
    }
  }

  lemma {:induction false} EnteredInstr(p: Program, h: Hooks, i: nat)
    requires i < |p.code|
    ensures i + EnterShift(h) < |Entered(p, h).code| && Entered(p, h).code[i + EnterShift(h)].op == p.code[i].op
  {
    hide Splice;
    if h.enter != TOKEN_NIL {
      InsertProbeIsSplice(p, 0, h.enter, h.arg);
    }
  }

  lemma {:induction false} EnteredRegions(p: Program, h: Hooks, c: nat, i: nat)
    requires c < |p.eh| && p.eh[c].WellFormed(|p.code|) && i < |p.code|
    ensures |Entered(p, h).eh| == |p.eh| && |Entered(p, h).code| == |p.code| + EnterShift(h)
    ensures var d := Entered(p, h).eh[c]; var j := i + EnterShift(h);
            && d.WellFormed(|Entered(p, h).code|)
            && (d.InTry(j) <==> p.eh[c].InTry(i)) && (d.InHandler(j) <==> p.eh[c].InHandler(i))
            && (d.handlerEnd == j <==> p.eh[c].handlerEnd == i)
            && (p.eh[c].filter >= 0 ==> d.filter == p.eh[c].filter + EnterShift(h))
            && d.flags == p.eh[c].flags && d.token == p.eh[c].token
  {
    hide Entered;
    EnteredSize(p, h);
    EnteredClause(p, h, c);
    EnterKeepsRegions(p.eh[c], EnterShift(h), |p.code|, i);
  }

  lemma {:induction false} ProbedWithoutExit(p: Program, h: Hooks)
    ensures h.exit == TOKEN_NIL ==> AddProbes(p, h) == Some(Entered(p, h))
  {
  }

  /** A clause after both probes, from the one after the enter probe. */
  lemma {:induction false} ProbedClause(t: OpcodeTable, p: Program, h: Hooks, c: nat)
    requires t.Valid() && ProgramOk(t, p) && HooksOk(h) && AddProbes(p, h).Some? && h.exit != TOKEN_NIL && c < |p.eh|
    ensures |Entered(p, h).eh| == |AddProbes(p, h).value.eh| == |p.eh|
    ensures Entered(p, h).eh[c].WellFormed(|Entered(p, h).code|)
    ensures AddProbes(p, h).value.eh[c] ==
            MovedClause(Entered(p, h).code, |Epilog(h.exit, h.arg)|, |Entered(p, h).code|, Entered(p, h).eh[c])
  {
    hide Splice, ExitLoop, Moved, MovedClause, Epilog, AddEnter, ProgramOk, InstrExited;
    EnteredSize(p, h);
    EnteredOk(t, p, h);
    ProgramInBounds(t, Entered(p, h));
    ExitLoopShape(Entered(p, h), h.exit, h.arg);
  }

  lemma {:induction false} ProbedCount(t: OpcodeTable, p: Program, h: Hooks)
    requires t.Valid() && ProgramOk(t, p) && HooksOk(h) && AddProbes(p, h).Some?
    ensures |AddProbes(p, h).value.eh| == |p.eh|
  {
    hide ExitLoop, Moved, MovedClause, Epilog, AddEnter, ProgramOk, InstrExited;
    EnteredSize(p, h);
    if h.exit != TOKEN_NIL {
      EnteredOk(t, p, h);
      ProgramInBounds(t, Entered(p, h));
      ExitLoopShape(Entered(p, h), h.exit, h.arg);
    }
  }

  /** Through both probes an instruction keeps its regions and a filter its node. */
  lemma {:induction false} PlacedRegions(t: OpcodeTable, p: Program, h: Hooks, c: nat, i: nat)
    requires t.Valid() && ProgramOk(t, p) && HooksOk(h) && AddProbes(p, h).Some? && c < |p.eh| && i < |p.code|
    ensures |AddProbes(p, h).value.eh| == |p.eh|
    ensures var d := AddProbes(p, h).value.eh[c];
            && (d.InTry(Placed(p, h, i)) <==> p.eh[c].InTry(i))
            && (d.InHandler(Placed(p, h, i)) <==> p.eh[c].InHandler(i))
            && (0 <= p.eh[c].filter ==> p.eh[c].filter <= |p.code| && d.filter == Placed(p, h, p.eh[c].filter))
  {
    hide Entered, AddProbes, Moved, Epilog, ProgramOk, OpcodeTable.Valid, HooksOk, ClauseTyped, Clause.InTry,
      Clause.InHandler;
    ProgramClause(t, p, c);
    ProbedWithoutExit(p, h);
    EnteredRegions(p, h, c, i);
    if h.exit != TOKEN_NIL {
      ProbedClause(t, p, h, c);
      ExitKeepsRegions(Entered(p, h).code, |Epilog(h.exit, h.arg)|, Entered(p, h).eh[c], i + EnterShift(h));
    }
  }

  /** The epilog of a RET is in the RET's try blocks, and in its handlers exactly when the RET is
      not the last instruction of the handler. */
  lemma {:induction false} PlacedEpilog(t: OpcodeTable, p: Program, h: Hooks, c: nat, i: nat, j: nat)
    requires t.Valid() && ProgramOk(t, p) && HooksOk(h) && AddProbes(p, h).Some? && c < |p.eh| && i < |p.code|
    requires h.exit != TOKEN_NIL && p.code[i].op == CEE_RET && 0 < j <= |Epilog(h.exit, h.arg)|
    ensures |AddProbes(p, h).value.eh| == |p.eh|
    ensures var d := AddProbes(p, h).value.eh[c];
            && (d.InTry(Placed(p, h, i) + j) <==> p.eh[c].InTry(i))
            && (d.InHandler(Placed(p, h, i) + j) <==> p.eh[c].InHandler(i) && i != p.eh[c].handlerEnd)
  {
    hide Entered, AddProbes, Moved, MovedClause, Epilog, ProgramOk, OpcodeTable.Valid, HooksOk, ClauseTyped,
      Clause.InTry, Clause.InHandler;
    ProgramClause(t, p, c);
    EnteredRegions(p, h, c, i);
    EnteredInstr(p, h, i);
    ProbedClause(t, p, h, c);
    EpilogRegions(Entered(p, h).code, |Epilog(h.exit, h.arg)|, Entered(p, h).eh[c], i + EnterShift(h), j);
  }

  lemma {:induction false} EnteredOk(t: OpcodeTable, p: Program, h: Hooks)
    requires t.Valid() && ProgramOk(t, p) && HooksOk(h)
    ensures ProgramOk(t, Entered(p, h))
  {
    if h.enter != TOKEN_NIL {
      EnterKeepsOk(t, p, h.enter, h.arg);
    }
  }

  /** Where the target of a pointer of the original stands. */
  function PlacedPointer(p: Program, h: Hooks, pos: int): int
    requires NONE <= pos <= |p.code|
  {
    if pos < 0 then NONE else Placed(p, h, pos)
  }

  lemma {:induction false} EnteredWhole(p: Program, h: Hooks, i: nat)
    requires i < |p.code| && NONE <= p.code[i].target <= |p.code|
    ensures i + EnterShift(h) < |Entered(p, h).code|
    ensures var x := p.code[i];
            Entered(p, h).code[i + EnterShift(h)] ==
            Instr(x.op, x.arg, if x.target < 0 then NONE else x.target + EnterShift(h))
  {
    hide Splice;
    if h.enter != TOKEN_NIL {
      InsertProbeIsSplice(p, 0, h.enter, h.arg);
    }
  }

  /** The instrumented list, instruction by instruction: each original one at its place with its
      operand and its pointer carried along, a RET turned into a NOP if there is an exit probe; places
      are consecutive but for the exit sequences, start behind the enter probe and end with the list. */
  lemma {:induction false} PlacedInstr(t: OpcodeTable, p: Program, h: Hooks, i: nat)
    requires t.Valid() && ProgramOk(t, p) && HooksOk(h) && AddProbes(p, h).Some? && i < |p.code|
    ensures Placed(p, h, i) < |AddProbes(p, h).value.code| && NONE <= p.code[i].target <= |p.code|
    ensures var x, ret := p.code[i], p.code[i].op == 0x2A && h.exit != 0;
            AddProbes(p, h).value.code[Placed(p, h, i)] ==
            Instr(if ret then 0x00 else x.op, x.arg, PlacedPointer(p, h, x.target))
    ensures Placed(p, h, i + 1) == Placed(p, h, i) + 1 +
            (if p.code[i].op == 0x2A && h.exit != 0 then if h.arg.Some? then 3 else 2 else 0)
  {
    hide Splice, ExitLoop, Moved, AddEnter, TablesIntact, Entered, InstrExited;
    ProgramInBounds(t, p);
    EnteredSize(p, h);
    EnteredWhole(p, h, i);
    if h.exit != TOKEN_NIL {
      var entered, epilog := Entered(p, h), Epilog(h.exit, h.arg);
      EnteredOk(t, p, h);
      ProgramInBounds(t, entered);
      ExitLoopShape(entered, h.exit, h.arg);
      ExitedNode(entered, ExitLoop(entered, 0, h.exit, h.arg), epilog, i + EnterShift(h));
      MovedNext(entered.code, |epilog|, i + EnterShift(h));
    }
  }

  lemma {:induction false} ExitedNode(p: Program, q: Program, epilog: seq<Instr>, j: nat)
    requires InBounds(p) && ExitedUpTo(p, q, |p.code|, epilog) && j < |p.code|
    ensures var at := Moved(p.code, |epilog|, |p.code|, j);
            at < |q.code| && q.code[at] == MovedInstr(p.code, |epilog|, |p.code|, j)
  {
    assert InstrExited(p, q, |p.code|, epilog, j);
  }

  lemma {:induction false} PlacedEnds(t: OpcodeTable, p: Program, h: Hooks)
    requires t.Valid() && ProgramOk(t, p) && HooksOk(h) && AddProbes(p, h).Some?
    ensures Placed(p, h, 0) == if h.enter == 0 then 0 else if h.arg.Some? then 2 else 1
    ensures Placed(p, h, |p.code|) == |AddProbes(p, h).value.code|
  {
    hide Splice, ExitLoop, Extra, AddEnter, TablesIntact, Entered, InstrExited, Epilog;
    EnteredSize(p, h);
    if h.exit != TOKEN_NIL {
      var entered := Entered(p, h);
      EnteredOk(t, p, h);
      ProgramInBounds(t, entered);
      ExitLoopShape(entered, h.exit, h.arg);
      EnterHasNoRet(p, h);
      NothingExtra(entered.code, |Epilog(h.exit, h.arg)|, EnterShift(h));
    }
  }

  lemma {:induction false} EnterHasNoRet(p: Program, h: Hooks)
    ensures EnterShift(h) <= |Entered(p, h).code|
    ensures forall j {:trigger Entered(p, h).code[j]} | 0 <= j < EnterShift(h) :: Entered(p, h).code[j].op != CEE_RET
  {
    hide Splice;
    if h.enter != TOKEN_NIL {
      InsertProbeIsSplice(p, 0, h.enter, h.arg);
    }
  }

  lemma {:induction false} NothingExtra(code: seq<Instr>, m: nat, i: nat)
    requires i <= |code| && forall j {:trigger code[j]} | 0 <= j < i :: code[j].op != CEE_RET
    ensures Extra(code, m, i) == 0
  {
    if i > 0 {
      NothingExtra(code, m, i - 1);
    }
  }

  /** The byte ranges of clause c in the installed table, against a position of the installed list. */
  lemma {:induction false} InstalledRanges(t: OpcodeTable, p: Program, h: Hooks, c: nat, at: nat)
    requires t.Valid() && ProgramOk(t, p) && HooksOk(h) && AddProbes(p, h).Some? && c < |AddProbes(p, h).value.eh|
    requires 10 * |AddProbes(p, h).value.code| < CODE_LIMIT && at < |AddProbes(p, h).value.code|
    ensures |Relaxed(t, AddProbes(p, h).value).code| == |AddProbes(p, h).value.code|
    ensures var q, d := Relaxed(t, AddProbes(p, h).value), AddProbes(p, h).value.eh[c];
            var f := ExportClause(t, q.code, q.eh[c]); var o := Off(t, q.code, at);
            && (f.tryOffset <= o < f.tryOffset + f.tryLength <==> d.InTry(at))
            && (f.handlerOffset <= o < f.handlerOffset + f.handlerLength <==> d.InHandler(at))
  {
    hide Off, AddProbes, Relax, ExportClause, ProgramOk, ClauseTyped, Clause.InTry, Clause.InHandler, OpcodeTable.Valid;
    var probed := AddProbes(p, h).value;
    var q := Relaxed(t, probed);
    ProbesKeepOk(t, p, h);
    RelaxIsSolution(t, probed.code);
    WideningKeepsOk(t, probed, q.code);
    ProgramNoEmpty(t, q);
    ProgramClause(t, q, c);
    CodeFits(t, q.code);
    ExportedRanges(t, q.code, q.eh[c], at);
  }

  lemma {:induction false} ProgramNoEmpty(t: OpcodeTable, p: Program)
    requires t.Valid() && ProgramOk(t, p)
    ensures NoEmpty(t, p.code)
  {
    OkIsNoEmpty(t, p.code);
  }

  /** In the installed table: the offset of an original instruction lies in a clause's byte range
      exactly when the instruction was in the imported region, whatever was widened, and the filter
      offset is that of the imported filter's node. */
  lemma {:induction false} InstalledRegions(t: OpcodeTable, p: Program, h: Hooks, c: nat, i: nat)
    requires t.Valid() && ProgramOk(t, p) && HooksOk(h) && AddProbes(p, h).Some? && c < |p.eh| && i < |p.code|
    requires 10 * |AddProbes(p, h).value.code| < CODE_LIMIT
    ensures |Relaxed(t, AddProbes(p, h).value).eh| == |p.eh|
            && Placed(p, h, i) < |Relaxed(t, AddProbes(p, h).value).code|
    ensures var q := Relaxed(t, AddProbes(p, h).value);
            var f := ExportClause(t, q.code, q.eh[c]); var o := Off(t, q.code, Placed(p, h, i));
            && (f.tryOffset <= o < f.tryOffset + f.tryLength <==> p.eh[c].InTry(i))
            && (f.handlerOffset <= o < f.handlerOffset + f.handlerLength <==> p.eh[c].InHandler(i))
    ensures p.eh[c].HasFilter() ==>
              var q := Relaxed(t, AddProbes(p, h).value);
              && 0 <= p.eh[c].filter <= |p.code|
              && ExportClause(t, q.code, q.eh[c]).tokenOrFilter == OffOf(t, q.code, Placed(p, h, p.eh[c].filter))
  {
    hide Off, OffOf, AddProbes, Relax, Placed, ProgramOk, ClauseTyped, Clause.InTry, Clause.InHandler,
      OpcodeTable.Valid, HooksOk;
    PlacedRegions(t, p, h, c, i);
    PlacedInside(t, p, h, i);
    InstalledRanges(t, p, h, c, Placed(p, h, i));
    TokenKept(t, p, h, c);
    ProgramClause(t, p, c);
    SetFilter(t, p.code, p.eh[c]);
  }

  lemma {:induction false} SetFilter(t: OpcodeTable, code: seq<Instr>, c: Clause)
    requires ClauseTyped(t, code, c)
    ensures c.HasFilter() ==> 0 <= c.filter <= |code|
  {
  }

  /** The same of the exit sequences: the j-th instruction behind the NOP of a RET lies in the ranges
      the RET lay in, except for a handler the RET was the last instruction of. */
  lemma {:induction false} InstalledEpilog(t: OpcodeTable, p: Program, h: Hooks, c: nat, i: nat, j: nat)
    requires t.Valid() && ProgramOk(t, p) && HooksOk(h) && AddProbes(p, h).Some? && c < |p.eh| && i < |p.code|
    requires h.exit != TOKEN_NIL && p.code[i].op == CEE_RET && 0 < j <= |Epilog(h.exit, h.arg)|
    requires 10 * |AddProbes(p, h).value.code| < CODE_LIMIT
    ensures |Relaxed(t, AddProbes(p, h).value).eh| == |p.eh|
    ensures Placed(p, h, i) + j < |Relaxed(t, AddProbes(p, h).value).code|
    ensures var q := Relaxed(t, AddProbes(p, h).value);
            var f := ExportClause(t, q.code, q.eh[c]); var o := Off(t, q.code, Placed(p, h, i) + j);
            && (f.tryOffset <= o < f.tryOffset + f.tryLength <==> p.eh[c].InTry(i))
            && (f.handlerOffset <= o < f.handlerOffset + f.handlerLength <==>
                 p.eh[c].InHandler(i) && i != p.eh[c].handlerEnd)
  {
    hide Off, AddProbes, Relax, Placed, Epilog, ExportClause, ProgramOk, Clause.InTry, Clause.InHandler,
      OpcodeTable.Valid, HooksOk;
    PlacedEpilog(t, p, h, c, i, j);
    EpilogInside(t, p, h, i);
    InstalledRanges(t, p, h, c, Placed(p, h, i) + j);
  }

  lemma {:induction false} CodeFits(t: OpcodeTable, code: seq<Instr>)
    requires t.Valid() && 10 * |code| < CODE_LIMIT
    ensures Off(t, code, |code|) < CODE_LIMIT
  {
    OffMonotone(t, code, 0, |code|);
    OffStart(t, code);
  }

  lemma {:induction false} PlacedInside(t: OpcodeTable, p: Program, h: Hooks, i: nat)
    requires t.Valid() && ProgramOk(t, p) && HooksOk(h) && AddProbes(p, h).Some? && i < |p.code|
    ensures Placed(p, h, i) < |AddProbes(p, h).value.code|
  {
    hide Splice, ExitLoop, Moved, Epilog, AddEnter, TablesIntact;
    EnteredSize(p, h);
    if h.exit != TOKEN_NIL {
      var entered := Entered(p, h);
      EnteredOk(t, p, h);
      ProgramInBounds(t, entered);
      ExitLoopShape(entered, h.exit, h.arg);
      var q := ExitLoop(entered, 0, h.exit, h.arg);
      assert InstrExited(entered, q, |entered.code|, Epilog(h.exit, h.arg), i + EnterShift(h));
    }
  }

  /** Behind the NOP of a RET the installed list has the exit sequence. */
  lemma {:induction false} EpilogInside(t: OpcodeTable, p: Program, h: Hooks, i: nat)
    requires t.Valid() && ProgramOk(t, p) && HooksOk(h) && AddProbes(p, h).Some? && i < |p.code|
    requires h.exit != TOKEN_NIL && p.code[i].op == CEE_RET
    ensures var q, at, epilog := AddProbes(p, h).value, Placed(p, h, i), Epilog(h.exit, h.arg);
            && at + |epilog| < |q.code| && q.code[at].op == CEE_NOP
            && q.code[at + 1..at + 1 + |epilog|] == epilog
  {
    hide Splice, ExitLoop, Moved, Epilog, AddEnter, TablesIntact;
    var entered := Entered(p, h);
    EnteredInstr(p, h, i);
    EnteredOk(t, p, h);
    ProgramInBounds(t, entered);
    ExitLoopShape(entered, h.exit, h.arg);
    var q := ExitLoop(entered, 0, h.exit, h.arg);
    assert InstrExited(entered, q, |entered.code|, Epilog(h.exit, h.arg), i + EnterShift(h));
  }

  /** From clause to clause in bytes: offset o of an instruction lay in the range of the clause that was
      read exactly when the offset it has been moved to lies in the range of the clause that is written;
      flags stay, and a token stays or a filter offset is moved along. */
  lemma {:induction false} ClauseFollowsCode(t: OpcodeTable, b: Body, h: Hooks, c: nat, i: nat)
    requires t.Valid() && |b.il| < CODE_LIMIT && ReadBody(t, b).Some? && ProgramOk(t, ReadBody(t, b).value)
    requires HooksOk(h) && AddProbes(ReadBody(t, b).value, h).Some? && c < |b.eh| && i < |ReadBody(t, b).value.code|
    requires 10 * |AddProbes(ReadBody(t, b).value, h).value.code| < CODE_LIMIT
    requires b.eh[c].tryLength < TWO_32 && b.eh[c].handlerLength < TWO_32
    ensures |WriteBody(t, Relaxed(t, AddProbes(ReadBody(t, b).value, h).value)).eh| == |b.eh|
    ensures var p, q := ReadBody(t, b).value, Relaxed(t, AddProbes(ReadBody(t, b).value, h).value);
            var f, g, o := b.eh[c], WriteBody(t, q).eh[c], Off(t, p.code, i);
            && Placed(p, h, i) < |q.code|
            && var moved := Off(t, q.code, Placed(p, h, i));
               && (g.tryOffset <= moved < g.tryOffset + g.tryLength <==> f.tryOffset <= o < f.tryOffset + f.tryLength)
               && (g.handlerOffset <= moved < g.handlerOffset + g.handlerLength <==>
                     f.handlerOffset <= o < f.handlerOffset + f.handlerLength)
               && g.flags == f.flags && (f.flags % 2 == 0 ==> g.tokenOrFilter == f.tokenOrFilter)
               && (f.flags % 2 == 1 && o == f.tokenOrFilter ==> g.tokenOrFilter == moved)
  {
    hide Off, OffOf, Encode, AddProbes, Relax, Placed, ProgramOk, HooksOk, ReadBody, OpcodeTable.Valid;
    var p := ReadBody(t, b).value;
    ReadCode(t, b);
    ClauseIsExport(t, b, c);
    ProgramNoEmpty(t, p);
    ProgramClause(t, p, c);
    ExportedRanges(t, p.code, p.eh[c], i);
    InstalledRegions(t, p, h, c, i);
    TokenKept(t, p, h, c);
    SetFilter(t, p.code, p.eh[c]);
    if p.eh[c].HasFilter() && Off(t, p.code, i) == b.eh[c].tokenOrFilter {
      OffOfIs(t, p.code, p.eh[c].filter);
      SameOffset(t, p.code, p.eh[c].filter, i);
      OffOfIs(t, Relaxed(t, AddProbes(p, h).value).code, Placed(p, h, i));
    }
  }

  lemma {:induction false} OffOfIs(t: OpcodeTable, code: seq<Instr>, pos: nat)
    requires t.Valid() && pos <= |code|
    ensures OffOf(t, code, pos) == Off(t, code, pos)
  {
  }

  lemma {:induction false} SameOffset(t: OpcodeTable, code: seq<Instr>, a: nat, b: nat)
    requires t.Valid() && NoEmpty(t, code) && a <= |code| && b <= |code| && Off(t, code, a) == Off(t, code, b)
    ensures a == b
  {
    OffOrder(t, code, a, b);
    OffOrder(t, code, b, a);
  }

  lemma {:induction false} ReadCode(t: OpcodeTable, b: Body)
    requires t.Valid() && |b.il| < CODE_LIMIT && ReadBody(t, b).Some?
    ensures Encode(t, ReadBody(t, b).value.code, |ReadBody(t, b).value.code|) == b.il
    ensures Off(t, ReadBody(t, b).value.code, |ReadBody(t, b).value.code|) == |b.il|
    ensures |ReadBody(t, b).value.eh| == |b.eh|
  {
    hide Parse, Off, Relax, Passes;
    PrintUndoesParse(t, b.il);
  }

  lemma {:induction false} ClauseIsExport(t: OpcodeTable, b: Body, c: nat)
    requires t.Valid() && ReadBody(t, b).Some? && c < |b.eh|
    requires b.eh[c].tryLength < TWO_32 && b.eh[c].handlerLength < TWO_32
    ensures |ReadBody(t, b).value.eh| == |b.eh|
    ensures ExportClause(t, ReadBody(t, b).value.code, ReadBody(t, b).value.eh[c]) == b.eh[c]
  {
    hide Parse, ExportClause, ImportClause;
    var p := ReadBody(t, b).value;
    assert p.eh[c] == ImportClause(t, p.code, b.eh[c]) && p.eh[c].Set();
    SetIffResolved(t, p.code, b.eh[c]);
    ClausePrintUndoesParse(t, p.code, b.eh[c]);
  }

  // ---------- the capstone ----------

  /** The clause data the rewriter passes through fits its four-byte fields. */
  ghost predicate TokensFit(p: Program) {
    forall c {:trigger p.eh[c]} | 0 <= c < |p.eh| :: p.eh[c].flags < TWO_32 && p.eh[c].token < TWO_32
  }

  lemma {:induction false} ExportedClauseFits(t: OpcodeTable, code: seq<Instr>, c: Clause)
    requires t.Valid() && Off(t, code, |code|) < CODE_LIMIT && c.WellFormed(|code|) && c.flags < TWO_32
             && c.token < TWO_32
    ensures ClauseFits(ExportClause(t, code, c))
  {
    OffMonotone(t, code, c.tryBegin, |code|);
    OffMonotone(t, code, c.handlerBegin, |code|);
    if c.HasFilter() {
      OffMonotone(t, code, c.filter, |code|);
    }
  }

  /** Bytes assembled for a well-formed program are read back as that program. */
  lemma {:induction false} InstalledBytesRead(
      t: OpcodeTable, q: Program, bytes: seq<Byte>, a: Attributes, maxStack: nat)
    requires t.Valid() && ProgramOk(t, q) && Fits(t, q.code) && 10 * |q.code| < CODE_LIMIT && TokensFit(q)
             && |q.eh| <= 699050
    requires IsBody(bytes, WriteBody(t, q), a, maxStack)
    ensures ReadFat(bytes) == Some(WriteBody(t, q)) && ReadBody(t, WriteBody(t, q)) == Some(q)
    ensures |bytes| >= HEADER_SIZE && Field(bytes, 2, 2) == StackField(maxStack)
  {
    hide IsBody, ReadFat, ReadBody, Fits, Off, ExportClause;
    CodeFits(t, q.code);
    BodyParseUndoesPrint(t, q);
    var b := WriteBody(t, q);
    forall c {:trigger b.eh[c]} | 0 <= c < |b.eh|
      ensures ClauseFits(b.eh[c])
    {
      assert ClauseTyped(t, q.code, q.eh[c]);
      ExportedClauseFits(t, q.code, q.eh[c]);
    }
    BodyReads(bytes, b, a, maxStack);
    StackFieldReads(bytes, b, a, maxStack);
  }

  lemma {:induction false} StackFieldReads(bytes: seq<Byte>, b: Body, a: Attributes, maxStack: nat)
    requires IsBody(bytes, b, a, maxStack) && |b.il| < CODE_LIMIT
    ensures |bytes| >= HEADER_SIZE && Field(bytes, 2, 2) == StackField(maxStack)
  {
    hide Header;
    HeaderReads(bytes, a, maxStack, |b.il|, |b.eh|);
  }

  /** The whole rewriter: from a method body to installed bytes. Read back through their own header
      and tables, the bytes denote a method that returns exactly when the original does, with the
      same stack and memory and with its events framed by one entry and one exit report, and that
      stays within the stack limit its own header announces. */
  lemma {:induction false} InstalledBodyPreservesMeaning<V(!new), M(!new)>(
      t: OpcodeTable, sem: Semantics<V, M>, b: Body, h: Hooks, bytes: seq<Byte>, a: Attributes, declared: nat, mem: M,
      k: nat)
    requires t.Valid() && ReadBody(t, b).Some? && ProgramOk(t, ReadBody(t, b).value) && TokensFit(ReadBody(t, b).value)
    requires HooksOk(h) && HooksReport(sem, h) && Instrumented(t, b, h).Some?
    requires 10 * |Instrumented(t, b, h).value.code| < CODE_LIMIT && |b.eh| <= 699050
    requires declared < 0x1_0000 && LimitFits(t, Instrumented(t, b, h).value.code, h, declared)
    requires StaysWithin(t, sem, ReadBody(t, b).value, Entry([], mem), k + Cost(h), declared)
    requires IsBody(bytes, WriteBody(t, Instrumented(t, b, h).value), a,
             Low32(declared + PushSum(t, Instrumented(t, b, h).value.code)))
    ensures |bytes| >= HEADER_SIZE && ReadFat(bytes).Some? && ReadBody(t, ReadFat(bytes).value).Some?
    ensures var p, q := ReadBody(t, b).value, ReadBody(t, ReadFat(bytes).value).value;
            var r, r' := Run(t, sem, p, Entry([], mem), k), Run(t, sem, q, Entry([], mem), k + Cost(h));
            && (r'.Returned? <==> r.Returned?) && (r.Returned? ==> r' == Framed(h, r))
            && StaysWithin(t, sem, q, Entry([], mem), k + Cost(h), Field(bytes, 2, 2))
  {
    hide Run, ProgramOk, AddProbes, Relax, ReadBody, WriteBody, HooksReport, HooksOk, IsBody, ReadFat, Fits,
      StaysWithin, PushSum, Cost, Placed, Entry, LimitFits;
    var p := ReadBody(t, b).value;
    var probed := AddProbes(p, h).value;
    var q := Relaxed(t, probed);
    ProbesKeepOk(t, p, h);
    RelaxIsSolution(t, probed.code);
    RelaxKeepsPushes(t, probed.code);
    WideningKeepsOk(t, probed, q.code);
    SamePushesFit(t, q.code, probed.code, h, declared);
    TokensKept(t, p, b, h);
    InstalledBytesRead(t, q, bytes, a, Low32(declared + PushSum(t, q.code)));
    InstrumentedBodyPreservesMeaning(t, sem, b, h, [], mem, k);
    EmittedLimitSuffices(t, sem, p, h, mem, k + Cost(h), declared);
    WidenedDepth(t, sem, probed, q.code, mem, k + Cost(h), StackField(Low32(declared + PushSum(t, q.code))));
  }

  lemma {:induction false} SamePushesFit(t: OpcodeTable, a: seq<Instr>, b: seq<Instr>, h: Hooks, declared: nat)
    requires PushSum(t, a) == PushSum(t, b)
    ensures LimitFits(t, a, h, declared) <==> LimitFits(t, b, h, declared)
    ensures EmittedLimit(t, a, declared) == EmittedLimit(t, b, declared)
  {
  }

  lemma {:induction false} WidenedDepth<V, M>(
      t: OpcodeTable, sem: Semantics<V, M>, p: Program, wide: seq<Instr>, mem: M, k: nat, limit: nat)
    requires t.Valid() && ProgramOk(t, p) && Widening(p.code, wide) && StaysWithin(t, sem, p, Entry([], mem), k, limit)
    ensures StaysWithin(t, sem, p.(code := wide), Entry([], mem), k, limit)
  {
    hide Step, Embeds, RetsStay, TablesIntact, StaysWithin;
    var f, s := IdentityMap(|p.code|), Entry([], mem);
    WideningEmbeds(t, p, wide);
    DepthEmbedded(t, sem, p, p.(code := wide), f, s, k, limit);
    assert Image(f, s) == s;
  }

  /** Flags and tokens of the clauses pass through. */
  lemma {:induction false} TokensKept(t: OpcodeTable, p: Program, b: Body, h: Hooks)
    requires t.Valid() && ReadBody(t, b) == Some(p) && ProgramOk(t, p) && HooksOk(h) && AddProbes(p, h).Some?
             && TokensFit(p)
    ensures TokensFit(Relaxed(t, AddProbes(p, h).value)) && |Relaxed(t, AddProbes(p, h).value).eh| == |b.eh|
  {
    ProbedCount(t, p, h);
    var q := AddProbes(p, h).value;
    forall c {:trigger q.eh[c]} | 0 <= c < |q.eh|
      ensures q.eh[c].flags < TWO_32 && q.eh[c].token < TWO_32
    {
      TokenKept(t, p, h, c);
    }
  }

  lemma {:induction false} TokenKept(t: OpcodeTable, p: Program, h: Hooks, c: nat)
    requires t.Valid() && ProgramOk(t, p) && HooksOk(h) && AddProbes(p, h).Some? && c < |p.eh|
    ensures |AddProbes(p, h).value.eh| == |p.eh|
    ensures var d := AddProbes(p, h).value.eh[c]; d.flags == p.eh[c].flags && d.token == p.eh[c].token
  {
    hide Entered, AddProbes, Moved, Epilog, ProgramOk, OpcodeTable.Valid, HooksOk, ClauseTyped;
    ProgramClause(t, p, c);
    ProbedWithoutExit(p, h);
    EnteredClause(p, h, c);
    if h.exit != TOKEN_NIL {
      ProbedClause(t, p, h, c);
    }
  }
}
