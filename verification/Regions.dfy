/** Exception clauses: import, export, and what the probes do to their regions. */
module Regions {
  import opened Bytes
  import opened Opcodes
  import opened Listing
  import opened Layout
  import opened Parsing
  import opened Probes

  /** A clause in the fat form of section II.25.4.6 of ECMA-335. */
  datatype FatClause = FatClause(flags: nat, tryOffset: nat, tryLength: nat, handlerOffset: nat, handlerLength: nat,
                                 tokenOrFilter: nat)

  /** Neighbours in the ring whose position n is the sentinel. */
  function Next(n: nat, i: nat): nat { if i >= n then 0 else i + 1 }

  function Prev(n: nat, i: nat): nat { if i == 0 then n else i - 1 }

  /** Every offset of the clause is one the offset table knows. */
  ghost predicate ClauseResolved(t: OpcodeTable, code: seq<Instr>, f: FatClause)
    requires t.Valid()
  {
    && Lookup(t, code, f.tryOffset) != NONE
    && Lookup(t, code, Low32(f.tryOffset + f.tryLength)) != NONE
    && Lookup(t, code, f.handlerOffset) != NONE
    && Lookup(t, code, Low32(f.handlerOffset + f.handlerLength)) != NONE
    && (f.flags % 2 == EH_FILTER ==> Lookup(t, code, f.tokenOrFilter) != NONE)
  }

  /** The one offset whose node the importer looks behind at once: the end of the handler. */
  ghost predicate HandlerEnds(t: OpcodeTable, code: seq<Instr>, f: FatClause)
    requires t.Valid()
  {
    Lookup(t, code, Low32(f.handlerOffset + f.handlerLength)) != NONE
  }

  ghost function ImportClause(t: OpcodeTable, code: seq<Instr>, f: FatClause): Clause
    requires t.Valid() && HandlerEnds(t, code, f)
  {
    var filtered := f.flags % 2 == EH_FILTER;
    Clause(f.flags,
           Lookup(t, code, f.tryOffset), Lookup(t, code, Low32(f.tryOffset + f.tryLength)),
           Lookup(t, code, f.handlerOffset), Prev(|code|, Lookup(t, code, Low32(f.handlerOffset + f.handlerLength))),
           if filtered then 0 else f.tokenOrFilter,
           if filtered then Lookup(t, code, f.tokenOrFilter) else NONE)
  }

  /** An imported clause has no null pointer exactly when all its offsets are known. */
  lemma {:induction false} SetIffResolved(t: OpcodeTable, code: seq<Instr>, f: FatClause)
    requires t.Valid()
    ensures ClauseResolved(t, code, f) <==> HandlerEnds(t, code, f) && ImportClause(t, code, f).Set()
  {
  }

  function ExportClause(t: OpcodeTable, code: seq<Instr>, c: Clause): FatClause
    requires t.Valid()
  {
    var n := |code|;
    FatClause(c.flags,
              OffOf(t, code, c.tryBegin), Low32(OffOf(t, code, c.tryEnd) - OffOf(t, code, c.tryBegin)),
              OffOf(t, code, c.handlerBegin),
                Low32(OffOf(t, code, Next(n, c.handlerEnd)) - OffOf(t, code, c.handlerBegin)),
              if c.HasFilter() then OffOf(t, code, c.filter) else c.token)
  }

  /** pos is the end of the method or an instruction that can start a region. */
  predicate Startable(t: OpcodeTable, code: seq<Instr>, pos: int) {
    0 <= pos <= |code| && (pos < |code| ==> code[pos].op != t.SwitchArg())
  }

  /** A clause as the importer leaves it. */
  predicate ClauseTyped(t: OpcodeTable, code: seq<Instr>, c: Clause) {
    && c.WellFormed(|code|)
    && Startable(t, code, c.tryBegin) && Startable(t, code, c.tryEnd)
    && Startable(t, code, c.handlerBegin) && Startable(t, code, c.handlerEnd + 1)
    && (if c.HasFilter() then c.token == 0 && Startable(t, code, c.filter) else c.filter == NONE)
  }

  lemma {:induction false} StartableReads(t: OpcodeTable, code: seq<Instr>, pos: int)
    requires t.Valid() && NoEmpty(t, code) && Startable(t, code, pos) && Off(t, code, |code|) < CODE_LIMIT
    ensures Lookup(t, code, OffOf(t, code, pos)) == pos
    ensures OffOf(t, code, pos) < CODE_LIMIT
  {
    LookupIsExact(t, code, pos);
    OffMonotone(t, code, pos, |code|);
  }

  /** Importing an exported clause gives the same regions and filter. */
  lemma {:induction false} ClauseParseUndoesPrint(t: OpcodeTable, code: seq<Instr>, c: Clause)
    requires t.Valid() && NoEmpty(t, code) && Off(t, code, |code|) < CODE_LIMIT && ClauseTyped(t, code, c)
    ensures ClauseResolved(t, code, ExportClause(t, code, c)) && HandlerEnds(t, code, ExportClause(t, code, c))
    ensures ImportClause(t, code, ExportClause(t, code, c)) == c
  {
    hide Lookup, OffOf, Low32, Off;
    StartableReads(t, code, c.tryBegin);
    StartableReads(t, code, c.tryEnd);
    StartableReads(t, code, c.handlerBegin);
    StartableReads(t, code, c.handlerEnd + 1);
    TargetReads(OffOf(t, code, c.tryBegin), OffOf(t, code, c.tryEnd));
    TargetReads(OffOf(t, code, c.handlerBegin), OffOf(t, code, c.handlerEnd + 1));
    if c.HasFilter() {
      StartableReads(t, code, c.filter);
    }
  }

  /** Exporting an imported clause gives the same offsets, lengths and token, empty handlers included. */
  lemma {:induction false} ClausePrintUndoesParse(t: OpcodeTable, code: seq<Instr>, f: FatClause)
    requires t.Valid() && ClauseResolved(t, code, f)
    requires f.tryLength < TWO_32 && f.handlerLength < TWO_32
    ensures ExportClause(t, code, ImportClause(t, code, f)) == f
  {
    hide Lookup, Low32, Off;
    var tryEnd := Low32(f.tryOffset + f.tryLength);
    var handlerEnd := Low32(f.handlerOffset + f.handlerLength);
    LookupReads(t, code, f.tryOffset);
    LookupReads(t, code, tryEnd);
    LookupReads(t, code, f.handlerOffset);
    LookupReads(t, code, handlerEnd);
    LookupReads(t, code, f.tokenOrFilter);
    WordReads(f.tryOffset, f.tryLength, tryEnd);
    WordReads(f.handlerOffset, f.handlerLength, handlerEnd);
    assert Next(|code|, Prev(|code|, Lookup(t, code, handlerEnd))) == Lookup(t, code, handlerEnd);
  }

  lemma {:induction false} LookupReads(t: OpcodeTable, code: seq<Instr>, o: nat)
    requires t.Valid()
    ensures Lookup(t, code, o) != NONE ==> OffOf(t, code, Lookup(t, code, o)) == o
  {
  }

  /** An imported clause describes real regions exactly when neither of its ranges wraps and its handler
      is not empty. */
  lemma {:induction false} RealRegions(t: OpcodeTable, code: seq<Instr>, f: FatClause)
    requires t.Valid() && NoEmpty(t, code) && ClauseResolved(t, code, f)
    ensures HandlerEnds(t, code, f)
    ensures ImportClause(t, code, f).WellFormed(|code|) <==>
            && f.tryOffset <= (f.tryOffset + f.tryLength) % 0x1_0000_0000
            && f.handlerOffset < (f.handlerOffset + f.handlerLength) % 0x1_0000_0000
  {
    hide Off;
    var tryEnd, handlerEnd := Low32(f.tryOffset + f.tryLength), Low32(f.handlerOffset + f.handlerLength);
    OffOrder(t, code, Lookup(t, code, f.tryOffset), Lookup(t, code, tryEnd));
    OffOrder(t, code, Lookup(t, code, handlerEnd), Lookup(t, code, f.handlerOffset));
  }

  // ---------- regions survive the probes ----------

  /** The enter probe lies outside every region, and every instruction keeps its regions. */
  lemma {:induction false} EnterKeepsRegions(c: Clause, e: nat, n: nat, i: nat)
    requires c.WellFormed(n) && i <= n
    ensures ShiftClause(c, 0, e).InTry(i + e) <==> c.InTry(i)
    ensures ShiftClause(c, 0, e).InHandler(i + e) <==> c.InHandler(i)
    ensures i < e ==> !ShiftClause(c, 0, e).InTry(i) && !ShiftClause(c, 0, e).InHandler(i)
  {
  }

  /** After the exit loop an instruction lies in a region exactly when it did before. */
  lemma {:induction false} ExitKeepsRegions(code: seq<Instr>, m: nat, c: Clause, i: nat)
    requires c.WellFormed(|code|) && i <= |code|
    ensures MovedClause(code, m, |code|, c).InTry(Moved(code, m, |code|, i)) <==> c.InTry(i)
    ensures MovedClause(code, m, |code|, c).InHandler(Moved(code, m, |code|, i)) <==> c.InHandler(i)
  {
    hide Moved;
    MovedOrder(code, m, c.tryBegin, i);
    MovedOrder(code, m, c.tryEnd, i);
    MovedOrder(code, m, c.handlerBegin, i);
    MovedOrder(code, m, c.handlerEnd, i);
  }

  lemma {:induction false} MovedOrder(code: seq<Instr>, m: nat, a: nat, i: nat)
    requires a <= |code| && i <= |code|
    ensures Moved(code, m, |code|, a) <= Moved(code, m, |code|, i) <==> a <= i
    ensures Moved(code, m, |code|, i) <= Moved(code, m, |code|, a) <==> i <= a
    ensures i < |code| && code[i].op == CEE_RET ==>
            (Moved(code, m, |code|, i) + m < Moved(code, m, |code|, a) <==> i < a)
  {
    hide Moved;
    if a < i {
      MovedStrict(code, m, |code|, a, i);
    } else if i < a {
      MovedStrict(code, m, |code|, i, a);
    }
  }

  /** The epilog of a RET lies in the try regions of that RET, and in its handlers exactly when
      the RET is not the handler's last instruction. */
  lemma {:induction false} EpilogRegions(code: seq<Instr>, m: nat, c: Clause, i: nat, j: nat)
    requires c.WellFormed(|code|) && i < |code| && code[i].op == CEE_RET && 0 < j <= m
    ensures MovedClause(code, m, |code|, c).InTry(Moved(code, m, |code|, i) + j) <==> c.InTry(i)
    ensures MovedClause(code, m, |code|, c).InHandler(Moved(code, m, |code|, i) + j) <==>
            c.InHandler(i) && i != c.handlerEnd
  {
    hide Moved;
    MovedOrder(code, m, c.handlerEnd, i);
    RetOrder(code, m, c.tryBegin, i, j);
    RetOrder(code, m, c.tryEnd, i, j);
    RetOrder(code, m, c.handlerBegin, i, j);
  }

  /** No node of the original stands between a RET and the end of its epilog. */
  lemma {:induction false} RetOrder(code: seq<Instr>, m: nat, a: nat, i: nat, j: nat)
    requires a <= |code| && i < |code| && code[i].op == CEE_RET && j <= m
    ensures Moved(code, m, |code|, a) <= Moved(code, m, |code|, i) + j <==> a <= i
  {
    hide Moved;
    MovedOrder(code, m, a, i);
  }

  /** In the exported table: an instruction's offset lies in a clause's byte range exactly when
      the instruction lies in the region. */
  lemma {:induction false} ExportedRanges(t: OpcodeTable, code: seq<Instr>, c: Clause, i: nat)
    requires t.Valid() && NoEmpty(t, code) && Off(t, code, |code|) < CODE_LIMIT && c.WellFormed(|code|) && i <= |code|
    ensures var f := ExportClause(t, code, c); var o := Off(t, code, i);
            && (f.tryOffset <= o < f.tryOffset + f.tryLength <==> c.InTry(i))
            && (f.handlerOffset <= o < f.handlerOffset + f.handlerLength <==> c.InHandler(i))
  {
    hide Off;
    OffOrder(t, code, c.tryBegin, i);
    OffOrder(t, code, c.tryEnd, i);
    OffOrder(t, code, c.handlerBegin, i);
    OffOrder(t, code, c.handlerEnd + 1, i);
    OffOrder(t, code, c.tryBegin, c.tryEnd);
    OffOrder(t, code, c.handlerBegin, c.handlerEnd + 1);
  }

  lemma {:induction false} OffOrder(t: OpcodeTable, code: seq<Instr>, a: nat, b: nat)
    requires t.Valid() && NoEmpty(t, code) && a <= |code| && b <= |code|
    ensures Off(t, code, a) <= Off(t, code, b) <==> a <= b
    ensures Off(t, code, a) <= Off(t, code, |code|)
  {
    OffMonotone(t, code, a, |code|);
    if a < b {
      OffStrict(t, code, a, b);
    } else if b < a {
      OffStrict(t, code, b, a);
    }
  }
}
