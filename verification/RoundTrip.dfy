/** Reading and writing undo each other. */
module RoundTrip {
  import opened Bytes
  import opened Opcodes
  import opened Listing
  import opened Layout
  import opened Encoding
  import opened Parsing

  // ---------- print undoes parse ----------

  lemma {:induction false} HoldsParts(il: seq<Byte>, o: nat, k: nat, front: seq<Byte>, back: seq<Byte>)
    requires o <= k == o + |front| <= |il| && k + |back| <= |il|
    requires il[o..k] == front && il[k..k + |back|] == back
    ensures Holds(il, o, front + back)
  {
    assert il[o..k + |back|] == il[o..k] + il[k..k + |back|];
  }

  /** The operands a step reads, in place: what each instruction of the chunk is written as. */
  lemma {:induction false} PlainReprints(t: OpcodeTable, il: seq<Byte>, o: nat, code: seq<Instr>, a: nat)
    requires t.Valid() && o < |il| && ReadInstr(t, il, o).Some? && a < |code| && Off(t, code, a) == o
    requires var c := ReadInstr(t, il, o).value.code; code[a].op == c[0].op && code[a].arg == c[0].arg
    requires t.FlagsOf(code[a].op).Plain? || t.FlagsOf(code[a].op).SwitchTable?
    ensures Holds(il, o, EncodeInstr(t, code, a))
  {
    hide Off, ReadTable, ToLE, FromLE;
    var Opcode(op, k) := DecodeOpcode(t, il, o).value;
    var n := t.OperandSize(op);
    assert code[a].arg == FromLE(il[k..k + n]);
    ToFromLE(il[k..k + n]);
    HoldsParts(il, o, k, t.OpcodeBytes(op), Operand(t, code, a));
  }

  /** A jump operand read and resolved leads back to the same byte or word. */
  lemma {:induction false} ShortReprints(t: OpcodeTable, il: seq<Byte>, o: nat, code: seq<Instr>, a: nat)
    requires t.Valid() && o < |il| < CODE_LIMIT && ReadInstr(t, il, o).Some? && a < |code| && Off(t, code, a) == o
    requires var c := ReadInstr(t, il, o).value.code;
             code[a].op == c[0].op && OffOf(t, code, code[a].target) == c[0].arg <= |il|
    requires t.FlagsOf(code[a].op).ShortBranch?
    ensures !Overlong(t, code, a)
    ensures Holds(il, o, EncodeInstr(t, code, a))
  {
    hide OffOf, Low32, Low8, Int8, ToLE, FromLE, SwitchBase, ReadTable, OpcodeTable.OpcodeBytes, DecodeOpcode;
    var Opcode(op, k) := DecodeOpcode(t, il, o).value;
    assert Off(t, code, a + 1) == k + 1;
    ShortReads(k + 1, il[k], OffOf(t, code, code[a].target));
    assert Operand(t, code, a) == [il[k]] == il[k..k + 1];
    HoldsParts(il, o, k, t.OpcodeBytes(op), Operand(t, code, a));
  }

  lemma {:induction false} LongReprints(t: OpcodeTable, il: seq<Byte>, o: nat, code: seq<Instr>, a: nat)
    requires t.Valid() && o < |il| < CODE_LIMIT && ReadInstr(t, il, o).Some? && a < |code| && Off(t, code, a) == o
    requires var c := ReadInstr(t, il, o).value.code;
             code[a].op == c[0].op && OffOf(t, code, code[a].target) == c[0].arg
    requires t.FlagsOf(code[a].op).LongBranch?
    ensures !Overlong(t, code, a)
    ensures Holds(il, o, EncodeInstr(t, code, a))
  {
    hide OffOf, Low32, ToLE, FromLE, Pow256, SwitchBase;
    var Opcode(op, k) := DecodeOpcode(t, il, o).value;
    assert op < t.Count() && t.flags[op].LongBranch?;
    assert Off(t, code, a + 1) == k + 4;
    WordReads(k + 4, Word(il, k), OffOf(t, code, code[a].target));
    ToFromLE(il[k..k + 4]);
    assert Operand(t, code, a) == il[k..k + 4];
    HoldsParts(il, o, k, t.OpcodeBytes(op), Operand(t, code, a));
  }

  /** The switch base stays put inside a table. */
  lemma {:induction false} SwitchBaseInTable(t: OpcodeTable, code: seq<Instr>, a: nat, j: nat)
    requires t.Valid() && a + 1 + j < |code| && code[a].op == CEE_SWITCH
    requires forall i {:trigger code[i]} | a < i < a + 1 + j :: code[i].op == t.SwitchArg()
    ensures SwitchBase(t, code, a + 1 + j) == Low32(Off(t, code, a) + 1 + 4 * (code[a].arg + 1))
    ensures Off(t, code, a + 1 + j) == Off(t, code, a) + 5 + 4 * j
  {
    if j == 0 {
      assert t.flags[CEE_SWITCH].SwitchTable?;
    } else {
      SwitchBaseInTable(t, code, a, j - 1);
      assert code[a + j].op == t.SwitchArg();
    }
  }

  /** So does an entry of a switch table. */
  lemma {:induction false} EntryReprints(t: OpcodeTable, il: seq<Byte>, at: nat, base: nat, code: seq<Instr>, i: nat)
    requires t.Valid() && at + 4 <= |il| && i < |code| && code[i].op == t.SwitchArg()
    requires Off(t, code, i) == at && SwitchBase(t, code, i) == Low32(base)
    requires OffOf(t, code, code[i].target) == Low32(base + Word(il, at))
    ensures Holds(il, at, EncodeInstr(t, code, i))
  {
    hide OffOf, ToLE, FromLE, Pow256, Off, SwitchBase;
    assert Low32(Low32(base + Word(il, at)) - Low32(base)) == Word(il, at);
    ToFromLE(il[at..at + 4]);
    assert EncodeInstr(t, code, i) == il[at..at + 4];
  }

  lemma {:induction false} ResolveKeepsOffsets(t: OpcodeTable, raw: seq<Instr>, i: nat)
    requires t.Valid() && i <= |raw|
    ensures Off(t, ResolveAll(t, raw), i) == Off(t, raw, i)
  {
    OffFrame(t, ResolveAll(t, raw), raw, i);
  }

  /** A resolved pointer's node starts where the operand said. */
  lemma {:induction false} PointerOffset(t: OpcodeTable, raw: seq<Instr>, i: nat)
    requires t.Valid() && i < |raw| && Resolved(t, ResolveAll(t, raw)) && t.IsBranch(raw[i].op)
    ensures var code := ResolveAll(t, raw);
            OffOf(t, code, code[i].target) == raw[i].arg <= Off(t, code, |code|)
  {
    var code := ResolveAll(t, raw);
    assert code[i] == Resolve(t, raw, raw[i]);
    assert StartsAt(t, raw, code[i].target, raw[i].arg);
    ResolveKeepsOffsets(t, raw, code[i].target);
    OffMonotone(t, code, code[i].target, |code|);
  }

  /** Slot i of the code reads back as the bytes it came from, and needs no widening. */
  ghost predicate Reprints(t: OpcodeTable, il: seq<Byte>, code: seq<Instr>, i: nat)
    requires t.Valid() && i < |code|
  {
    Holds(il, Off(t, code, i), EncodeInstr(t, code, i)) && !Overlong(t, code, i)
  }

  /** The instructions raw[a..] were read by one step at offset o. */
  ghost predicate ReadHere(t: OpcodeTable, il: seq<Byte>, o: nat, raw: seq<Instr>, a: nat)
    requires t.Valid()
  {
    && o < |il| < CODE_LIMIT && ReadInstr(t, il, o).Some?
    && var c := ReadInstr(t, il, o).value.code;
       a + |c| <= |raw| && Off(t, raw, a) == o && forall i {:trigger raw[i]} | a <= i < a + |c| :: raw[i] == c[i - a]
  }

  lemma {:induction false} HeadReprints(t: OpcodeTable, il: seq<Byte>, o: nat, raw: seq<Instr>, a: nat)
    requires t.Valid() && ReadHere(t, il, o, raw, a) && Resolved(t, ResolveAll(t, raw))
    requires Off(t, raw, |raw|) == |il|
    ensures Reprints(t, il, ResolveAll(t, raw), a)
  {
    hide Off, OffOf, EncodeInstr, Lookup, ReadInstr, Overlong;
    var code := ResolveAll(t, raw);
    var c := ReadInstr(t, il, o).value.code;
    ResolveKeepsOffsets(t, raw, a);
    ResolveKeepsOffsets(t, raw, |raw|);
    assert code[a] == Resolve(t, raw, raw[a]) && raw[a] == c[0];
    var op := code[a].op;
    if t.IsBranch(op) {
      PointerOffset(t, raw, a);
      if t.FlagsOf(op).ShortBranch? {
        ShortReprints(t, il, o, code, a);
      } else {
        LongReprints(t, il, o, code, a);
      }
    } else {
      PlainReprints(t, il, o, code, a);
      NotShort(t, code, a);
    }
  }

  lemma {:induction false} NotShort(t: OpcodeTable, code: seq<Instr>, i: nat)
    requires t.Valid() && i < |code| && !t.FlagsOf(code[i].op).ShortBranch?
    ensures !Overlong(t, code, i)
  {
    if IsShort(code[i].op) {
      ShortFlags(t, code[i].op);
    }
  }

  lemma {:induction false} ShortFlags(t: OpcodeTable, op: nat)
    requires t.Valid() && IsShort(op)
    ensures t.FlagsOf(op).ShortBranch?
  {
    assert t.flags[op].ShortBranch?;
  }

  /** What a step that reads a switch table yields. */
  lemma {:induction false} SwitchChunk(t: OpcodeTable, il: seq<Byte>, o: nat)
    requires t.Valid() && o < |il| && ReadInstr(t, il, o).Some? && |ReadInstr(t, il, o).value.code| > 1
    ensures var c := ReadInstr(t, il, o).value.code;
            && c[0].op == CEE_SWITCH && c[0].arg == |c| - 1 && o + 5 + 4 * c[0].arg <= |il|
            && forall j {:trigger c[j]} | 0 < j < |c| ::
                 c[j] == Instr(t.SwitchArg(), Low32(o + 5 + 4 * c[0].arg + Word(il, o + 1 + 4 * j)), NONE)
  {
    hide FromLE, ReadTable, Low32, Word;
    var c := ReadInstr(t, il, o).value.code;
    var Opcode(op, k) := DecodeOpcode(t, il, o).value;
    assert t.flags[op].SwitchTable?;
    var n := Word(il, k);
    ReadTableFacts(t, il, k + 4, n, k + 4 + 4 * n);
    forall j {:trigger c[j]} | 0 < j < |c|
      ensures c[j] == Instr(t.SwitchArg(), Low32(o + 5 + 4 * n + Word(il, o + 1 + 4 * j)), NONE)
    {
      assert c[j] == ReadTable(t, il, k + 4, n, k + 4 + 4 * n)[j - 1];
    }
  }

  lemma {:induction false} EntriesReprint(t: OpcodeTable, il: seq<Byte>, o: nat, raw: seq<Instr>, a: nat, j: nat)
    requires t.Valid() && ReadHere(t, il, o, raw, a) && Resolved(t, ResolveAll(t, raw))
    requires Off(t, raw, |raw|) == |il| && 0 < j < |ReadInstr(t, il, o).value.code|
    ensures Reprints(t, il, ResolveAll(t, raw), a + j)
  {
    hide Off, OffOf, EncodeInstr, Lookup, Overlong, SwitchBase, ReadInstr, Low32, Word, Resolved;
    var code := ResolveAll(t, raw);
    var c := ReadInstr(t, il, o).value.code;
    SwitchChunk(t, il, o);
    var base := o + 5 + 4 * c[0].arg;
    forall i {:trigger code[i]} | a <= i < a + |c|
      ensures code[i].op == c[i - a].op && (i == a ==> code[i].arg == c[0].arg)
    {
      assert raw[i] == c[i - a] && code[i] == Resolve(t, raw, raw[i]);
      assert t.flags[CEE_SWITCH].SwitchTable?;
    }
    assert raw[a + j] == c[j];
    ResolveKeepsOffsets(t, raw, a);
    PointerOffset(t, raw, a + j);
    SwitchBaseInTable(t, code, a, j - 1);
    EntryReprints(t, il, o + 1 + 4 * j, base, code, a + j);
    NotShort(t, code, a + j);
  }

  lemma {:induction false} RestReprints(t: OpcodeTable, il: seq<Byte>, o: nat, raw: seq<Instr>, a: nat)
    requires t.Valid() && o <= |il| < CODE_LIMIT && a <= |raw| && ReadFrom(t, il, o) == Some(raw[a..])
    requires Off(t, raw, a) == o && Off(t, raw, |raw|) == |il| && Resolved(t, ResolveAll(t, raw))
    ensures forall i {:trigger Reprints(t, il, ResolveAll(t, raw), i)} | a <= i < |raw| ::
            Reprints(t, il, ResolveAll(t, raw), i)
    decreases |il| - o
  {
    hide Off, ReadInstr, Reprints, ResolveAll, Resolved;
    if o < |il| {
      var Chunk(c, next) := ReadInstr(t, il, o).value;
      var rest := ReadFrom(t, il, next).value;
      assert raw[a..] == c + rest && |raw[a..]| == |c| + |rest|;
      assert forall i {:trigger raw[i]} | a <= i < a + |c| :: raw[i] == raw[a..][i - a];
      HeadReprints(t, il, o, raw, a);
      forall i | a < i < a + |c|
        ensures Reprints(t, il, ResolveAll(t, raw), i)
      {
        EntriesReprint(t, il, o, raw, a, i - a);
      }
      assert raw[a + |c|..] == rest;
      ChunkEnd(t, il, o, raw, a);
      RestReprints(t, il, next, raw, a + |c|);
    }
  }

  lemma {:induction false} ChunkEnd(t: OpcodeTable, il: seq<Byte>, o: nat, raw: seq<Instr>, a: nat)
    requires t.Valid() && ReadHere(t, il, o, raw, a)
    ensures var Chunk(c, next) := ReadInstr(t, il, o).value; Off(t, raw, a + |c|) == next
  {
    hide ReadInstr, Off;
    var Chunk(c, next) := ReadInstr(t, il, o).value;
    ReadInstrExact(t, il, o);
    assert raw[..a + |c|] == raw[..a] + c;
    OffConcat(t, raw[..a], c, |c|);
    OffFrame(t, raw[..a], raw, a);
    OffFrame(t, raw[..a] + c, raw, a + |c|);
  }

  lemma {:induction false} OffStart(t: OpcodeTable, code: seq<Instr>)
    requires t.Valid()
    ensures Off(t, code, 0) == 0
  {
  }

  lemma {:induction false} AllReprint(t: OpcodeTable, il: seq<Byte>, code: seq<Instr>)
    requires t.Valid() && Off(t, code, |code|) == |il|
    requires forall i {:trigger Reprints(t, il, code, i)} | 0 <= i < |code| :: Reprints(t, il, code, i)
    ensures Fits(t, code) && il[..|il|] == Encode(t, code, |code|)
  {
    hide EncodeInstr, Encode;
    forall i | 0 <= i < |code|
      ensures !Overlong(t, code, i)
    {
      assert Reprints(t, il, code, i);
    }
    forall i | 0 <= i < |code|
      ensures Holds(il, Off(t, code, i), EncodeInstr(t, code, i))
    {
      assert Reprints(t, il, code, i);
    }
    SlicesDetermineEncoding(t, code, |code|, il);
  }

  /** Importing a body and exporting it unedited takes one pass and gives back its bytes. */
  lemma {:induction false} PrintUndoesParse(t: OpcodeTable, il: seq<Byte>)
    requires t.Valid() && |il| < CODE_LIMIT && Parse(t, il).Some? && Resolved(t, Parse(t, il).value)
    ensures var code := Parse(t, il).value;
            && Fits(t, code) && Relax(t, code) == code && Passes(t, code) == 1
            && Encode(t, code, |code|) == il
  {
    hide Off, Delta, Relax, Passes, ReadFrom, Fits, Encode;
    var raw := ReadFrom(t, il, 0).value;
    var code := ResolveAll(t, raw);
    ReadFromExact(t, il, 0);
    assert raw[0..] == raw;
    OffStart(t, raw);
    RestReprints(t, il, 0, raw, 0);
    ResolveKeepsOffsets(t, raw, |raw|);
    AllReprint(t, il, code);
    FittingIsFixed(t, code);
    assert il[..|il|] == il;
  }

  // ---------- parse undoes print ----------

  /** A list with its pointers turned back into target offsets. */
  function Unresolve(t: OpcodeTable, code: seq<Instr>): (r: seq<Instr>)
    requires t.Valid()
    ensures |r| == |code|
  {
    seq(|code|, i requires 0 <= i < |code| =>
      if t.IsBranch(code[i].op) then Instr(code[i].op, OffOf(t, code, code[i].target), NONE) else code[i])
  }

  /** A list that can be written: well formed, short enough, every short branch fitting. */
  ghost predicate Printable(t: OpcodeTable, code: seq<Instr>)
    requires t.Valid()
  {
    WellFormed(t, code) && Fits(t, code) && Off(t, code, |code|) < CODE_LIMIT
  }

  /** The bytes at k are instruction i of the printed list. */
  lemma {:induction false} PrintedInstr(t: OpcodeTable, code: seq<Instr>, i: nat)
    requires t.Valid() && i < |code|
    ensures var il := Encode(t, code, |code|);
            var k := Off(t, code, i) + |t.OpcodeBytes(code[i].op)|;
            && Off(t, code, i) <= k <= Off(t, code, i + 1) == k + t.OperandSize(code[i].op) <= |il|
            && il[Off(t, code, i)..k] == t.OpcodeBytes(code[i].op)
            && il[k..k + t.OperandSize(code[i].op)] == Operand(t, code, i)
  {
    hide Encode, Operand, Off, OpcodeTable.OpcodeBytes, OpcodeTable.OperandSize;
    EncodeSlice(t, code, i, |code|);
    var il, o := Encode(t, code, |code|), Off(t, code, i);
    var bs := il[o..Off(t, code, i + 1)];
    var k := |t.OpcodeBytes(code[i].op)|;
    assert bs[..k] == t.OpcodeBytes(code[i].op) && bs[k..] == Operand(t, code, i);
    assert il[o..o + k] == bs[..k] && il[o + k..Off(t, code, i + 1)] == bs[k..];
  }

  lemma {:induction false} OpcodeReads(t: OpcodeTable, il: seq<Byte>, o: nat, op: nat)
    requires t.Valid() && t.Decodable(op) && Holds(il, o, t.OpcodeBytes(op))
    ensures o < |il| && DecodeOpcode(t, il, o) == Some(Opcode(op, o + |t.OpcodeBytes(op)|))
  {
    var bs := t.OpcodeBytes(op);
    assert il[o] == il[o..o + |bs|][0];
    if op >= 0x100 {
      assert il[o + 1] == il[o..o + |bs|][1];
    }
  }

  lemma {:induction false} SimpleReads(t: OpcodeTable, code: seq<Instr>, i: nat)
    requires t.Valid() && Printable(t, code) && i < |code|
    requires code[i].op != t.SwitchArg() && !t.FlagsOf(code[i].op).SwitchTable?
    ensures Off(t, code, i) < Off(t, code, i + 1) <= Off(t, code, |code|)
    ensures ReadInstr(t, Encode(t, code, |code|), Off(t, code, i)) ==
            Some(Chunk([Unresolve(t, code)[i]], Off(t, code, i + 1)))
  {
    hide Encode, Off, Low32, Low8, Int8, FitsInt8, FromLE, ToLE, TablesIntact, SwitchBase, Pow256;
    var il := Encode(t, code, |code|);
    var op := code[i].op;
    assert WellTyped(t, code, i);
    PrintedInstr(t, code, i);
    OpcodeReads(t, il, Off(t, code, i), op);
    if t.FlagsOf(op).Plain? {
      FromToLE(code[i].arg, t.OperandSize(op));
    } else {
      BranchReads(t, code, i);
    }
  }

  lemma {:induction false} BranchReads(t: OpcodeTable, code: seq<Instr>, i: nat)
    requires t.Valid() && Printable(t, code) && i < |code|
    requires t.IsBranch(code[i].op) && code[i].op != t.SwitchArg()
    ensures var base, target := Off(t, code, i + 1), OffOf(t, code, code[i].target);
            && (t.FlagsOf(code[i].op).ShortBranch? ==>
                  Low32(base + Int8(Operand(t, code, i)[0])) == target)
            && (t.FlagsOf(code[i].op).LongBranch? ==>
                  FromLE(Operand(t, code, i)) < TWO_32 && Low32(base + FromLE(Operand(t, code, i))) == target)
  {
    hide Off, Low32, Low8, Int8, FitsInt8, FromLE, ToLE, TablesIntact, SwitchBase, Pow256;
    var base: int, target: int := Off(t, code, i + 1), OffOf(t, code, code[i].target);
    assert WellTyped(t, code, i);
    OffMonotone(t, code, i + 1, |code|);
    OffMonotone(t, code, code[i].target, |code|);
    TargetReads(base, target);
    if t.FlagsOf(code[i].op).ShortBranch? {
      assert t.flags[code[i].op].ShortBranch?;
      assert !Overlong(t, code, i);
    } else {
      Pow256Values();
      FromToLE(Low32(target - base), 4);
    }
  }

  lemma {:induction false} EntryReads(t: OpcodeTable, code: seq<Instr>, i: nat)
    requires t.Valid() && Printable(t, code) && i < |code| && code[i].op == t.SwitchArg()
    ensures 0 < Pending(t, code, i) <= |code| - i
    ensures var il := Encode(t, code, |code|);
            && Off(t, code, i) + 4 == Off(t, code, i + 1) <= |il|
            && Low32(Off(t, code, i + Pending(t, code, i)) + Word(il, Off(t, code, i))) ==
                 OffOf(t, code, code[i].target)
  {
    hide Off, Encode, Low32, FromLE, ToLE, TablesIntact, SwitchBase, Pow256, Pending;
    var il := Encode(t, code, |code|);
    assert WellTyped(t, code, i);
    PrintedInstr(t, code, i);
    SwitchBaseIsTableEnd(t, code, i);
    var base, target := Off(t, code, i + Pending(t, code, i)), OffOf(t, code, code[i].target);
    OffMonotone(t, code, i + Pending(t, code, i), |code|);
    OffMonotone(t, code, code[i].target, |code|);
    TargetReads(base, target);
    Pow256Values();
    FromToLE(Low32(target - SwitchBase(t, code, i)), 4);
    assert Word(il, Off(t, code, i)) == FromLE(Operand(t, code, i));
  }

  lemma {:induction false} UnresolvedEntry(t: OpcodeTable, code: seq<Instr>, m: nat)
    requires t.Valid() && m < |code| && code[m].op == t.SwitchArg()
    ensures Unresolve(t, code)[m] == Instr(t.SwitchArg(), OffOf(t, code, code[m].target), NONE)
  {
  }

  lemma {:induction false} TableOffset(t: OpcodeTable, code: seq<Instr>, i: nat, n: nat)
    requires t.Valid() && TablesIntact(t, code) && i < |code| && code[i].op == CEE_SWITCH
    requires n <= code[i].arg && i + 1 + n <= |code|
    ensures Off(t, code, i + 1 + n) == Off(t, code, i + 1) + 4 * n
  {
    hide TablesIntact, OpcodeTable.Valid;
    assert Pending(t, code, i + 1) == code[i].arg;
    TableFollows(t, code, i + 1);
    if n > 0 {
      TableOffset(t, code, i, n - 1);
      assert code[i + n].op == t.SwitchArg();
    }
  }

  lemma {:induction false} TableExtent(t: OpcodeTable, code: seq<Instr>, i: nat)
    requires t.Valid() && TablesIntact(t, code) && i < |code| && code[i].op == CEE_SWITCH
    ensures i + 1 + code[i].arg <= |code|
    ensures Off(t, code, i + 1) + 4 * code[i].arg == Off(t, code, i + 1 + code[i].arg) <= Off(t, code, |code|)
  {
    hide Off, TablesIntact;
    assert Pending(t, code, i + 1) == code[i].arg;
    TableFollows(t, code, i + 1);
    OffMonotone(t, code, i + 1 + code[i].arg, |code|);
  }

  /** Entry j of the table at i reads back. */
  lemma {:induction false} TableEntryReads(t: OpcodeTable, code: seq<Instr>, i: nat, j: nat)
    requires t.Valid() && Printable(t, code) && i < |code|
    requires code[i].op == CEE_SWITCH && j < code[i].arg
    ensures i + 1 + code[i].arg <= |code|
    ensures var il := Encode(t, code, |code|);
            && Off(t, code, i + 1) + 4 * j + 4 <= |il|
            && Instr(t.SwitchArg(), Low32(Off(t, code, i + 1 + code[i].arg) + Word(il, Off(t, code, i + 1) + 4 * j)),
                 NONE)
               == Unresolve(t, code)[i + 1 + j]
  {
    hide Off, OffOf, Encode, Low32, FromLE, TablesIntact, Word, WellTyped, Unresolve, Fits;
    var m := i + 1 + j;
    TableExtent(t, code, i);
    assert Pending(t, code, i + 1) == code[i].arg;
    TableFollows(t, code, i + 1);
    assert code[m].op == t.SwitchArg() && m + Pending(t, code, m) == i + 1 + code[i].arg;
    EntryReads(t, code, m);
    TableOffset(t, code, i, j);
    UnresolvedEntry(t, code, m);
  }

  /** A printed switch table reads back. */
  lemma {:induction false} TableReads(t: OpcodeTable, code: seq<Instr>, i: nat)
    requires t.Valid() && Printable(t, code) && i < |code| && code[i].op == CEE_SWITCH
    ensures i + 1 + code[i].arg <= |code|
    ensures var il := Encode(t, code, |code|);
            && Off(t, code, i + 1) + 4 * code[i].arg == Off(t, code, i + 1 + code[i].arg) <= |il|
            && ReadTable(t, il, Off(t, code, i + 1), code[i].arg, Off(t, code, i + 1 + code[i].arg))
               == Unresolve(t, code)[i + 1..i + 1 + code[i].arg]
  {
    hide Off, Encode, Low32, TablesIntact, Word, WellTyped, Unresolve, Fits, ReadTable;
    var il := Encode(t, code, |code|);
    TableExtent(t, code, i);
    var base := Off(t, code, i + 1 + code[i].arg);
    ReadTableFacts(t, il, Off(t, code, i + 1), code[i].arg, base);
    var r := ReadTable(t, il, Off(t, code, i + 1), code[i].arg, base);
    forall j | 0 <= j < code[i].arg
      ensures r[j] == Unresolve(t, code)[i + 1 + j]
    {
      TableEntryReads(t, code, i, j);
    }
  }

  lemma {:induction false} SwitchReads(t: OpcodeTable, code: seq<Instr>, i: nat)
    requires t.Valid() && Printable(t, code) && i < |code| && code[i].op == CEE_SWITCH
    ensures i + 1 + code[i].arg <= |code|
    ensures Off(t, code, i) < Off(t, code, i + 1 + code[i].arg) <= Off(t, code, |code|)
    ensures ReadInstr(t, Encode(t, code, |code|), Off(t, code, i)) ==
            Some(Chunk(Unresolve(t, code)[i..i + 1 + code[i].arg], Off(t, code, i + 1 + code[i].arg)))
  {
    hide Off, Encode, FromLE, ToLE, TablesIntact, Pow256, ReadTable;
    var il, arg := Encode(t, code, |code|), code[i].arg;
    assert WellTyped(t, code, i);
    assert t.flags[CEE_SWITCH].SwitchTable?;
    PrintedInstr(t, code, i);
    OpcodeReads(t, il, Off(t, code, i), CEE_SWITCH);
    Pow256Values();
    FromToLE(arg, 4);
    TableReads(t, code, i);
    assert Unresolve(t, code)[i..i + 1 + arg] == [code[i]] + Unresolve(t, code)[i + 1..i + 1 + arg];
  }

  lemma {:induction false} RestReads(t: OpcodeTable, code: seq<Instr>, i: nat)
    requires t.Valid() && Printable(t, code) && i <= |code| && Pending(t, code, i) == 0
    ensures Off(t, code, i) <= Off(t, code, |code|)
    ensures ReadFrom(t, Encode(t, code, |code|), Off(t, code, i)) == Some(Unresolve(t, code)[i..])
    decreases |code| - i
  {
    hide Off, Encode, ReadInstr, Unresolve, WellTyped;
    var raw := Unresolve(t, code);
    if i < |code| {
      assert EntryDue(t, code, i);
      if code[i].op == CEE_SWITCH {
        var next := i + 1 + code[i].arg;
        SwitchReads(t, code, i);
        assert Pending(t, code, i + 1) == code[i].arg;
        TableFollows(t, code, i + 1);
        RestReads(t, code, next);
        assert raw[i..] == raw[i..next] + raw[next..];
      } else {
        assert t.FlagsOf(code[i].op) != SwitchTable by {
          assert code[i].op < t.Count() ==> !t.flags[code[i].op].SwitchTable?;
        }
        SimpleReads(t, code, i);
        RestReads(t, code, i + 1);
        assert raw[i..] == [raw[i]] + raw[i + 1..];
      }
    } else {
      assert raw[i..] == [];
    }
  }

  /** Reading a printed list gives the list back, pointers included. */
  lemma {:induction false} ParseUndoesPrint(t: OpcodeTable, code: seq<Instr>)
    requires t.Valid() && Printable(t, code)
    ensures Parse(t, Encode(t, code, |code|)) == Some(code)
  {
    hide Off, Encode, ReadFrom, Fits, TablesIntact;
    var raw := Unresolve(t, code);
    OffStart(t, code);
    RestReads(t, code, 0);
    assert raw[0..] == raw;
    forall i | 0 <= i < |code|
      ensures Resolve(t, raw, raw[i]) == code[i]
    {
      assert WellTyped(t, code, i);
      if t.IsBranch(code[i].op) {
        PointerReads(t, code, i);
      }
    }
    assert ResolveAll(t, raw) == code;
  }

  lemma {:induction false} PointerReads(t: OpcodeTable, code: seq<Instr>, i: nat)
    requires t.Valid() && Printable(t, code) && i < |code| && t.IsBranch(code[i].op)
    ensures Lookup(t, Unresolve(t, code), OffOf(t, code, code[i].target)) == code[i].target
  {
    hide Off, Lookup, Fits, TablesIntact;
    var raw, target := Unresolve(t, code), code[i].target;
    assert WellTyped(t, code, i);
    OffFrame(t, raw, code, target);
    forall k {:trigger raw[k]} | 0 <= k < |raw|
      ensures raw[k].op != t.Count()
    {
      assert WellTyped(t, code, k);
    }
    LookupIsExact(t, raw, target);
  }
}
