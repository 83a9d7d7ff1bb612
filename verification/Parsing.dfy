/** Reading a list back from bytes. */
module Parsing {
  import opened Bytes
  import opened Opcodes
  import opened Listing
  import opened Layout

  /** An opcode and the offset of its operand. */
  datatype Opcode = Opcode(op: nat, operand: nat)

  /** Instructions read from one offset, and the offset behind them. */
  datatype Chunk = Chunk(code: seq<Instr>, next: nat)

  function DecodeOpcode(t: OpcodeTable, il: seq<Byte>, o: nat): (r: Option<Opcode>)
    requires t.Valid() && o < |il|
    ensures r.Some? ==> t.Decodable(r.value.op) && o < r.value.operand <= |il|
    ensures r.Some? ==> il[o..r.value.operand] == t.OpcodeBytes(r.value.op)
  {
    if il[o] == CEE_PREFIX1 then
      if o + 1 >= |il| then None
      else
        var low: nat := il[o + 1];
        if t.Decodable(0x100 + low) then Some(Opcode(0x100 + low, o + 2)) else None
    else if t.Decodable(il[o]) then Some(Opcode(il[o], o + 1))
    else None
  }

  /** Decoding fails exactly for an unsupported prefix, a lone lead byte and an opcode behind the last. */
  lemma {:induction false} DecodeFailsExactly(t: OpcodeTable, il: seq<Byte>, o: nat)
    requires t.Valid() && o < |il|
    ensures DecodeOpcode(t, il, o).None? <==>
            || 0xF8 <= il[o] <= 0xFD
            || (il[o] == 0xFE && (o + 1 == |il| || 0x100 + il[o + 1] >= |t.flags|))
  {
  }

  /** What it reads: one byte, or the lead byte 0xFE and another one. */
  lemma {:induction false} DecodedOpcode(t: OpcodeTable, il: seq<Byte>, o: nat)
    requires t.Valid() && o < |il| && DecodeOpcode(t, il, o).Some?
    ensures il[o] != 0xFE ==> DecodeOpcode(t, il, o).value == Opcode(il[o], o + 1)
    ensures il[o] == 0xFE ==>
              o + 1 < |il| && var low: nat := il[o + 1]; DecodeOpcode(t, il, o).value == Opcode(0x100 + low, o + 2)
  {
  }

  /** Word i of a table starting at offset o. */
  function Word(il: seq<Byte>, o: nat): (w: nat)
    requires o + 4 <= |il|
    ensures w < TWO_32
  {
    Pow256Values();
    FromLE(il[o..o + 4])
  }

  /** The first n entries of the switch table at offset o; targets are still byte offsets. */
  function ReadTable(t: OpcodeTable, il: seq<Byte>, o: nat, n: nat, switchBase: nat): (r: seq<Instr>)
    requires o + 4 * n <= |il|
    ensures |r| == n
  {
    if n == 0 then []
    else
      ReadTable(t, il, o, n - 1, switchBase) +
      [Instr(t.SwitchArg(), Low32(switchBase + Word(il, o + 4 * (n - 1))), NONE)]
  }

  /** The instruction op whose operand starts at k, a switch with its whole table. Jump operands are
      kept as target offsets. */
  function ReadOperand(t: OpcodeTable, il: seq<Byte>, op: nat, k: nat): (r: Option<Chunk>)
    requires t.Valid() && k <= |il|
    ensures r.Some? ==> k <= r.value.next <= |il| && |r.value.code| > 0
  {
    match t.FlagsOf(op)
    case Plain(n) =>
      if k + n > |il| then None else Some(Chunk([Instr(op, FromLE(il[k..k + n]), NONE)], k + n))
    case ShortBranch =>
      if k + 1 > |il| then None else Some(Chunk([Instr(op, Low32(k + 1 + Int8(il[k])), NONE)], k + 1))
    case LongBranch =>
      if k + 4 > |il| then None else Some(Chunk([Instr(op, Low32(k + 4 + Word(il, k)), NONE)], k + 4))
    case SwitchTable =>
      if k + 4 > |il| then None
      else
        var n := Word(il, k);
        if k + 4 + 4 * n > |il| then None
        else Some(Chunk([Instr(op, n, NONE)] + ReadTable(t, il, k + 4, n, k + 4 + 4 * n), k + 4 + 4 * n))
  }

  /** One instruction. */
  function ReadInstr(t: OpcodeTable, il: seq<Byte>, o: nat): (r: Option<Chunk>)
    requires t.Valid() && o < |il|
    ensures r.Some? ==> o < r.value.next <= |il| && |r.value.code| > 0
  {
    match DecodeOpcode(t, il, o)
    case None => None
    case Some(Opcode(op, k)) => ReadOperand(t, il, op, k)
  }

  /** The list as it stands before jump operands are turned into pointers. */
  function ReadFrom(t: OpcodeTable, il: seq<Byte>, o: nat): (r: Option<seq<Instr>>)
    requires t.Valid() && o <= |il|
    decreases |il| - o
  {
    if o == |il| then Some([])
    else
      match ReadInstr(t, il, o)
      case None => None
      case Some(Chunk(code, next)) =>
        match ReadFrom(t, il, next)
        case None => None
        case Some(rest) => Some(code + rest)
  }

  // ---------- what is accepted ----------

  /** An instruction reaches from o to next, in terms of the bytes and of the operand kinds alone. */
  ghost predicate Cut(t: OpcodeTable, il: seq<Byte>, o: nat, next: nat) {
    && o < next <= |il| && !(0xF8 <= il[o] <= 0xFD) && (il[o] == 0xFE ==> o + 1 < |il|)
    && var low: nat := if il[o] == 0xFE then il[o + 1] else il[o];
       var op, k := if il[o] == 0xFE then 0x100 + low else low, if il[o] == 0xFE then o + 2 else o + 1;
       && op < |t.flags|
       && match t.flags[op]
          case Plain(n) => next == k + n
          case ShortBranch => next == k + 1
          case LongBranch => next == k + 4
          case SwitchTable =>
            && k + 4 <= |il|
            && next == k + 4 + 4 * WordOf(il[k], il[k + 1], il[k + 2], il[k + 3])
  }

  /** The bytes from o on fall into instructions that end with the code. */
  ghost predicate Cuts(t: OpcodeTable, il: seq<Byte>, o: nat, cuts: seq<nat>) {
    && |cuts| > 0 && cuts[0] == o && cuts[|cuts| - 1] == |il|
    && forall i {:trigger cuts[i]} | 0 < i < |cuts| :: Cut(t, il, cuts[i - 1], cuts[i])
  }

  lemma {:induction false} ReadsCut(t: OpcodeTable, il: seq<Byte>, o: nat, next: nat)
    requires t.Valid() && o < |il|
    ensures ReadInstr(t, il, o).Some? && ReadInstr(t, il, o).value.next == next <==> Cut(t, il, o, next)
  {
    hide FromLE, ReadTable, OpcodeTable.Decodable, DecodeOpcode;
    DecodeFailsExactly(t, il, o);
    if DecodeOpcode(t, il, o).Some? {
      DecodedOpcode(t, il, o);
      var Opcode(op, k) := DecodeOpcode(t, il, o).value;
      assert op < |t.flags| && t.FlagsOf(op) == t.flags[op];
      if k + 4 <= |il| {
        WordBytes(0, il[k..k + 4]);
      }
    }
  }

  /** The importer accepts exactly the code that falls into whole instructions. */
  lemma {:induction false} AcceptsExactlyCuts(t: OpcodeTable, il: seq<Byte>, o: nat)
    requires t.Valid() && o <= |il|
    ensures ReadFrom(t, il, o).Some? <==> exists cuts: seq<nat> :: Cuts(t, il, o, cuts)
    decreases |il| - o
  {
    hide ReadInstr, Cut;
    if o == |il| {
      assert Cuts(t, il, o, [o]);
    } else {
      if ReadFrom(t, il, o).Some? {
        var next := ReadInstr(t, il, o).value.next;
        ReadsCut(t, il, o, next);
        AcceptsExactlyCuts(t, il, next);
        var rest: seq<nat> :| Cuts(t, il, next, rest);
        CutsLonger(t, il, o, rest);
      }
      if cuts: seq<nat> :| Cuts(t, il, o, cuts) {
        CutsTail(t, il, o, cuts);
        ReadsCut(t, il, o, cuts[1]);
        AcceptsExactlyCuts(t, il, cuts[1]);
      }
    }
  }

  lemma {:induction false} CutsLonger(t: OpcodeTable, il: seq<Byte>, o: nat, rest: seq<nat>)
    requires |rest| > 0 && Cut(t, il, o, rest[0]) && Cuts(t, il, rest[0], rest)
    ensures Cuts(t, il, o, [o] + rest)
  {
    hide Cut;
    var cuts := [o] + rest;
    forall i {:trigger cuts[i]} | 0 < i < |cuts|
      ensures Cut(t, il, cuts[i - 1], cuts[i])
    {
      assert cuts[i] == rest[i - 1];
    }
  }

  lemma {:induction false} CutsTail(t: OpcodeTable, il: seq<Byte>, o: nat, cuts: seq<nat>)
    requires Cuts(t, il, o, cuts) && o < |il|
    ensures |cuts| > 1 && Cut(t, il, o, cuts[1]) && Cuts(t, il, cuts[1], cuts[1..])
  {
    hide Cut;
    var rest := cuts[1..];
    forall i {:trigger rest[i]} | 0 < i < |rest|
      ensures Cut(t, il, rest[i - 1], rest[i])
    {
      assert rest[i] == cuts[i + 1] && rest[i - 1] == cuts[i];
    }
  }

  // ---------- the offset table ----------

  /** Position i can be a jump target and stands at offset o. */
  predicate StartsAt(t: OpcodeTable, code: seq<Instr>, i: nat, o: nat)
    requires t.Valid() && i <= |code|
  {
    Off(t, code, i) == o && (i < |code| ==> code[i].op != t.SwitchArg())
  }

  /** What the offset table holds for byte offset o: the node that starts there, or null. */
  ghost function Lookup(t: OpcodeTable, code: seq<Instr>, o: nat): (pos: int)
    requires t.Valid()
    ensures pos == NONE || (0 <= pos <= |code| && StartsAt(t, code, pos, o))
    ensures pos == NONE ==> forall i | 0 <= i <= |code| :: !StartsAt(t, code, i, o)
  {
    if i :| 0 <= i <= |code| && StartsAt(t, code, i, o) then i else NONE
  }

  /** The instruction once its target offset is resolved; the pointer overwrites the operand. */
  ghost function Resolve(t: OpcodeTable, code: seq<Instr>, x: Instr): Instr
    requires t.Valid()
  {
    if t.IsBranch(x.op) then Instr(x.op, 0, Lookup(t, code, x.arg)) else x
  }

  ghost function ResolveAll(t: OpcodeTable, code: seq<Instr>): (r: seq<Instr>)
    requires t.Valid()
    ensures |r| == |code|
  {
    seq(|code|, i requires 0 <= i < |code| => Resolve(t, code, code[i]))
  }

  /** The result of importing a code body: None when the importer rejects it. */
  ghost function Parse(t: OpcodeTable, il: seq<Byte>): Option<seq<Instr>>
    requires t.Valid()
  {
    match ReadFrom(t, il, 0)
    case None => None
    case Some(code) => Some(ResolveAll(t, code))
  }

  // ---------- exactness ----------

  lemma {:induction false} OffConcat(t: OpcodeTable, a: seq<Instr>, b: seq<Instr>, i: nat)
    requires t.Valid() && i <= |b|
    ensures Off(t, a + b, |a| + i) == Off(t, a, |a|) + Off(t, b, i)
  {
    hide OpcodeTable.Size, OpcodeTable.Valid;
    if i == 0 {
      OffFrame(t, a + b, a, |a|);
    } else {
      OffConcat(t, a, b, i - 1);
      assert (a + b)[|a| + i - 1] == b[i - 1];
    }
  }

  lemma {:induction false} ReadTableFacts(t: OpcodeTable, il: seq<Byte>, o: nat, n: nat, switchBase: nat)
    requires t.Valid() && o + 4 * n <= |il|
    ensures var r := ReadTable(t, il, o, n, switchBase);
            && Off(t, r, n) == 4 * n
            && forall j {:trigger r[j]} | 0 <= j < n ::
                 r[j] == Instr(t.SwitchArg(), Low32(switchBase + Word(il, o + 4 * j)), NONE)
  {
    if n > 0 {
      ReadTableFacts(t, il, o, n - 1, switchBase);
      OffFrame(t, ReadTable(t, il, o, n, switchBase), ReadTable(t, il, o, n - 1, switchBase), n - 1);
    }
  }

  /** A one-instruction list is as long as its instruction. */
  lemma {:induction false} OffSingle(t: OpcodeTable, x: Instr)
    requires t.Valid()
    ensures Off(t, [x], 1) == t.Size(x.op)
  {
    assert Off(t, [x], 1) == Off(t, [x], 0) + t.Size([x][0].op);
  }

  /** What one step consumes is what its instructions will be laid out as. */
  lemma {:induction false} ReadInstrExact(t: OpcodeTable, il: seq<Byte>, o: nat)
    requires t.Valid() && o < |il| && ReadInstr(t, il, o).Some?
    ensures var c := ReadInstr(t, il, o).value; o + Off(t, c.code, |c.code|) == c.next
  {
    hide Off, OffOf, ReadTable, Word, FromLE, DecodeOpcode;
    var c := ReadInstr(t, il, o).value;
    var Opcode(op, k) := DecodeOpcode(t, il, o).value;
    OffSingle(t, c.code[0]);
    assert k == o + |t.OpcodeBytes(op)|;
    if t.FlagsOf(op).SwitchTable? {
      var n := Word(il, k);
      var table := ReadTable(t, il, k + 4, n, k + 4 + 4 * n);
      ReadTableFacts(t, il, k + 4, n, k + 4 + 4 * n);
      OffConcat(t, [Instr(op, n, NONE)], table, n);
    } else {
      assert c.code == [c.code[0]];
    }
  }

  /** A list read successfully covers the bytes exactly. */
  lemma {:induction false} ReadFromExact(t: OpcodeTable, il: seq<Byte>, o: nat)
    requires t.Valid() && o <= |il| && ReadFrom(t, il, o).Some?
    ensures var code := ReadFrom(t, il, o).value; o + Off(t, code, |code|) == |il|
    decreases |il| - o
  {
    hide ReadInstr;
    if o < |il| {
      var Chunk(code, next) := ReadInstr(t, il, o).value;
      ReadInstrExact(t, il, o);
      ReadFromExact(t, il, next);
      OffConcat(t, code, ReadFrom(t, il, next).value, |ReadFrom(t, il, next).value|);
    }
  }

  // ---------- switch tables ----------

  lemma {:induction false} PendingConcat(t: OpcodeTable, a: seq<Instr>, b: seq<Instr>, i: nat)
    requires i <= |b| && Pending(t, a, |a|) == 0
    ensures Pending(t, a + b, |a| + i) == Pending(t, b, i)
  {
    if i == 0 {
      PendingFrame(t, a + b, a, |a|);
    } else {
      PendingConcat(t, a, b, i - 1);
      assert (a + b)[|a| + i - 1] == b[i - 1];
    }
  }

  /** Table structure depends on opcodes and table sizes only. */
  lemma {:induction false} PendingFrame(t: OpcodeTable, a: seq<Instr>, b: seq<Instr>, i: nat)
    requires i <= |a| && i <= |b|
    requires forall k {:trigger a[k]} {:trigger b[k]} | 0 <= k < i ::
               a[k].op == b[k].op && (a[k].op == CEE_SWITCH ==> a[k].arg == b[k].arg)
    ensures Pending(t, a, i) == Pending(t, b, i)
  {
    if i > 0 {
      PendingFrame(t, a, b, i - 1);
    }
  }

  lemma {:induction false} IntactConcat(t: OpcodeTable, a: seq<Instr>, b: seq<Instr>)
    requires TablesIntact(t, a) && TablesIntact(t, b)
    ensures TablesIntact(t, a + b)
  {
    var c := a + b;
    forall i | 0 <= i < |c|
      ensures EntryDue(t, c, i)
    {
      if i < |a| {
        assert EntryDue(t, a, i);
        PendingFrame(t, c, a, i);
      } else {
        assert EntryDue(t, b, i - |a|);
        PendingConcat(t, a, b, i - |a|);
      }
    }
    PendingConcat(t, a, b, |b|);
  }

  lemma {:induction false} TablePending(t: OpcodeTable, c: seq<Instr>, j: nat)
    requires t.Valid() && 0 < j <= |c| && c[0].op == CEE_SWITCH && c[0].arg == |c| - 1
    requires forall k {:trigger c[k]} | 1 <= k < |c| :: c[k].op == t.SwitchArg()
    ensures Pending(t, c, j) == |c| - j
  {
    if j > 1 {
      TablePending(t, c, j - 1);
      assert c[j - 1].op == t.SwitchArg();
    }
  }

  /** One step reads an instruction with its whole table, or a single other instruction. */
  lemma {:induction false} ReadInstrIntact(t: OpcodeTable, il: seq<Byte>, o: nat)
    requires t.Valid() && o < |il| && ReadInstr(t, il, o).Some?
    ensures TablesIntact(t, ReadInstr(t, il, o).value.code)
  {
    hide Word, FromLE, ReadTable;
    var c := ReadInstr(t, il, o).value.code;
    var Opcode(op, k) := DecodeOpcode(t, il, o).value;
    assert op < t.Count();
    if t.FlagsOf(op).SwitchTable? {
      assert t.flags[op].SwitchTable?;
      var n := Word(il, k);
      ReadTableFacts(t, il, k + 4, n, k + 4 + 4 * n);
      assert forall j | 1 <= j < |c| :: c[j] == ReadTable(t, il, k + 4, n, k + 4 + 4 * n)[j - 1];
      forall i | 0 <= i < |c|
        ensures EntryDue(t, c, i)
      {
        if i > 0 {
          TablePending(t, c, i);
        }
      }
      TablePending(t, c, |c|);
    } else {
      assert !t.flags[op].SwitchTable?;
      assert |c| == 1 && c[0].op == op && Pending(t, c, 1) == 0;
      forall i | 0 <= i < |c|
        ensures EntryDue(t, c, i)
      {
      }
    }
  }

  lemma {:induction false} ReadFromIntact(t: OpcodeTable, il: seq<Byte>, o: nat)
    requires t.Valid() && o <= |il| && ReadFrom(t, il, o).Some?
    ensures TablesIntact(t, ReadFrom(t, il, o).value)
    decreases |il| - o
  {
    hide ReadInstr, TablesIntact;
    if o < |il| {
      var Chunk(code, next) := ReadInstr(t, il, o).value;
      ReadInstrIntact(t, il, o);
      ReadFromIntact(t, il, next);
      IntactConcat(t, code, ReadFrom(t, il, next).value);
    } else {
      EmptyIntact(t);
    }
  }

  lemma {:induction false} EmptyIntact(t: OpcodeTable)
    ensures TablesIntact(t, [])
  {
  }

  // ---------- well-typedness ----------

  /** Operands fit their width; a jump operand is a 32-bit offset. */
  ghost predicate RawTyped(t: OpcodeTable, x: Instr) {
    && (t.Decodable(x.op) || x.op == t.SwitchArg())
    && x.target == NONE
    && match t.FlagsOf(x.op)
       case Plain(n) => x.arg < Pow256(n)
       case _ => x.arg < TWO_32
  }

  lemma {:induction false} ReadInstrTyped(t: OpcodeTable, il: seq<Byte>, o: nat)
    requires t.Valid() && o < |il| && ReadInstr(t, il, o).Some?
    ensures forall x {:trigger RawTyped(t, x)} | x in ReadInstr(t, il, o).value.code :: RawTyped(t, x)
  {
    hide Pow256;
    var c := ReadInstr(t, il, o).value.code;
    var Opcode(op, k) := DecodeOpcode(t, il, o).value;
    if t.FlagsOf(op).SwitchTable? {
      var n := Word(il, k);
      ReadTableFacts(t, il, k + 4, n, k + 4 + 4 * n);
    }
  }

  lemma {:induction false} ReadFromTyped(t: OpcodeTable, il: seq<Byte>, o: nat)
    requires t.Valid() && o <= |il| && ReadFrom(t, il, o).Some?
    ensures forall x {:trigger RawTyped(t, x)} | x in ReadFrom(t, il, o).value :: RawTyped(t, x)
    decreases |il| - o
  {
    hide ReadInstr, RawTyped;
    if o < |il| {
      var Chunk(code, next) := ReadInstr(t, il, o).value;
      ReadInstrTyped(t, il, o);
      ReadFromTyped(t, il, next);
    }
  }

  lemma {:induction false} TargetStarts(t: OpcodeTable, raw: seq<Instr>, i: nat)
    requires t.Valid() && i < |raw| && t.IsBranch(raw[i].op) && Resolved(t, ResolveAll(t, raw))
    ensures var target := ResolveAll(t, raw)[i].target;
            0 <= target <= |raw| && (target < |raw| ==> ResolveAll(t, raw)[target].op != t.SwitchArg())
  {
    var code := ResolveAll(t, raw);
    assert code[i] == Resolve(t, raw, raw[i]);
    assert StartsAt(t, raw, code[i].target, raw[i].arg);
  }

  /** A body the importer accepts is well formed exactly when no jump pointer came out null. */
  lemma {:induction false} ParseIsWellFormed(t: OpcodeTable, il: seq<Byte>)
    requires t.Valid() && Parse(t, il).Some?
    ensures WellFormed(t, Parse(t, il).value) <==> Resolved(t, Parse(t, il).value)
  {
    hide ReadFrom, TablesIntact, Pow256, OpcodeTable.Valid;
    var raw := ReadFrom(t, il, 0).value;
    var code := ResolveAll(t, raw);
    ReadFromTyped(t, il, 0);
    ReadFromIntact(t, il, 0);
    ResolvedKeepsTables(t, raw);
    if Resolved(t, code) {
      forall i | 0 <= i < |code|
        ensures WellTyped(t, code, i)
      {
        assert RawTyped(t, raw[i]) && code[i] == Resolve(t, raw, raw[i]);
        if t.IsBranch(raw[i].op) {
          TargetStarts(t, raw, i);
        }
      }
    }
    if WellFormed(t, code) {
      forall i {:trigger code[i]} | 0 <= i < |code| && t.IsBranch(code[i].op)
        ensures 0 <= code[i].target <= |code|
      {
        assert WellTyped(t, code, i);
      }
    }
  }

  lemma {:induction false} ResolvedKeepsTables(t: OpcodeTable, raw: seq<Instr>)
    requires t.Valid() && TablesIntact(t, raw)
    ensures TablesIntact(t, ResolveAll(t, raw))
  {
    hide Lookup;
    var code := ResolveAll(t, raw);
    assert t.flags[CEE_SWITCH].SwitchTable?;
    forall i | 0 <= i <= |code|
      ensures Pending(t, code, i) == Pending(t, raw, i)
    {
      PendingFrame(t, code, raw, i);
    }
    forall i | 0 <= i < |code|
      ensures EntryDue(t, code, i)
    {
      assert EntryDue(t, raw, i);
    }
  }

  // ---------- the offset table, exactly ----------

  /** Exactly the instruction starts and the end of the method have a node, in list order. */
  lemma {:induction false} LookupIsExact(t: OpcodeTable, code: seq<Instr>, i: nat)
    requires t.Valid() && i <= |code| && NoEmpty(t, code)
    requires i < |code| ==> code[i].op != t.SwitchArg()
    ensures Lookup(t, code, Off(t, code, i)) == i
  {
    var pos := Lookup(t, code, Off(t, code, i));
    assert StartsAt(t, code, i, Off(t, code, i));
    if pos < i {
      OffStrict(t, code, pos, i);
    } else if i < pos {
      OffStrict(t, code, i, pos);
    }
  }

  lemma {:induction false} LookupIsMonotone(t: OpcodeTable, code: seq<Instr>, o: nat, o': nat)
    requires t.Valid() && o < o' && Lookup(t, code, o) != NONE && Lookup(t, code, o') != NONE
    ensures Lookup(t, code, o) < Lookup(t, code, o')
  {
    if Lookup(t, code, o) >= Lookup(t, code, o') {
      OffMonotone(t, code, Lookup(t, code, o'), Lookup(t, code, o));
    }
  }

  /** Some instruction, or the end of the method, starts at offset o. */
  ghost predicate Lands(t: OpcodeTable, code: seq<Instr>, o: nat)
    requires t.Valid()
  {
    exists k :: 0 <= k <= |code| && StartsAt(t, code, k, o)
  }

  ghost predicate AllLand(t: OpcodeTable, raw: seq<Instr>)
    requires t.Valid()
  {
    forall i {:trigger raw[i]} | 0 <= i < |raw| && t.IsBranch(raw[i].op) :: Lands(t, raw, raw[i].arg)
  }

  /** A body's jumps are all resolved exactly when each target offset is an instruction start or the end. */
  lemma {:induction false} ResolvedIffTargetsLand(t: OpcodeTable, il: seq<Byte>)
    requires t.Valid() && Parse(t, il).Some?
    ensures Resolved(t, Parse(t, il).value) <==> AllLand(t, ReadFrom(t, il, 0).value)
  {
    var raw := ReadFrom(t, il, 0).value;
    var code := ResolveAll(t, raw);
    if Resolved(t, code) {
      forall i {:trigger raw[i]} | 0 <= i < |raw| && t.IsBranch(raw[i].op)
        ensures Lands(t, raw, raw[i].arg)
      {
        assert code[i] == Resolve(t, raw, raw[i]);
      }
    }
    if AllLand(t, raw) {
      forall i {:trigger code[i]} | 0 <= i < |code| && t.IsBranch(code[i].op)
        ensures 0 <= code[i].target <= |code|
      {
        assert code[i] == Resolve(t, raw, raw[i]);
        assert Lands(t, raw, raw[i].arg);
      }
    }
  }
}
