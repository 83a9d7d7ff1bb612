/** The bytes the export writes for a laid-out list. */
module Encoding {
  import opened Bytes
  import opened Opcodes
  import opened Listing
  import opened Layout

  /** The switch base the branch pass holds when it reaches position i. */
  function SwitchBase(t: OpcodeTable, code: seq<Instr>, i: nat): nat
    requires t.Valid() && i <= |code|
  {
    if i == 0 then 0
    else if code[i - 1].op == CEE_SWITCH then Low32(Off(t, code, i - 1) + 1 + 4 * (code[i - 1].arg + 1))
    else SwitchBase(t, code, i - 1)
  }

  /** The operand bytes of the instruction at i. */
  function Operand(t: OpcodeTable, code: seq<Instr>, i: nat): (bs: seq<Byte>)
    requires t.Valid() && i < |code|
    ensures |bs| == t.OperandSize(code[i].op)
  {
    var x := code[i];
    match t.FlagsOf(x.op)
    case Plain(n) => ToLE(x.arg, n)
    case SwitchTable => ToLE(x.arg, 4)
    case ShortBranch => [Low8(Delta(t, code, i))]
    case LongBranch =>
      if x.op == t.SwitchArg() then ToLE(Low32(OffOf(t, code, x.target) - SwitchBase(t, code, i)), 4)
      else ToLE(Low32(Delta(t, code, i)), 4)
  }

  function EncodeInstr(t: OpcodeTable, code: seq<Instr>, i: nat): (bs: seq<Byte>)
    requires t.Valid() && i < |code|
    ensures |bs| == t.Size(code[i].op)
  {
    t.OpcodeBytes(code[i].op) + Operand(t, code, i)
  }

  /** The bytes of the first i instructions. */
  function Encode(t: OpcodeTable, code: seq<Instr>, i: nat): (bs: seq<Byte>)
    requires t.Valid() && i <= |code|
    ensures |bs| == Off(t, code, i)
  {
    if i == 0 then [] else Encode(t, code, i - 1) + EncodeInstr(t, code, i - 1)
  }

  lemma {:induction false} EncodePrefix(t: OpcodeTable, code: seq<Instr>, i: nat, n: nat)
    requires t.Valid() && i <= n <= |code|
    ensures Off(t, code, i) <= Off(t, code, n)
    ensures Encode(t, code, n)[..Off(t, code, i)] == Encode(t, code, i)
    decreases n
  {
    hide EncodeInstr, Off;
    if i < n {
      EncodePrefix(t, code, i, n - 1);
      var front := Encode(t, code, n - 1);
      assert Encode(t, code, n)[..|front|] == front;
      assert Encode(t, code, n)[..Off(t, code, i)] == front[..Off(t, code, i)];
    }
  }

  /** Each instruction's bytes stand at its offset. */
  lemma {:induction false} EncodeSlice(t: OpcodeTable, code: seq<Instr>, i: nat, n: nat)
    requires t.Valid() && i < n <= |code|
    ensures Off(t, code, i) <= Off(t, code, i + 1) <= Off(t, code, n)
    ensures Encode(t, code, n)[Off(t, code, i)..Off(t, code, i + 1)] == EncodeInstr(t, code, i)
  {
    hide EncodeInstr;
    EncodePrefix(t, code, i + 1, n);
    var all := Encode(t, code, n);
    assert all[Off(t, code, i)..Off(t, code, i + 1)] == all[..Off(t, code, i + 1)][Off(t, code, i)..];
  }

  /** bs stands in out at offset o. */
  predicate Holds(out: seq<Byte>, o: nat, bs: seq<Byte>) {
    o + |bs| <= |out| && out[o..o + |bs|] == bs
  }

  lemma {:induction false} HoldsExtends(out: seq<Byte>, o: nat, bs: seq<Byte>)
    requires Holds(out, o, bs)
    ensures out[..o + |bs|] == out[..o] + bs
  {
    assert out[..o + |bs|] == out[..o] + out[o..o + |bs|];
  }

  /** Conversely, bytes that agree slot by slot are the encoding. */
  lemma {:induction false} SlicesDetermineEncoding(t: OpcodeTable, code: seq<Instr>, n: nat, out: seq<Byte>)
    requires t.Valid() && n <= |code| && Off(t, code, n) <= |out|
    requires forall i | 0 <= i < n :: Holds(out, Off(t, code, i), EncodeInstr(t, code, i))
    ensures out[..Off(t, code, n)] == Encode(t, code, n)
  {
    hide EncodeInstr, Off;
    if n > 0 {
      SlicesDetermineEncoding(t, code, n - 1, out);
      HoldsExtends(out, Off(t, code, n - 1), EncodeInstr(t, code, n - 1));
    }
  }

  // ---------- switch tables ----------

  /** From any point inside a table the rest of it follows without a gap. */
  lemma {:induction false} TableFollows(t: OpcodeTable, code: seq<Instr>, i: nat)
    requires t.Valid() && TablesIntact(t, code) && i <= |code| && Pending(t, code, i) >= 0
    ensures i + Pending(t, code, i) <= |code|
    ensures Pending(t, code, i + Pending(t, code, i)) == 0
    ensures Off(t, code, i + Pending(t, code, i)) == Off(t, code, i) + 4 * Pending(t, code, i)
    ensures forall j {:trigger code[j]} | i <= j < i + Pending(t, code, i) ::
              code[j].op == t.SwitchArg() && Pending(t, code, j) == Pending(t, code, i) - (j - i)
    decreases |code| - i
  {
    if Pending(t, code, i) > 0 {
      assert i < |code|;
      assert EntryDue(t, code, i);
      TableFollows(t, code, i + 1);
    }
  }

  /** Inside a table the switch base is the offset of the first node after the table. */
  lemma {:induction false} SwitchBaseIsTableEnd(t: OpcodeTable, code: seq<Instr>, i: nat)
    requires t.Valid() && TablesIntact(t, code) && i < |code| && code[i].op == t.SwitchArg()
    ensures Pending(t, code, i) > 0 && i + Pending(t, code, i) <= |code|
    ensures SwitchBase(t, code, i) == Low32(Off(t, code, i + Pending(t, code, i)))
  {
    assert EntryDue(t, code, i);
    TableFollows(t, code, i);
    if code[i - 1].op == CEE_SWITCH {
      assert t.flags[CEE_SWITCH].SwitchTable?;
      assert t.Size(CEE_SWITCH) == 5;
    } else {
      SwitchBaseIsTableEnd(t, code, i - 1);
    }
  }

  // ---------- displacements ----------

  /** The jump operand of position i as a reader of the bytes sees it. */
  function Displacement(t: OpcodeTable, code: seq<Instr>, i: nat): int
    requires t.Valid() && i < |code| && t.IsBranch(code[i].op)
  {
    if t.FlagsOf(code[i].op).ShortBranch? then Int8(Operand(t, code, i)[0])
    else
      Pow256Values();
      Int32(FromLE(Operand(t, code, i)))
  }

  /** From base, d leads to target: always modulo 2^32, and exactly when target is within 2^31. */
  predicate LeadsTo(base: int, d: int, target: int) {
    Low32(base + d) == Low32(target) && (-TWO_31 <= target - base < TWO_31 ==> base + d == target)
  }

  lemma {:induction false} LeadsToMeans(base: int, d: int, target: int)
    ensures LeadsTo(base, d, target) <==>
            && (base + d - target) % 0x1_0000_0000 == 0
            && (-0x8000_0000 <= target - base < 0x8000_0000 ==> base + d == target)
  {
  }

  lemma {:induction false} Low32Reads(base: int, target: int)
    ensures FromLE(ToLE(Low32(target - base), 4)) < TWO_32
    ensures LeadsTo(base, Int32(FromLE(ToLE(Low32(target - base), 4))), target)
  {
    Pow256Values();
    FromToLE(Low32(target - base), 4);
  }

  lemma {:induction false} EntryDisplacement(t: OpcodeTable, code: seq<Instr>, i: nat)
    requires t.Valid() && TablesIntact(t, code) && Off(t, code, |code|) < TWO_32
    requires i < |code| && code[i].op == t.SwitchArg() && 0 <= code[i].target <= |code|
    ensures Pending(t, code, i) > 0 && i + Pending(t, code, i) <= |code|
    ensures LeadsTo(Off(t, code, i + Pending(t, code, i)), Displacement(t, code, i), Off(t, code, code[i].target))
  {
    hide SwitchBase, Off, Pending, TablesIntact, FromLE, ToLE, Pow256, LeadsTo, OpcodeTable.Valid;
    SwitchBaseIsTableEnd(t, code, i);
    OffMonotone(t, code, i + Pending(t, code, i), |code|);
    Low32Reads(SwitchBase(t, code, i), Off(t, code, code[i].target));
  }

  lemma {:induction false} BranchDisplacement(t: OpcodeTable, code: seq<Instr>, i: nat)
    requires t.Valid() && Fits(t, code)
    requires i < |code| && t.IsBranch(code[i].op) && code[i].op != t.SwitchArg() && 0 <= code[i].target <= |code|
    ensures LeadsTo(Off(t, code, i + 1), Displacement(t, code, i), Off(t, code, code[i].target))
  {
    hide SwitchBase, Off, FromLE, ToLE, Pow256;
    if t.FlagsOf(code[i].op).ShortBranch? {
      assert t.flags[code[i].op].ShortBranch?;
      assert !Overlong(t, code, i);
    } else {
      Low32Reads(Off(t, code, i + 1), Off(t, code, code[i].target));
    }
  }

  /** Once every short branch fits, each emitted displacement leads to its target: branches count
      from the end of their instruction, table entries from the end of the table. */
  lemma {:induction false} DisplacementsAreRight(t: OpcodeTable, code: seq<Instr>, i: nat)
    requires t.Valid() && Resolved(t, code) && TablesIntact(t, code) && Fits(t, code)
    requires Off(t, code, |code|) < TWO_32
    requires i < |code| && t.IsBranch(code[i].op)
    ensures code[i].op != t.SwitchArg() ==>
              LeadsTo(Off(t, code, i + 1), Displacement(t, code, i), Off(t, code, code[i].target))
    ensures code[i].op == t.SwitchArg() ==>
              && Pending(t, code, i) > 0 && i + Pending(t, code, i) <= |code|
              && LeadsTo(Off(t, code, i + Pending(t, code, i)), Displacement(t, code, i), Off(t, code, code[i].target))
  {
    hide Off, Pending, TablesIntact, Displacement, LeadsTo, OpcodeTable.Valid, OpcodeTable.IsBranch;
    if code[i].op == t.SwitchArg() {
      EntryDisplacement(t, code, i);
    } else {
      BranchDisplacement(t, code, i);
    }
  }
}
