/** The opcode table. Numbers are those of ECMA-335, section III.1.2.1. */
module Opcodes {
  import opened Bytes

  const CEE_NOP: nat := 0x00
  const CEE_LDC_I4: nat := 0x20
  const CEE_CALL: nat := 0x28
  const CEE_RET: nat := 0x2A
  const CEE_BR_S: nat := 0x2B
  const CEE_BLT_UN_S: nat := 0x37
  const CEE_BR: nat := 0x38
  const CEE_BLT_UN: nat := 0x44
  const CEE_SWITCH: nat := 0x45
  const CEE_ENDFINALLY: nat := 0xDC
  const CEE_LEAVE: nat := 0xDD
  const CEE_LEAVE_S: nat := 0xDE
  const CEE_PREFIX7: nat := 0xF8
  const CEE_PREFIX2: nat := 0xFD
  const CEE_PREFIX1: nat := 0xFE

  /** The flag byte of an opcode: an operand size, or a kind of jump operand. */
  datatype Flags = Plain(size: nat) | ShortBranch | LongBranch | SwitchTable

  predicate IsShort(op: nat) {
    CEE_BR_S <= op <= CEE_BLT_UN_S || op == CEE_LEAVE_S
  }

  /** The long form of a short branch. */
  function Widen(op: nat): (r: nat)
    requires IsShort(op)
    ensures CEE_BR <= r <= CEE_BLT_UN || r == CEE_LEAVE
    ensures !IsShort(r)
  {
    if op == CEE_LEAVE_S then CEE_LEAVE else op - CEE_BR_S + CEE_BR
  }

  /** When a branch is taken (section III.1.2.1 of ECMA-335 numbers both forms of each). */
  datatype Condition = Always | IfFalse | IfTrue | IfEq | IfGe | IfGt | IfLe | IfLt
                     | IfNeUn | IfGeUn | IfGtUn | IfLeUn | IfLtUn | Leaving

  function ConditionOf(op: nat): Option<Condition> {
    match op
    case 0x2B => Some(Always)
    case 0x38 => Some(Always)
    case 0x2C => Some(IfFalse)
    case 0x39 => Some(IfFalse)
    case 0x2D => Some(IfTrue)
    case 0x3A => Some(IfTrue)
    case 0x2E => Some(IfEq)
    case 0x3B => Some(IfEq)
    case 0x2F => Some(IfGe)
    case 0x3C => Some(IfGe)
    case 0x30 => Some(IfGt)
    case 0x3D => Some(IfGt)
    case 0x31 => Some(IfLe)
    case 0x3E => Some(IfLe)
    case 0x32 => Some(IfLt)
    case 0x3F => Some(IfLt)
    case 0x33 => Some(IfNeUn)
    case 0x40 => Some(IfNeUn)
    case 0x34 => Some(IfGeUn)
    case 0x41 => Some(IfGeUn)
    case 0x35 => Some(IfGtUn)
    case 0x42 => Some(IfGtUn)
    case 0x36 => Some(IfLeUn)
    case 0x43 => Some(IfLeUn)
    case 0x37 => Some(IfLtUn)
    case 0x44 => Some(IfLtUn)
    case 0xDE => Some(Leaving)
    case 0xDD => Some(Leaving)
    case _ => None
  }

  /** What an instruction does, whichever width its displacement has: a branch of some condition, or
      the operation of its opcode. */
  datatype Action = Branch(condition: Condition) | Operation(op: nat)

  function ActionOf(op: nat): Action {
    match ConditionOf(op)
    case Some(c) => Branch(c)
    case None => Operation(op)
  }

  /** The two columns of opcode.def the rewriter reads: operand flags and stack pushes. */
  datatype OpcodeTable = OpcodeTable(flags: seq<Flags>, pushes: seq<nat>) {

    ghost predicate Valid() {
      && 0x100 < |flags| <= 0x200
      && |pushes| == |flags|
      && (forall op {:trigger flags[op]} | 0 <= op < |flags| ::
            && (flags[op].Plain? ==> flags[op].size in {0, 1, 2, 4, 8})
            && (flags[op].ShortBranch? <==> IsShort(op))
            && (flags[op].SwitchTable? <==> op == CEE_SWITCH)
            && (flags[op].LongBranch? <==> CEE_BR <= op <= CEE_BLT_UN || op == CEE_LEAVE)
            && (flags[op].ShortBranch? || flags[op].LongBranch? ==> pushes[op] == 0))
      && flags[CEE_NOP] == flags[CEE_RET] == Plain(0)
      && flags[CEE_LDC_I4] == flags[CEE_CALL] == Plain(4)
      && pushes[CEE_LDC_I4] == 1 && pushes[CEE_NOP] == pushes[CEE_RET] == 0
    }

    /** One past the last real opcode (CEE_COUNT). */
    function Count(): nat { |flags| }

    /** The pseudo-opcode of one entry of a switch table (CEE_SWITCH_ARG). */
    function SwitchArg(): nat { |flags| + 1 }

    function FlagsOf(op: nat): Flags {
      if op < |flags| then flags[op] else if op == |flags| then Plain(0) else LongBranch
    }

    /** The push column has no entry for CEE_SWITCH_ARG; it is taken to push nothing. */
    function PushesOf(op: nat): nat {
      if op < |pushes| then pushes[op] else 0
    }

    predicate IsBranch(op: nat) {
      FlagsOf(op).ShortBranch? || FlagsOf(op).LongBranch?
    }

    /** Opcodes the importer can produce from bytes. */
    predicate Decodable(op: nat) {
      op < |flags| && op != CEE_PREFIX1 && !(CEE_PREFIX7 <= op <= CEE_PREFIX2)
    }

    function OpcodeBytes(op: nat): (bs: seq<Byte>)
      requires Valid()
      ensures |bs| <= 2
    {
      if op >= |flags| then [] else if op >= 0x100 then [CEE_PREFIX1, op - 0x100] else [op]
    }

    function OperandSize(op: nat): nat {
      match FlagsOf(op)
      case Plain(n) => n
      case ShortBranch => 1
      case LongBranch => 4
      case SwitchTable => 4
    }

    /** Every opcode but CEE_COUNT takes at least one byte, and none takes more than ten. */
    function Size(op: nat): (n: nat)
      requires Valid()
      ensures n <= 10
      ensures op != Count() ==> n > 0
    {
      |OpcodeBytes(op)| + OperandSize(op)
    }
  }

  /** The operands of the instructions a probe is made of. */
  lemma {:induction false} ProbeOpcodes(t: OpcodeTable)
    requires t.Valid()
    ensures t.FlagsOf(CEE_CALL) == t.FlagsOf(CEE_LDC_I4) == Plain(4) && t.SwitchArg() > 0x100
    ensures t.FlagsOf(CEE_NOP) == t.FlagsOf(CEE_RET) == Plain(0)
  {
  }

  /** Which opcodes have which kind of operand, by number. */
  lemma {:induction false} KindsByNumber(t: OpcodeTable, op: nat)
    requires t.Valid()
    ensures t.FlagsOf(op).ShortBranch? <==> 0x2B <= op <= 0x37 || op == 0xDE
    ensures t.FlagsOf(op).SwitchTable? <==> op == 0x45
    ensures t.FlagsOf(op).LongBranch? <==> 0x38 <= op <= 0x44 || op == 0xDD || op > |t.flags|
    ensures ConditionOf(op).Some? <==> t.IsBranch(op) && op < 0x100
    ensures t.SwitchArg() == |t.flags| + 1 && t.Count() == |t.flags| && t.FlagsOf(|t.flags|) == Plain(0)
    ensures t.PushesOf(op) == (if op < |t.flags| then t.pushes[op] else 0)
  {
    if op < |t.flags| {
      assert t.flags[op] == t.FlagsOf(op);
    }
  }

  /** Each opcode's bytes, by number. */
  lemma {:induction false} BytesByNumber(t: OpcodeTable, op: nat)
    requires t.Valid() && op < |t.flags|
    ensures op < 0x100 ==> t.OpcodeBytes(op) == [op]
    ensures op >= 0x100 ==> t.OpcodeBytes(op) == [0xFE, op - 0x100]
  {
  }

  /** Every short branch and its long form have the same condition, no other opcode has both, and the
      long form is the opcode of a long branch. */
  lemma {:induction false} WidenedCondition(op: nat)
    requires IsShort(op)
    ensures ConditionOf(op).Some? && ConditionOf(Widen(op)) == ConditionOf(op)
    ensures forall other: nat {:trigger ConditionOf(other)} ::
              ConditionOf(other) == ConditionOf(op) <==> other == op || other == Widen(op)
  {
  }

  /** Widening keeps the condition, makes the operand long and costs three bytes. */
  lemma {:induction false} WidenKeepsCondition(t: OpcodeTable, op: nat)
    requires t.Valid() && IsShort(op)
    ensures t.FlagsOf(op) == ShortBranch && t.FlagsOf(Widen(op)) == LongBranch
    ensures ActionOf(Widen(op)) == ActionOf(op) && Widen(op) < 0x100
    ensures ConditionOf(Widen(op)) == ConditionOf(op) && ConditionOf(op).Some?
    ensures t.Size(Widen(op)) == t.Size(op) + 3
  {
    assert t.flags[op].ShortBranch?;
    assert t.flags[Widen(op)].LongBranch?;
  }

  /** A table with the operand kinds of ECMA-335, showing that Valid is not empty. */
  function EcmaFlags(op: nat): Flags {
    if 0x2B <= op <= 0x37 || op == 0xDE then ShortBranch
    else if 0x38 <= op <= 0x44 || op == 0xDD then LongBranch
    else if op == 0x45 then SwitchTable
    else if 0x0E <= op <= 0x13 || op in {0x1F, 0x112, 0x119} then Plain(1)
    else if 0x109 <= op <= 0x10E then Plain(2)
    else if op in {0x20, 0x22, 0x27, 0x28, 0x29, 0x6F, 0x79, 0x8C, 0x8D, 0x8F, 0xC2, 0xC6, 0xD0} then Plain(4)
    else if 0x70 <= op <= 0x75 || 0x7B <= op <= 0x81 || 0xA3 <= op <= 0xA5 then Plain(4)
    else if op in {0x106, 0x107, 0x115, 0x116, 0x11C} then Plain(4)
    else if op in {0x21, 0x23} then Plain(8)
    else Plain(0)
  }

  lemma {:induction false} EcmaTableIsValid()
    ensures OpcodeTable(seq(0x123, op requires 0 <= op => EcmaFlags(op)),
            seq(0x123, op => if op == 0x20 then 1 else 0)).Valid()
  {
    var t := OpcodeTable(seq(0x123, op requires 0 <= op => EcmaFlags(op)),
      seq(0x123, op => if op == 0x20 then 1 else 0));
    assert t.flags[CEE_NOP] == t.flags[CEE_RET] == Plain(0);
    assert t.flags[CEE_LDC_I4] == t.flags[CEE_CALL] == Plain(4);
    assert t.pushes[CEE_LDC_I4] == 1 && t.pushes[CEE_NOP] == t.pushes[CEE_RET] == 0;
  }
}
