/** Byte offsets of a list and the widening of short branches until every displacement fits. */
module Layout {
  import opened Bytes
  import opened Opcodes
  import opened Listing

  /** The offset the layout pass gives position i. */
  function Off(t: OpcodeTable, code: seq<Instr>, i: nat): nat
    requires t.Valid() && i <= |code|
  {
    if i == 0 then 0 else Off(t, code, i - 1) + t.Size(code[i - 1].op)
  }

  /** The offset of a pointer's node (0 for a null pointer, which is never laid out). */
  function OffOf(t: OpcodeTable, code: seq<Instr>, pos: int): nat
    requires t.Valid()
  {
    if 0 <= pos <= |code| then Off(t, code, pos) else 0
  }

  /** The displacement of the jump at i, counted from the end of its instruction. */
  function Delta(t: OpcodeTable, code: seq<Instr>, i: nat): int
    requires t.Valid() && i < |code|
  {
    OffOf(t, code, code[i].target) - Off(t, code, i + 1)
  }

  /** A short branch whose displacement does not fit its byte. */
  predicate Overlong(t: OpcodeTable, code: seq<Instr>, i: nat)
    requires t.Valid() && i < |code|
  {
    IsShort(code[i].op) && !FitsInt8(Delta(t, code, i))
  }

  /** Every remaining short branch reaches its target. */
  ghost predicate Fits(t: OpcodeTable, code: seq<Instr>)
    requires t.Valid()
  {
    forall i {:trigger Overlong(t, code, i)} | 0 <= i < |code| :: !Overlong(t, code, i)
  }

  lemma {:induction false} OffMonotone(t: OpcodeTable, code: seq<Instr>, i: nat, j: nat)
    requires t.Valid() && i <= j <= |code|
    ensures Off(t, code, i) <= Off(t, code, j) <= Off(t, code, i) + 10 * (j - i)
    decreases j
  {
    hide OpcodeTable.Valid, OpcodeTable.OpcodeBytes, OpcodeTable.OperandSize;
    if i < j {
      OffMonotone(t, code, i, j - 1);
    }
  }

  lemma {:induction false} OffOfBounded(t: OpcodeTable, code: seq<Instr>, pos: int)
    requires t.Valid()
    ensures OffOf(t, code, pos) <= Off(t, code, |code|)
  {
    if 0 <= pos <= |code| {
      OffMonotone(t, code, pos, |code|);
    }
  }

  /** Every node has bytes of its own: none is the pseudo-opcode of size zero. */
  ghost predicate NoEmpty(t: OpcodeTable, code: seq<Instr>) {
    forall k {:trigger code[k]} | 0 <= k < |code| :: code[k].op != t.Count()
  }

  /** No instruction is empty, so distinct positions have distinct offsets. */
  lemma {:induction false} OffStrict(t: OpcodeTable, code: seq<Instr>, i: nat, j: nat)
    requires t.Valid() && i < j <= |code| && NoEmpty(t, code)
    ensures Off(t, code, i) < Off(t, code, j)
  {
    assert code[i].op != t.Count();
    OffMonotone(t, code, i + 1, j);
  }

  /** Offsets depend on the opcodes in front only. */
  lemma {:induction false} OffFrame(t: OpcodeTable, a: seq<Instr>, b: seq<Instr>, i: nat)
    requires t.Valid() && i <= |a| && i <= |b|
    requires forall k {:trigger a[k]} {:trigger b[k]} | 0 <= k < i :: a[k].op == b[k].op
    ensures Off(t, a, i) == Off(t, b, i)
  {
    if i > 0 {
      OffFrame(t, a, b, i - 1);
    }
  }

  // ---------- widening ----------

  /** b is a with some short branches replaced by their long forms. */
  ghost predicate Widening(a: seq<Instr>, b: seq<Instr>) {
    && |a| == |b|
    && forall i {:trigger a[i]} {:trigger b[i]} | 0 <= i < |a| ::
         b[i] == a[i] || (IsShort(a[i].op) && b[i] == a[i].(op := Widen(a[i].op)))
  }

  /** The list after one pass over the branches: each overlong one has been widened. */
  function WidenPass(t: OpcodeTable, code: seq<Instr>): (r: seq<Instr>)
    requires t.Valid()
    ensures Widening(code, r)
  {
    WidenFirst(t, code, |code|)
  }

  /** The list when the pass has visited the first n nodes; displacements are those of the pass's layout. */
  function WidenFirst(t: OpcodeTable, code: seq<Instr>, n: nat): (r: seq<Instr>)
    requires t.Valid() && n <= |code|
    ensures Widening(code, r)
    ensures forall i {:trigger r[i]} {:trigger code[i]} | 0 <= i < |code| ::
              r[i] != code[i] <==> i < n && Overlong(t, code, i)
  {
    seq(|code|, i requires 0 <= i < |code| =>
      if i < n && Overlong(t, code, i) then code[i].(op := Widen(code[i].op)) else code[i])
  }

  function ShortCount(code: seq<Instr>): nat {
    if |code| == 0 then 0 else (if IsShort(code[0].op) then 1 else 0) + ShortCount(code[1..])
  }

  /** No widening adds a short branch, and one that changes anything removes one. */
  lemma {:induction false} WideningShrinksShortCount(a: seq<Instr>, b: seq<Instr>)
    requires Widening(a, b)
    ensures ShortCount(b) <= ShortCount(a)
    ensures a != b ==> ShortCount(b) < ShortCount(a)
  {
    if |a| > 0 {
      assert Widening(a[1..], b[1..]) by {
        assert forall i | 0 <= i < |a| - 1 :: a[1..][i] == a[i + 1] && b[1..][i] == b[i + 1];
      }
      WideningShrinksShortCount(a[1..], b[1..]);
      assert a == [a[0]] + a[1..] && b == [b[0]] + b[1..];
    }
  }

  /** Repeat the layout until no branch has to be widened. */
  function Relax(t: OpcodeTable, code: seq<Instr>): seq<Instr>
    requires t.Valid()
    decreases ShortCount(code)
  {
    var next := WidenPass(t, code);
    WideningShrinksShortCount(code, next);
    if next == code then code else Relax(t, next)
  }

  /** The number of layout passes the export needs. */
  function Passes(t: OpcodeTable, code: seq<Instr>): nat
    requires t.Valid()
    decreases ShortCount(code)
  {
    var next := WidenPass(t, code);
    WideningShrinksShortCount(code, next);
    if next == code then 1 else 1 + Passes(t, next)
  }

  lemma {:induction false} PassesBounded(t: OpcodeTable, code: seq<Instr>)
    requires t.Valid()
    ensures 1 <= Passes(t, code) <= ShortCount(code) - ShortCount(Relax(t, code)) + 1
    decreases ShortCount(code)
  {
    var next := WidenPass(t, code);
    WideningShrinksShortCount(code, next);
    if next != code {
      PassesBounded(t, next);
    }
  }

  lemma {:induction false} WideningTransitive(a: seq<Instr>, b: seq<Instr>, c: seq<Instr>)
    requires Widening(a, b) && Widening(b, c)
    ensures Widening(a, c)
  {
    forall i {:trigger a[i]} {:trigger c[i]} | 0 <= i < |a|
      ensures c[i] == a[i] || (IsShort(a[i].op) && c[i] == a[i].(op := Widen(a[i].op)))
    {
      assert b[i] == a[i] || (IsShort(a[i].op) && b[i] == a[i].(op := Widen(a[i].op)));
    }
  }

  /** Relaxation only widens, and leaves a list in which every short branch fits. */
  lemma {:induction false} RelaxIsSolution(t: OpcodeTable, code: seq<Instr>)
    requires t.Valid()
    ensures Widening(code, Relax(t, code)) && Fits(t, Relax(t, code))
    decreases ShortCount(code)
  {
    var next := WidenPass(t, code);
    WideningShrinksShortCount(code, next);
    if next == code {
      forall i | 0 <= i < |code|
        ensures !Overlong(t, code, i)
      {
        assert next[i] == code[i];
      }
    } else {
      RelaxIsSolution(t, next);
      WideningTransitive(code, next, Relax(t, next));
    }
  }

  /** Widening only moves positions further apart. */
  lemma {:induction false} WideningStretches(t: OpcodeTable, a: seq<Instr>, b: seq<Instr>, i: nat, j: nat)
    requires t.Valid() && Widening(a, b) && i <= j <= |a|
    ensures Off(t, a, j) - Off(t, a, i) <= Off(t, b, j) - Off(t, b, i)
    decreases j
  {
    if i < j {
      WideningStretches(t, a, b, i, j - 1);
      if b[j - 1] != a[j - 1] {
        WidenKeepsCondition(t, a[j - 1].op);
      }
    }
  }

  /** A branch that is still short in a solution did not need widening before it. */
  lemma {:induction false} OverlongStaysOverlong(t: OpcodeTable, a: seq<Instr>, b: seq<Instr>, i: nat)
    requires t.Valid() && Widening(a, b) && Resolved(t, a) && i < |a|
    requires Overlong(t, a, i) && b[i] == a[i]
    ensures Overlong(t, b, i)
  {
    hide Off, OpcodeTable.Valid;
    ShortIsBranch(t, a[i].op);
    var target := a[i].target;
    if target <= i {
      OffMonotone(t, a, target, i + 1);
      WideningStretches(t, a, b, target, i + 1);
    } else {
      OffMonotone(t, a, i + 1, target);
      WideningStretches(t, a, b, i + 1, target);
    }
  }

  lemma {:induction false} ShortIsBranch(t: OpcodeTable, op: nat)
    requires t.Valid() && IsShort(op)
    ensures t.IsBranch(op) && op < t.Count()
  {
    assert t.flags[op].ShortBranch?;
  }

  lemma {:induction false} WideningKeepsResolved(t: OpcodeTable, a: seq<Instr>, b: seq<Instr>)
    requires t.Valid() && Widening(a, b) && Resolved(t, a)
    ensures Resolved(t, b)
  {
    forall i {:trigger b[i]} | 0 <= i < |b| && t.IsBranch(b[i].op)
      ensures 0 <= b[i].target <= |b|
    {
      if b[i] != a[i] {
        ShortIsBranch(t, a[i].op);
      }
    }
  }

  /** The widened branches are the fewest possible: every assignment of widths under which the
      remaining short branches fit widens at least what the export widens. */
  lemma {:induction false} RelaxIsLeast(t: OpcodeTable, code: seq<Instr>, solution: seq<Instr>)
    requires t.Valid() && Resolved(t, code)
    requires Widening(code, solution) && Fits(t, solution)
    ensures Widening(Relax(t, code), solution)
    ensures forall i {:trigger solution[i]} | 0 <= i < |code| :: Relax(t, code)[i] != code[i] ==> solution[i] != code[i]
    decreases ShortCount(code)
  {
    var next := WidenPass(t, code);
    WideningShrinksShortCount(code, next);
    RelaxIsSolution(t, code);
    if next != code {
      forall i {:trigger next[i]} {:trigger solution[i]} | 0 <= i < |code|
        ensures solution[i] == next[i] || (IsShort(next[i].op) && solution[i] == next[i].(op := Widen(next[i].op)))
      {
        assert solution[i] == code[i] || (IsShort(code[i].op) && solution[i] == code[i].(op := Widen(code[i].op)));
        if next[i] != code[i] && solution[i] == code[i] {
          OverlongStaysOverlong(t, code, solution, i);
        }
      }
      WideningKeepsResolved(t, code, next);
      RelaxIsLeast(t, next, solution);
    }
    forall i {:trigger solution[i]} | 0 <= i < |code| && Relax(t, code)[i] != code[i]
      ensures solution[i] != code[i]
    {
      assert !IsShort(Relax(t, code)[i].op);
    }
  }

  /** A list whose branches all fit is laid out once and left alone. */
  lemma {:induction false} FittingIsFixed(t: OpcodeTable, code: seq<Instr>)
    requires t.Valid() && Fits(t, code)
    ensures Relax(t, code) == code && Passes(t, code) == 1
  {
    var next := WidenPass(t, code);
    forall i | 0 <= i < |code|
      ensures next[i] == code[i]
    {
      assert !Overlong(t, code, i);
    }
    assert next == code;
  }
}
