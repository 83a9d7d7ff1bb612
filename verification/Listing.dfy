/** A method body as a value: instructions and exception clauses that refer to list positions.
    Position |code| is the list's sentinel, the end of the method; NONE is a null pointer. */
module Listing {
  import opened Bytes
  import opened Opcodes

  const NONE: int := -1

  const EH_FILTER: nat := 1
  const EH_FINALLY: nat := 2

  datatype Instr = Instr(op: nat, arg: nat, target: int)

  /** A clause as the rewriter holds it: tryEnd is the first node after the region,
      handlerEnd is the last node inside it. */
  datatype Clause = Clause(flags: nat, tryBegin: int, tryEnd: int, handlerBegin: int, handlerEnd: nat,
                           token: nat, filter: int)
  {
    predicate InTry(i: nat) { tryBegin <= i < tryEnd }

    predicate InHandler(i: nat) { handlerBegin <= i <= handlerEnd }

    /** Regions lie inside a method of n instructions and the handler is not empty. */
    predicate WellFormed(n: nat) {
      && 0 <= tryBegin <= tryEnd <= n
      && 0 <= handlerBegin <= handlerEnd < n
      && NONE <= filter <= n
      && (HasFilter() ==> filter >= 0)
    }

    /** No pointer the export follows is null. */
    predicate Set() {
      tryBegin >= 0 && tryEnd >= 0 && handlerBegin >= 0 && (HasFilter() ==> filter >= 0)
    }

    predicate HasFilter() { flags % 2 == EH_FILTER }
  }

  datatype Program = Program(code: seq<Instr>, eh: seq<Clause>)

  /** Every jump operand points at a node of the list. */
  predicate Resolved(t: OpcodeTable, code: seq<Instr>) {
    forall i {:trigger code[i]} | 0 <= i < |code| :: t.IsBranch(code[i].op) ==> 0 <= code[i].target <= |code|
  }

  /** How many entries of a switch table are still to come before position i. */
  function Pending(t: OpcodeTable, code: seq<Instr>, i: nat): int
    requires i <= |code|
  {
    if i == 0 then 0
    else if code[i - 1].op == CEE_SWITCH then code[i - 1].arg
    else if code[i - 1].op == t.SwitchArg() then Pending(t, code, i - 1) - 1
    else 0
  }

  /** A node is a table entry exactly when one is due. */
  ghost predicate EntryDue(t: OpcodeTable, code: seq<Instr>, i: nat)
    requires i < |code|
  {
    code[i].op == t.SwitchArg() <==> Pending(t, code, i) > 0
  }

  /** Every SWITCH is followed by exactly its announced entries, and entries occur nowhere else. */
  ghost predicate TablesIntact(t: OpcodeTable, code: seq<Instr>) {
    && (forall i {:trigger EntryDue(t, code, i)} | 0 <= i < |code| :: EntryDue(t, code, i))
    && Pending(t, code, |code|) == 0
  }

  /** The operands an instruction of this kind can carry in a body read from bytes. */
  ghost predicate WellTyped(t: OpcodeTable, code: seq<Instr>, i: nat)
    requires i < |code|
  {
    var x := code[i];
    && (t.Decodable(x.op) || x.op == t.SwitchArg())
    && match t.FlagsOf(x.op)
       case Plain(n) => x.arg < Pow256(n) && x.target == NONE
       case SwitchTable => x.arg < TWO_32 && x.target == NONE
       case _ => x.arg == 0 && 0 <= x.target <= |code| && (x.target < |code| ==> code[x.target].op != t.SwitchArg())
  }

  /** What every list the importer builds from a valid body satisfies, and every edit keeps. */
  ghost predicate WellFormed(t: OpcodeTable, code: seq<Instr>) {
    && (forall i {:trigger WellTyped(t, code, i)} | 0 <= i < |code| :: WellTyped(t, code, i))
    && TablesIntact(t, code)
  }

  /** Where a position moves when n nodes are put in front of position k. */
  function Shift(pos: int, k: nat, n: nat): (r: int)
    ensures pos >= 0 ==> r >= 0
  {
    if pos >= k then pos + n else pos
  }

  function ShiftInstr(x: Instr, k: nat, n: nat): Instr {
    x.(target := Shift(x.target, k, n))
  }

  function ShiftClause(c: Clause, k: nat, n: nat): Clause {
    Clause(c.flags, Shift(c.tryBegin, k, n), Shift(c.tryEnd, k, n), Shift(c.handlerBegin, k, n),
           Shift(c.handlerEnd, k, n), c.token, Shift(c.filter, k, n))
  }

  /** The program after splicing xs in front of position k: pointers keep their node. */
  function Splice(p: Program, k: nat, xs: seq<Instr>): (q: Program)
    requires k <= |p.code|
    ensures |q.code| == |p.code| + |xs| && |q.eh| == |p.eh|
    ensures forall j {:trigger q.code[j]} | 0 <= j < |q.code| ::
              q.code[j] == if j < k then ShiftInstr(p.code[j], k, |xs|)
                           else if j < k + |xs| then xs[j - k]
                           else ShiftInstr(p.code[j - |xs|], k, |xs|)
    ensures forall c {:trigger q.eh[c]} | 0 <= c < |q.eh| :: q.eh[c] == ShiftClause(p.eh[c], k, |xs|)
  {
    var moved := seq(|p.code|, i requires 0 <= i < |p.code| => ShiftInstr(p.code[i], k, |xs|));
    Program(moved[..k] + xs + moved[k..], seq(|p.eh|, c requires 0 <= c < |p.eh| => ShiftClause(p.eh[c], k, |xs|)))
  }

  lemma {:induction false} SpliceFront(p: Program, xs: seq<Instr>)
    ensures Splice(p, 0, xs).code[0..|xs|] == xs
  {
    var q := Splice(p, 0, xs);
    assert forall i {:trigger q.code[i]} | 0 <= i < |xs| :: q.code[i] == xs[i];
  }

  ghost predicate NoTargets(xs: seq<Instr>) {
    forall i {:trigger xs[i]} | 0 <= i < |xs| :: xs[i].target == NONE
  }

  /** Two runs spliced in one after the other. */
  lemma {:induction false} SpliceAfter(p: Program, k: nat, xs: seq<Instr>, ys: seq<Instr>)
    requires k <= |p.code| && NoTargets(xs)
    ensures Splice(Splice(p, k, xs), k + |xs|, ys) == Splice(p, k, xs + ys)
  {
    hide Splice;
    var a, b := Splice(Splice(p, k, xs), k + |xs|, ys), Splice(p, k, xs + ys);
    assert a.code == b.code;
    assert a.eh == b.eh;
  }

  /** A run spliced in front of one spliced in before. */
  lemma {:induction false} SpliceBefore(p: Program, k: nat, xs: seq<Instr>, ys: seq<Instr>)
    requires k <= |p.code| && NoTargets(ys)
    ensures Splice(Splice(p, k, ys), k, xs) == Splice(p, k, xs + ys)
  {
    hide Splice;
    var a, b := Splice(Splice(p, k, ys), k, xs), Splice(p, k, xs + ys);
    assert a.code == b.code;
    assert a.eh == b.eh;
  }

  // ---------- stack pushes ----------

  /** The pushes of all nodes of a list: what the rewriter adds to the stack limit for them. */
  function PushSum(t: OpcodeTable, code: seq<Instr>): nat {
    if |code| == 0 then 0 else PushSum(t, code[..|code| - 1]) + t.PushesOf(code[|code| - 1].op)
  }

  lemma {:induction false} PushSumConcat(t: OpcodeTable, a: seq<Instr>, b: seq<Instr>)
    ensures PushSum(t, a + b) == PushSum(t, a) + PushSum(t, b)
  {
    if |b| == 0 {
      assert a + b == a;
    } else {
      PushSumConcat(t, a, b[..|b| - 1]);
      assert (a + b)[..|a + b| - 1] == a + b[..|b| - 1];
    }
  }

  lemma {:induction false} PushSumSingle(t: OpcodeTable, x: Instr)
    ensures PushSum(t, [x]) == t.PushesOf(x.op)
  {
    assert PushSum(t, [x][..0]) == 0;
  }

  lemma {:induction false} PushSumFrame(t: OpcodeTable, a: seq<Instr>, b: seq<Instr>)
    requires |a| == |b| && forall i {:trigger a[i]} | 0 <= i < |a| :: t.PushesOf(a[i].op) == t.PushesOf(b[i].op)
    ensures PushSum(t, a) == PushSum(t, b)
  {
    if |a| > 0 {
      PushSumFrame(t, a[..|a| - 1], b[..|b| - 1]);
      assert a[|a| - 1] == a[|a| - 1];
    }
  }

  lemma {:induction false} PushSumSplice(t: OpcodeTable, p: Program, k: nat, xs: seq<Instr>)
    requires k <= |p.code|
    ensures PushSum(t, Splice(p, k, xs).code) == PushSum(t, p.code) + PushSum(t, xs)
  {
    hide PushSum, Splice;
    var q := Splice(p, k, xs).code;
    assert q == q[..k] + q[k..k + |xs|] + q[k + |xs|..] && p.code == p.code[..k] + p.code[k..];
    assert q[k..k + |xs|] == xs;
    PushSumConcat(t, q[..k] + q[k..k + |xs|], q[k + |xs|..]);
    PushSumConcat(t, q[..k], q[k..k + |xs|]);
    PushSumConcat(t, p.code[..k], p.code[k..]);
    PushSumFrame(t, q[..k], p.code[..k]);
    PushSumFrame(t, q[k + |xs|..], p.code[k..]);
  }
}
