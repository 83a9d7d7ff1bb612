/** The rewriter itself: a circular doubly linked list of mutable nodes, edited in place. */
module Rewriter {
  import opened Bytes
  import opened Opcodes
  import opened Listing
  import opened Layout
  import opened Encoding
  import opened Parsing
  import opened RoundTrip
  import opened Buffers
  import opened Probes
  import opened Regions
  import opened Integrity
  import opened EndToEnd
  import opened FatBody

  /** A node of the instruction list. The operand is kept as an unsigned bit pattern. */
  class ILInstr {
    var next: ILInstr?
    var prev: ILInstr?
    var opcode: nat
    var offset: nat
    var arg: nat
    var target: ILInstr?

    /** The node's position in its list. */
    ghost var pos: nat

    constructor ()
      ensures next == null && prev == null && target == null && opcode == 0 && arg == 0
    {
      next, prev, target := null, null, null;
      opcode, offset, arg := 0, 0, 0;
    }
  }

  /** The pointer that stands for a position: null for NONE. */
  function NodeAt(ring: seq<ILInstr>, pos: int): ILInstr? {
    if 0 <= pos < |ring| then ring[pos] else null
  }

  /** A clause as the rewriter stores it: regions as pointers to nodes. */
  datatype EHClause = EHClause(flags: nat, tryBegin: ILInstr?, tryEnd: ILInstr?, handlerBegin: ILInstr?,
                               handlerEnd: ILInstr?, classToken: nat, filter: ILInstr?)

  /** A method as the metadata decoder hands it over. */
  datatype Method = Method(localVarSig: nat, maxStack: nat, flags: nat, body: Body)

  function AttributesOf(m: Method): Attributes {
    Attributes(m.localVarSig, m.flags / INIT_LOCALS % 2 == 1)
  }

  /** The runtime's cell for a method body. Whether it takes a new body is not the rewriter's choice. */
  class FunctionBody {
    var bytes: seq<Byte>
    var installs: nat

    constructor (bytes: seq<Byte>)
      ensures this.bytes == bytes && installs == 0
    {
      this.bytes, installs := bytes, 0;
    }

    method SetILFunctionBody(body: seq<Byte>, accepted: bool) returns (ok: bool)
      modifies this
      ensures ok == accepted
      ensures bytes == (if ok then body else old(bytes)) && installs == old(installs) + (if ok then 1 else 0)
    {
      if accepted {
        bytes, installs := body, installs + 1;
      }
      ok := accepted;
    }
  }

  class ILRewriter {
    const t: OpcodeTable
    const sentinel: ILInstr
    var attributes: Attributes
    var maxStack: nat
    var codeSize: nat
    var nInstrs: nat
    var offsetToInstr: array<ILInstr?>
    var eh: array<EHClause>

    /** All nodes in list order, the sentinel last. */
    ghost var ring: seq<ILInstr>

    /** The value of the list and of the clauses. */
    ghost var prog: Program

    /** The stack limit the method came with. */
    ghost var declared: nat

    /** Every node made has been linked in. */
    ghost predicate Valid()
      reads `ring, `prog, `nInstrs, `maxStack, `declared, `eh, ring`pos, ring`next, ring`prev, ring`opcode, ring`arg,
        ring`target, eh
    {
      Core() && |prog.code| == nInstrs
    }

    ghost predicate Core()
      reads `ring, `prog, `nInstrs, `maxStack, `declared, `eh, ring`pos, ring`next, ring`prev, ring`opcode, ring`arg,
        ring`target, eh
    {
      && t.Valid()
      && |ring| == |prog.code| + 1 && ring[|ring| - 1] == sentinel
      && maxStack == Low32(declared + PushSum(t, prog.code))
      && Linked(ring)
      && Shows(ring, prog.code)
      && eh.Length == |prog.eh|
      && forall c {:trigger eh[c]} | 0 <= c < eh.Length :: ShowsClause(ring, eh[c], prog.eh[c])
    }

    /** Neighbours are linked both ways and the ends meet. */
    static ghost predicate Linked(ring: seq<ILInstr>)
      reads ring`pos, ring`next, ring`prev
    {
      && Numbered(ring)
      && (forall i {:trigger ring[i].next} | 0 <= i < |ring| ::
           ring[i].next == ring[if i == |ring| - 1 then 0 else i + 1])
      && (forall i {:trigger ring[i].prev} | 0 <= i < |ring| ::
           ring[i].prev == ring[if i == 0 then |ring| - 1 else i - 1])
    }

    static ghost predicate Numbered(ring: seq<ILInstr>)
      reads ring`pos
    {
      forall i {:trigger ring[i].pos} | 0 <= i < |ring| :: ring[i].pos == i
    }

    /** The nodes carry the instructions of the list. */
    static ghost predicate Shows(ring: seq<ILInstr>, code: seq<Instr>)
      requires |code| <= |ring|
      reads ring`opcode, ring`arg, ring`target
    {
      forall i {:trigger code[i]} | 0 <= i < |code| ::
        && code[i].op == ring[i].opcode && code[i].arg == ring[i].arg
        && NONE <= code[i].target < |ring| && ring[i].target == NodeAt(ring, code[i].target)
    }

    static ghost predicate ShowsClause(ring: seq<ILInstr>, e: EHClause, c: Clause) {
      && e.flags == c.flags && e.classToken == c.token
      && NONE <= c.tryBegin < |ring| && e.tryBegin == NodeAt(ring, c.tryBegin)
      && NONE <= c.tryEnd < |ring| && e.tryEnd == NodeAt(ring, c.tryEnd)
      && NONE <= c.handlerBegin < |ring| && e.handlerBegin == NodeAt(ring, c.handlerBegin)
      && c.handlerEnd < |ring| && e.handlerEnd == ring[c.handlerEnd]
      && NONE <= c.filter < |ring| && e.filter == NodeAt(ring, c.filter)
    }

    /** n is a node of this list. */
    ghost predicate Has(n: ILInstr)
      reads this, n
    {
      n.pos < |ring| && ring[n.pos] == n
    }

    /** An empty list: the sentinel linked to itself. */
    constructor (t: OpcodeTable)
      requires t.Valid()
      ensures Reading() && fresh(sentinel) && fresh(offsetToInstr) && fresh(eh) && ring == [sentinel] && this.t == t
      ensures prog == Program([], []) && nInstrs == 0 && declared == 0
    {
      this.t := t;
      sentinel := new ILInstr();
      attributes := Attributes(0, false);
      maxStack, codeSize, nInstrs := 0, 0, 0;
      offsetToInstr := new ILInstr?[0];
      eh := new EHClause[0];
      prog := Program([], []);
      declared := 0;
      new;
      sentinel.next := sentinel;
      sentinel.prev := sentinel;
      sentinel.pos := 0;
      ring := [sentinel];
    }

    method NewILInstr() returns (n: ILInstr)
      modifies this`nInstrs
      ensures fresh(n) && n.next == null && n.prev == null && n.target == null && n.opcode == 0 && n.arg == 0
      ensures nInstrs == old(nInstrs) + 1
      ensures old(Core()) ==> Core()
    {
      nInstrs := nInstrs + 1;
      n := new ILInstr();
    }

    /** The stack limit grows by what the new instruction pushes. */
    method AdjustState(n: ILInstr)
      modifies this`maxStack
      ensures maxStack == Low32(old(maxStack) + t.PushesOf(n.opcode))
    {
      maxStack := Low32(maxStack + t.PushesOf(n.opcode));
    }

    // ---------- splicing ----------

    static function Before(ring: seq<ILInstr>, k: nat): nat
      requires k < |ring|
    {
      if k == 0 then |ring| - 1 else k - 1
    }

    static function With(ring: seq<ILInstr>, k: nat, what: ILInstr): seq<ILInstr>
      requires k <= |ring|
    {
      ring[..k] + [what] + ring[k..]
    }

    /** what has been linked into ring in front of ring[k]. */
    static ghost predicate LinkedIn(ring: seq<ILInstr>, k: nat, what: ILInstr)
      requires k < |ring|
      reads ring`next, ring`prev, what`next, what`prev
    {
      && what.next == ring[k] && what.prev == ring[Before(ring, k)]
      && (forall j {:trigger ring[j].next} | 0 <= j < |ring| ::
            ring[j].next == if j == Before(ring, k) then what else if j == |ring| - 1 then ring[0] else ring[j + 1])
      && (forall j {:trigger ring[j].prev} | 0 <= j < |ring| ::
            ring[j].prev == if j == k then what else ring[Before(ring, j)])
    }

    static lemma {:induction false} SplicedLinks(ring: seq<ILInstr>, k: nat, what: ILInstr)
      requires k < |ring| && LinkedIn(ring, k, what) && Numbered(With(ring, k, what))
      ensures Linked(With(ring, k, what))
    {
      var now := With(ring, k, what);
      forall i {:trigger now[i].next} | 0 <= i < |now|
        ensures now[i].next == now[if i == |now| - 1 then 0 else i + 1]
      {
        if i != k {
          assert now[i] == ring[if i < k then i else i - 1];
        }
      }
      forall i {:trigger now[i].prev} | 0 <= i < |now|
        ensures now[i].prev == now[if i == 0 then |now| - 1 else i - 1]
      {
        if i != k {
          assert now[i] == ring[if i < k then i else i - 1];
        }
      }
    }

    static lemma {:induction false} SplicedNode(ring: seq<ILInstr>, k: nat, what: ILInstr, pos: int)
      requires k < |ring| && NONE <= pos < |ring|
      ensures NodeAt(With(ring, k, what), Shift(pos, k, 1)) == NodeAt(ring, pos)
    {
    }

    static lemma {:induction false} SplicedShows(ring: seq<ILInstr>, k: nat, what: ILInstr, p: Program)
      requires k < |ring| == |p.code| + 1 && Shows(ring, p.code) && what.target == null
      ensures Shows(With(ring, k, what), Splice(p, k, [Instr(what.opcode, what.arg, NONE)]).code)
    {
      hide Splice;
      var now, q := With(ring, k, what), Splice(p, k, [Instr(what.opcode, what.arg, NONE)]).code;
      forall i {:trigger q[i]} | 0 <= i < |q|
        ensures q[i].op == now[i].opcode && q[i].arg == now[i].arg
        ensures NONE <= q[i].target < |now| && now[i].target == NodeAt(now, q[i].target)
      {
        if i != k {
          var j := if i < k then i else i - 1;
          assert q[i] == ShiftInstr(p.code[j], k, 1);
          SplicedNode(ring, k, what, p.code[j].target);
        }
      }
    }

    static lemma {:induction false} SplicedClause(ring: seq<ILInstr>, k: nat, what: ILInstr, e: EHClause, c: Clause)
      requires k < |ring| && ShowsClause(ring, e, c)
      ensures ShowsClause(With(ring, k, what), e, ShiftClause(c, k, 1))
    {
      SplicedNode(ring, k, what, c.tryBegin);
      SplicedNode(ring, k, what, c.tryEnd);
      SplicedNode(ring, k, what, c.handlerBegin);
      SplicedNode(ring, k, what, c.filter);
    }

    static lemma {:induction false} NumberedAt(ring: seq<ILInstr>, k: nat)
      requires k < |ring| && Linked(ring)
      ensures ring[k].pos == k
    {
    }

    /** The nodes of a ring are distinct. */
    static lemma {:induction false} NumberedApart(ring: seq<ILInstr>, k: nat)
      requires k < |ring| && Numbered(ring)
      ensures forall j {:trigger ring[j]} | 0 <= j < |ring| :: ring[j] == ring[k] <==> j == k
    {
      forall j {:trigger ring[j]} | 0 <= j < |ring|
        ensures ring[j] == ring[k] <==> j == k
      {
        assert ring[j].pos == j && ring[k].pos == k;
      }
    }

    static ghost method Renumber(ring: seq<ILInstr>, k: nat, what: ILInstr)
      requires k < |ring| && Numbered(ring) && what !in ring
      modifies ring`pos, what`pos
      ensures Numbered(With(ring, k, what)) && what.pos == k
    {
      forall i | k <= i < |ring| {
        ring[i].pos := ring[i].pos + 1;
      }
      what.pos := k;
    }

    /** Brings the ghost state up to date when what has been linked in front of ring[k]. */
    ghost method Record(k: nat, what: ILInstr)
      requires t.Valid() && k < |ring| == |prog.code| + 1 && ring[|ring| - 1] == sentinel && |prog.code| < nInstrs
      requires Numbered(ring) && LinkedIn(ring, k, what) && Shows(ring, prog.code)
      requires what !in ring && what.target == null
      requires maxStack == Low32(Low32(declared + PushSum(t, prog.code)) + t.PushesOf(what.opcode))
      requires eh.Length == |prog.eh| && forall c {:trigger eh[c]} | 0 <= c < eh.Length ::
               ShowsClause(ring, eh[c], prog.eh[c])
      modifies this`ring, this`prog, ring`pos, what`pos
      ensures Core() && what.pos == k
      ensures ring == old(With(ring, k, what))
      ensures prog == Splice(old(prog), k, [Instr(what.opcode, what.arg, NONE)])
    {
      hide Splice, ShowsClause, Shows, LinkedIn, Numbered, Linked, ShiftClause, PushSum;
      Renumber(ring, k, what);
      PushSumSplice(t, prog, k, [Instr(what.opcode, what.arg, NONE)]);
      PushSumSingle(t, Instr(what.opcode, what.arg, NONE));
      SplicedLinks(ring, k, what);
      SplicedShows(ring, k, what, prog);
      forall c {:trigger eh[c]} | 0 <= c < eh.Length
        ensures ShowsClause(With(ring, k, what), eh[c], ShiftClause(prog.eh[c], k, 1))
      {
        SplicedClause(ring, k, what, eh[c], prog.eh[c]);
      }
      ring := With(ring, k, what);
      prog := Splice(prog, k, [Instr(what.opcode, what.arg, NONE)]);
    }

    /** The pointer surgery of the two insertions. */
    static method LinkBefore(where: ILInstr, what: ILInstr, ghost ring: seq<ILInstr>, ghost k: nat)
      requires k < |ring| && ring[k] == where && Linked(ring) && what !in ring
      modifies ring`next, ring`prev, what`next, what`prev
      ensures LinkedIn(ring, k, what)
    {
      NumberedApart(ring, k);
      NumberedApart(ring, Before(ring, k));
      assert where.prev == ring[Before(ring, k)];
      what.next := where;
      what.prev := where.prev;
      what.next.prev := what;
      what.prev.next := what;
    }

    static method LinkAfter(where: ILInstr, what: ILInstr, ghost ring: seq<ILInstr>, ghost k: nat)
      requires k < |ring| - 1 && ring[k] == where && Linked(ring) && what !in ring
      modifies ring`next, ring`prev, what`next, what`prev
      ensures LinkedIn(ring, k + 1, what)
    {
      NumberedApart(ring, k);
      NumberedApart(ring, k + 1);
      assert where.next == ring[k + 1];
      what.next := where.next;
      what.prev := where;
      what.next.prev := what;
      what.prev.next := what;
    }

    method InsertBefore(where: ILInstr, what: ILInstr)
      requires Core() && Has(where) && what !in ring && what.target == null && |prog.code| < nInstrs
      modifies this`maxStack, this`ring, this`prog, ring`pos, ring`next, ring`prev, what`pos, what`next, what`prev
      ensures Core() && Has(what) && what.pos == old(where.pos) && Has(where) && where.pos == old(where.pos) + 1
      ensures ring == old(With(ring, where.pos, what))
      ensures prog == Splice(old(prog), old(where.pos), [Instr(what.opcode, what.arg, NONE)])
    {
      hide Splice, ShowsClause, Shows, LinkedIn, Numbered, PushSum;
      ghost var k := where.pos;
      LinkBefore(where, what, ring, k);
      AdjustState(what);
      Record(k, what);
      NumberedAt(ring, k);
      NumberedAt(ring, k + 1);
    }

    method InsertAfter(where: ILInstr, what: ILInstr)
      requires Core() && Has(where) && where != sentinel && what !in ring && what.target == null
               && |prog.code| < nInstrs
      modifies this`maxStack, this`ring, this`prog, ring`pos, ring`next, ring`prev, what`pos, what`next, what`prev
      ensures Core() && Has(what) && what.pos == old(where.pos) + 1 && Has(where) && where.pos == old(where.pos)
      ensures ring == old(With(ring, where.pos + 1, what))
      ensures prog == Splice(old(prog), old(where.pos) + 1, [Instr(what.opcode, what.arg, NONE)])
    {
      hide Splice, ShowsClause, Shows, LinkedIn, Numbered, PushSum;
      ghost var k := where.pos;
      LinkAfter(where, what, ring, k);
      AdjustState(what);
      Record(k + 1, what);
      NumberedAt(ring, k);
      NumberedAt(ring, k + 1);
    }

    /** Rewrites an opcode in place; both opcodes push equally. */
    method SetOpcode(node: ILInstr, op: nat)
      requires Valid() && Has(node) && node != sentinel && t.PushesOf(op) == t.PushesOf(node.opcode)
      modifies node`opcode, this`prog
      ensures Valid() && node.pos == old(node.pos) && node.opcode == op
      ensures prog == WithOp(old(prog), node.pos, op)
    {
      hide ShowsClause, PushSum;
      assert prog.code[node.pos].op == node.opcode;
      NumberedApart(ring, node.pos);
      PushSumFrame(t, prog.code, WithOp(prog, node.pos, op).code);
      node.opcode := op;
      prog := WithOp(prog, node.pos, op);
    }

    /** A new node with this opcode and operand, in front of where. */
    method InsertNew(where: ILInstr, opcode: nat, arg: nat) returns (n: ILInstr)
      requires Valid() && Has(where)
      modifies this`maxStack, this`nInstrs, this`ring, this`prog, ring`pos, ring`next, ring`prev
      ensures Valid() && Has(where) && where.pos == old(where.pos) + 1 && Has(n) && n.pos == old(where.pos)
      ensures fresh(n) && ring == old(ring[..where.pos]) + [n] + old(ring[where.pos..])
      ensures prog == Splice(old(prog), old(where.pos), [Instr(opcode, arg, NONE)])
      ensures nInstrs == old(nInstrs) + 1 && n.opcode == opcode
    {
      hide ShowsClause, Shows, Linked, PushSum, Splice;
      n := NewILInstr();
      n.opcode := opcode;
      n.arg := arg;
      InsertBefore(where, n);
    }

    /** Inserts a probe in front of where. */
    method AddProbe(hook: nat, arg: Option<nat>, where: ILInstr)
      requires Valid() && Has(where)
      modifies this`maxStack, this`nInstrs, this`ring, this`prog, ring`pos, ring`next, ring`prev
      ensures Valid() && Has(where) && where.pos == old(where.pos) + |Probe(hook, arg)|
      ensures prog == InsertProbe(old(prog), old(where.pos), hook, arg)
      ensures ring[..old(where.pos)] == old(ring[..where.pos]) && ring[where.pos..] == old(ring[where.pos..])
      ensures forall i {:trigger ring[i]} | 0 <= i < |ring| :: ring[i] in old(ring) || fresh(ring[i])
    {
      hide Valid, Splice;
      if arg.Some? {
        var load := InsertNew(where, CEE_LDC_I4, arg.value);
      }
      var call := InsertNew(where, CEE_CALL, hook);
    }

    /** Inserts a probe in front of the first instruction. */
    method AddEnterProbe(hook: nat, arg: Option<nat>)
      requires Valid()
      modifies this`maxStack, this`nInstrs, this`ring, this`prog, ring`pos, ring`next, ring`prev
      ensures Valid() && prog == AddEnter(old(prog), hook, arg)
      ensures |ring| == old(|ring|) + |Probe(hook, arg)| && ring[|Probe(hook, arg)|..] == old(ring)
      ensures forall i {:trigger ring[i]} | 0 <= i < |ring| :: ring[i] in old(ring) || fresh(ring[i])
    {
      hide ShowsClause, Shows, PushSum, Linked;
      FirstNode();
      AddProbe(hook, arg, sentinel.next);
    }

    lemma {:induction false} RetPushesNothing()
      requires Valid()
      ensures t.PushesOf(CEE_NOP) == t.PushesOf(CEE_RET)
    {
      hide Linked, Shows, ShowsClause, PushSum;
    }

    method InsertNewAfter(where: ILInstr, opcode: nat) returns (n: ILInstr)
      requires Valid() && Has(where) && where != sentinel
      modifies this`maxStack, this`nInstrs, this`ring, this`prog, ring`pos, ring`next, ring`prev
      ensures Valid() && Has(n) && n != sentinel && n.pos == old(where.pos) + 1
      ensures fresh(n) && ring == old(ring[..where.pos + 1]) + [n] + old(ring[where.pos + 1..])
      ensures prog == Splice(old(prog), old(where.pos) + 1, [Instr(opcode, 0, NONE)])
    {
      hide ShowsClause, Shows, Linked, PushSum, Splice;
      n := NewILInstr();
      n.opcode := opcode;
      InsertAfter(where, n);
    }

    /** A RET node becomes a NOP, and a new RET follows it. */
    method SplitRet(node: ILInstr) returns (newRet: ILInstr)
      requires Valid() && Has(node) && node != sentinel && node.opcode == CEE_RET
      modifies this`maxStack, this`nInstrs, this`ring, this`prog, ring`pos, ring`next, ring`prev, node`opcode
      ensures old(node.pos < |prog.code| && prog.code[node.pos].op == CEE_RET)
      ensures Valid() && prog == Splice(WithOp(old(prog), old(node.pos), CEE_NOP), old(node.pos) + 1, [RET])
      ensures Has(newRet) && newRet != sentinel && newRet.pos == old(node.pos) + 1 && node.opcode == CEE_NOP
      ensures fresh(newRet) && ring == old(ring[..node.pos + 1]) + [newRet] + old(ring[node.pos + 1..])
    {
      hide Valid, PushSum, Splice;
      RetPushesNothing();
      NextOf(node);
      SetOpcode(node, CEE_NOP);
      newRet := InsertNewAfter(node, CEE_RET);
    }

    /** One round of the exit loop: the RET node becomes a NOP, a new RET follows it, and the probe
        goes in front of that. */
    method ExpandAt(node: ILInstr, hook: nat, arg: Option<nat>) returns (newRet: ILInstr)
      requires Valid() && Has(node) && node != sentinel && node.opcode == CEE_RET
      modifies this`maxStack, this`nInstrs, this`ring, this`prog, ring`pos, ring`next, ring`prev, node`opcode
      ensures Valid() && prog == ExpandRet(old(prog), old(node.pos), hook, arg)
      ensures Has(node) && node.pos == old(node.pos) && node.opcode == CEE_NOP
      ensures Has(newRet) && newRet != sentinel && newRet.pos == node.pos + |Epilog(hook, arg)|
      ensures |ring| == old(|ring|) + |Epilog(hook, arg)|
      ensures ring[..node.pos + 1] == old(ring[..node.pos + 1]) && ring[newRet.pos + 1..] == old(ring[node.pos + 1..])
      ensures forall i {:trigger ring[i]} | 0 <= i < |ring| :: ring[i] in old(ring) || fresh(ring[i])
    {
      hide Valid, PushSum, Splice, InsertProbe, Epilog, Probe, WithOp;
      ghost var k := node.pos;
      newRet := SplitRet(node);
      ghost var was := ring;
      AddProbe(hook, arg, newRet);
      Resumed(old(ring), was, ring, k, newRet, newRet.pos);
      PosAt(k);
    }

    /** The list around a node whose successor what has been put in and then had nodes put in front of
        it, so that it stands at n. */
    static lemma {:induction false} Resumed(
        before: seq<ILInstr>, was: seq<ILInstr>, now: seq<ILInstr>, k: nat, what: ILInstr, n: nat)
      requires k < |before| && k < n < |now| && was == before[..k + 1] + [what] + before[k + 1..]
      requires now[..k + 1] == was[..k + 1] && now[n..] == was[k + 1..]
      ensures now[k] == before[k] && now[..k + 1] == before[..k + 1] && now[n + 1..] == before[k + 1..]
      ensures |now| == |before| + n - k
    {
      assert now[k] == now[..k + 1][k] == was[..k + 1][k];
      assert was[k + 1..] == [what] + before[k + 1..];
      assert now[n + 1..] == now[n..][1..];
    }

    /** The node behind a node. */
    lemma {:induction false} NextOf(node: ILInstr)
      requires Valid() && Has(node) && node != sentinel
      ensures node.pos < |prog.code| && prog.code[node.pos].op == node.opcode
      ensures node.next != null && node.next in ring && node.next.pos == node.pos + 1 && Has(node.next)
    {
      hide ShowsClause, PushSum;
      assert ring[node.pos].next == ring[node.pos + 1];
      assert ring[node.pos + 1].pos == node.pos + 1;
      assert prog.code[node.pos].op == ring[node.pos].opcode;
    }

    lemma {:induction false} PosAt(k: nat)
      requires Valid() && k < |ring|
      ensures ring[k].pos == k && Has(ring[k])
    {
    }

    lemma {:induction false} SentinelAt(node: ILInstr)
      requires Valid() && Has(node)
      ensures node == sentinel <==> node.pos == |prog.code|
    {
      hide ShowsClause, Shows, PushSum;
      assert ring[|ring| - 1].pos == |ring| - 1;
    }

    lemma {:induction false} FirstNode()
      requires Valid()
      ensures sentinel.next != null && sentinel.next in ring && sentinel.next.pos == 0 && Has(sentinel.next)
    {
      hide ShowsClause, Shows, PushSum;
      assert ring[|ring| - 1].next == ring[0] && ring[0].pos == 0;
    }

    /** The nodes of the list before are where the exit loop, having visited i of them, moves them. */
    static ghost predicate Kept(ring: seq<ILInstr>, before: seq<ILInstr>, code: seq<Instr>, m: nat, i: nat)
      requires |before| == |code| + 1 && i <= |code|
    {
      forall j {:trigger before[j]} | 0 <= j <= |code| ::
        Moved(code, m, i, j) < |ring| && ring[Moved(code, m, i, j)] == before[j]
    }

    /** From node i on nothing has been rewritten. */
    static ghost predicate Unvisited(before: seq<ILInstr>, code: seq<Instr>, i: nat)
      requires |before| == |code| + 1
      reads before`opcode
    {
      forall j {:trigger code[j]} | i <= j < |code| :: before[j].opcode == code[j].op
    }

    static ghost predicate Distinct(before: seq<ILInstr>) {
      forall a, b {:trigger before[a], before[b]} | 0 <= a < b < |before| :: before[a] != before[b]
    }

    /** One node further, an expanded one being followed by m new nodes. */
    static lemma {:induction false} KeptStep(
        was: seq<ILInstr>, now: seq<ILInstr>, before: seq<ILInstr>, code: seq<Instr>, m: nat, i: nat)
      requires |before| == |code| + 1 && i < |code| && Kept(was, before, code, m, i)
      requires if code[i].op == CEE_RET then
                 var k := Moved(code, m, i, i) + 1;
                 k <= |was| && |now| == |was| + m && now[..k] == was[..k] && now[k + m..] == was[k..]
               else now == was
      ensures Kept(now, before, code, m, i + 1)
      ensures var k := Moved(code, m, i, i) + 1 + if code[i].op == CEE_RET then m else 0;
              k == Moved(code, m, i + 1, i + 1) && k < |now| && now[k] == before[i + 1]
    {
      hide Moved;
      var next := i + 1;
      forall j {:trigger before[j]} | 0 <= j <= |code|
        ensures Moved(code, m, next, j) < |now| && now[Moved(code, m, next, j)] == before[j]
      {
        KeptNode(was, now, before, code, m, i, j);
      }
      NextMoved(code, m, i);
      KeptNode(was, now, before, code, m, i, next);
    }

    static lemma {:induction false} KeptNode(
        was: seq<ILInstr>, now: seq<ILInstr>, before: seq<ILInstr>, code: seq<Instr>, m: nat, i: nat, j: nat)
      requires |before| == |code| + 1 && i < |code| && j <= |code| && Kept(was, before, code, m, i)
      requires if code[i].op == CEE_RET then
                 var k := Moved(code, m, i, i) + 1;
                 k <= |was| && |now| == |was| + m && now[..k] == was[..k] && now[k + m..] == was[k..]
               else now == was
      ensures Moved(code, m, i + 1, j) < |now| && now[Moved(code, m, i + 1, j)] == before[j]
    {
      hide Moved;
      var x := before[j];
      assert was[Moved(code, m, i, j)] == x;
      MovedStep(code, m, i, j);
      if code[i].op == CEE_RET {
        SplicedAt(was, now, Moved(code, m, i, i) + 1, m, Moved(code, m, i, j));
      }
    }

    static lemma {:induction false} SplicedAt(was: seq<ILInstr>, now: seq<ILInstr>, k: nat, m: nat, at: nat)
      requires k <= |was| && |now| == |was| + m && now[..k] == was[..k] && now[k + m..] == was[k..] && at < |was|
      ensures now[if at < k then at else at + m] == was[at]
    {
      if at < k {
        assert now[at] == now[..k][at] == was[..k][at];
      } else {
        assert now[at + m] == now[k + m..][at - k] == was[k..][at - k];
      }
    }

    static lemma {:induction false} NextMoved(code: seq<Instr>, m: nat, i: nat)
      requires i < |code|
      ensures Moved(code, m, i + 1, i + 1) == Moved(code, m, i, i) + 1 + if code[i].op == CEE_RET then m else 0
    {
    }

    lemma {:induction false} NothingMoved(m: nat)
      requires Valid()
      ensures |ring| == |prog.code| + 1 && ring[|prog.code|] == sentinel && Distinct(ring)
      ensures Kept(ring, ring, prog.code, m, 0) && Unvisited(ring, prog.code, 0) && Moved(prog.code, m, 0, 0) == 0
    {
      forall a, b {:trigger ring[a], ring[b]} | 0 <= a < b < |ring|
        ensures ring[a] != ring[b]
      {
        PosAt(a);
        PosAt(b);
      }
    }

    /** One round of the exit loop at any node; it goes on behind the node, or behind the new RET. */
    method ExitRound(node: ILInstr, hook: nat, arg: Option<nat>) returns (next: ILInstr, added: bool)
      requires Valid() && Has(node) && node != sentinel
      modifies this`maxStack, this`nInstrs, this`ring, this`prog, ring`pos, ring`next, ring`prev, node`opcode
      ensures added <==> old(node.opcode) == CEE_RET
      ensures old(node.pos < |prog.code| && prog.code[node.pos].op == node.opcode)
      ensures Valid() && prog == if added then ExpandRet(old(prog), old(node.pos), hook, arg) else old(prog)
      ensures next in ring && Has(next) && next.pos <= |prog.code|
      ensures next.pos == old(node.pos) + 1 + if added then |Epilog(hook, arg)| else 0
      ensures if added then
                var k := old(node.pos) + 1;
                && k <= old(|ring|) && |ring| == old(|ring|) + |Epilog(hook, arg)|
                && ring[..k] == old(ring[..k]) && ring[k + |Epilog(hook, arg)|..] == old(ring)[k..]
              else ring == old(ring)
      ensures forall i {:trigger ring[i]} | 0 <= i < |ring| :: ring[i] in old(ring) || fresh(ring[i])
    {
      hide Valid, Splice, ExpandRet, Epilog;
      NextOf(node);
      added := node.opcode == CEE_RET;
      if added {
        var newRet := ExpandAt(node, hook, arg);
        NextOf(newRet);
        next := newRet.next;
      } else {
        next := node.next;
      }
      RingSize();
    }

    static lemma {:induction false} ExitLoopStep(p: Program, k: nat, hook: nat, arg: Option<nat>)
      requires k < |p.code|
      ensures var added := p.code[k].op == CEE_RET;
              var q, next := if added then ExpandRet(p, k, hook, arg) else p, k + 1 + if added then |Epilog(hook, arg)|
                else 0;
              && next <= |q.code| == |p.code| + (if added then |Epilog(hook, arg)| else 0)
              && ExitLoop(q, next, hook, arg) == ExitLoop(p, k, hook, arg)
              && (HasRetFrom(p.code, k) <==> added || HasRetFrom(q.code, next))
    {
      hide Splice, ExpandRet, Epilog;
      if p.code[k].op == CEE_RET {
        ExpandRetIsSplice(p, k, hook, arg);
      } else {
        RetFurtherOn(p.code, k);
      }
    }

    static lemma {:induction false} RetFurtherOn(code: seq<Instr>, k: nat)
      requires k < |code| && code[k].op != CEE_RET
      ensures HasRetFrom(code, k) <==> HasRetFrom(code, k + 1)
    {
    }

    static lemma {:induction false} ExitLoopEnds(p: Program, hook: nat, arg: Option<nat>)
      ensures ExitLoop(p, |p.code|, hook, arg) == p && !HasRetFrom(p.code, |p.code|)
    {
    }

    /** The exit loop has come to node, node i of the list before. */
    ghost predicate Exiting(node: ILInstr, before: seq<ILInstr>, code: seq<Instr>, m: nat, i: nat)
      reads this, node, before
    {
      && |before| == |code| + 1 && i <= |code| && before[|code|] == sentinel && Distinct(before)
      && node == before[i] && node.pos == Moved(code, m, i, i)
      && Kept(ring, before, code, m, i) && Unvisited(before, code, i)
    }

    lemma {:induction false} ExitStarts(node: ILInstr, m: nat)
      requires Valid() && Has(node) && node.pos == 0
      ensures Exiting(node, ring, prog.code, m, 0)
    {
      hide Kept, Unvisited, Distinct;
      NothingMoved(m);
    }

    /** At node i, not the sentinel, with its successors untouched. */
    lemma {:induction false} ExitingAt(node: ILInstr, before: seq<ILInstr>, code: seq<Instr>, m: nat, i: nat)
      requires Exiting(node, before, code, m, i)
      ensures |before| == |code| + 1 && i <= |code| && (node == sentinel <==> i == |code|)
      ensures node != sentinel ==>
                && node.opcode == code[i].op && node.pos == Moved(code, m, i, i) && Kept(ring, before, code, m, i)
                && forall j {:trigger code[j]} | i < j < |code| :: before[j] != node && before[j].opcode == code[j].op
      ensures node == sentinel ==> Kept(ring, before, code, m, i)
    {
      hide Kept, Moved;
      if i < |code| {
        assert before[i] != before[|code|];
        Here(before, code, i);
      }
    }

    lemma {:induction false} ExitingOn(
        was: seq<ILInstr>, next: ILInstr, before: seq<ILInstr>, code: seq<Instr>, m: nat, i: nat)
      requires |before| == |code| + 1 && i < |code| && before[|code|] == sentinel && Distinct(before)
      requires Kept(was, before, code, m, i) && Has(next)
      requires forall j {:trigger code[j]} | i < j < |code| :: before[j].opcode == code[j].op
      requires next.pos == Moved(code, m, i, i) + 1 + if code[i].op == CEE_RET then m else 0
      requires if code[i].op == CEE_RET then
                 var k := Moved(code, m, i, i) + 1;
                 k <= |was| && |ring| == |was| + m && ring[..k] == was[..k] && ring[k + m..] == was[k..]
               else ring == was
      ensures Exiting(next, before, code, m, i + 1)
    {
      hide Kept, Moved, Unvisited, Distinct;
      KeptStep(was, ring, before, code, m, i);
      Onward(before, code, i);
    }

    /** One round of the exit loop, with the place the node had in the list before. */
    method ExitStep(
        node: ILInstr, hook: nat, arg: Option<nat>, ghost before: seq<ILInstr>, ghost code: seq<Instr>, ghost i: nat)
        returns (next: ILInstr, added: bool)
      requires Valid() && Has(node) && node != sentinel && node.pos <= |prog.code|
      requires Exiting(node, before, code, |Epilog(hook, arg)|, i)
      modifies this`maxStack, this`nInstrs, this`ring, this`prog, ring`pos, ring`next, ring`prev, node`opcode
      ensures Valid() && next in ring && Has(next) && next.pos <= |prog.code|
      ensures Exiting(next, before, code, |Epilog(hook, arg)|, i + 1) && i < |code|
      ensures ExitLoop(prog, next.pos, hook, arg) == old(ExitLoop(prog, node.pos, hook, arg))
      ensures old(HasRetFrom(prog.code, node.pos)) <==> added || HasRetFrom(prog.code, next.pos)
      ensures |prog.code| - next.pos < old(|prog.code| - node.pos)
      ensures forall i {:trigger ring[i]} | 0 <= i < |ring| :: ring[i] in old(ring) || fresh(ring[i])
    {
      hide Valid, Splice, ExpandRet, Epilog, ExitLoop, HasRetFrom, Kept, Moved, Unvisited, Distinct;
      ghost var was, p, k := ring, prog, node.pos;
      ExitingAt(node, before, code, |Epilog(hook, arg)|, i);
      next, added := ExitRound(node, hook, arg);
      ExitLoopStep(p, k, hook, arg);
      ExitingOn(was, next, before, code, |Epilog(hook, arg)|, i);
    }

    /** Replaces every RET by NOP, exit probe and RET; fails when the method has no RET. Every node of
        the old list stays, in its order, and stands where the exit loop moves it. */
    method AddExitProbe(hook: nat, arg: Option<nat>) returns (ok: bool)
      requires Valid()
      modifies this`maxStack, this`nInstrs, this`ring, this`prog, ring`pos, ring`next, ring`prev, ring`opcode
      ensures Valid() && prog == ExitLoop(old(prog), 0, hook, arg)
      ensures ok <==> HasRet(old(prog.code))
      ensures |old(ring)| == |old(prog.code)| + 1
      ensures Kept(ring, old(ring), old(prog.code), |Epilog(hook, arg)|, |old(prog.code)|)
      ensures forall i {:trigger ring[i]} | 0 <= i < |ring| :: ring[i] in old(ring) || fresh(ring[i])
    {
      hide Valid, Splice, ExpandRet, Epilog, ExitLoop, HasRetFrom, Kept, Exiting;
      ok := false;
      FirstNode();
      ghost var before, code, i := ring, prog.code, 0;
      var node: ILInstr := sentinel.next;
      ExitStarts(node, |Epilog(hook, arg)|);
      while node != sentinel
        invariant Valid() && node in ring && Has(node) && node.pos <= |prog.code|
        invariant ExitLoop(prog, node.pos, hook, arg) == ExitLoop(old(prog), 0, hook, arg)
        invariant HasRet(old(prog.code)) <==> ok || HasRetFrom(prog.code, node.pos)
        invariant forall i {:trigger ring[i]} | 0 <= i < |ring| :: ring[i] in old(ring) || fresh(ring[i])
        invariant Exiting(node, before, code, |Epilog(hook, arg)|, i)
        decreases |prog.code| - node.pos
      {
        var added: bool;
        node, added := ExitStep(node, hook, arg, before, code, i);
        ok := ok || added;
        i := i + 1;
      }
      SentinelAt(sentinel);
      ExitingAt(node, before, code, |Epilog(hook, arg)|, i);
      ExitLoopEnds(prog, hook, arg);
    }

    static lemma {:induction false} Onward(before: seq<ILInstr>, code: seq<Instr>, i: nat)
      requires |before| == |code| + 1 && forall j {:trigger code[j]} | i < j < |code| :: before[j].opcode == code[j].op
      ensures Unvisited(before, code, i + 1)
    {
    }

    /** The node about to be visited, and those behind it. */
    static lemma {:induction false} Here(before: seq<ILInstr>, code: seq<Instr>, i: nat)
      requires |before| == |code| + 1 && i < |code| && Unvisited(before, code, i) && Distinct(before)
      ensures before[i].opcode == code[i].op
      ensures forall j {:trigger code[j]} | i < j < |code| :: before[j] != before[i] && before[j].opcode == code[j].op
    {
    }

    // ---------- import ----------

    /** The list is being read: no pointers yet, no clauses. */
    ghost predicate Reading()
      reads this, ring, eh
    {
      Valid() && NoTargets(prog.code) && prog.eh == []
    }

    static lemma {:induction false} AppendIsSplice(code: seq<Instr>, x: Instr)
      requires NoTargets(code) && x.target == NONE
      ensures Splice(Program(code, []), |code|, [x]) == Program(code + [x], []) && NoTargets(code + [x])
    {
      var q := Splice(Program(code, []), |code|, [x]);
      assert forall j {:trigger q.code[j]} | 0 <= j < |code| :: q.code[j] == code[j];
      assert q.code == code + [x];
    }

    /** A new node at the end of the list. */
    method Append(opcode: nat, arg: nat) returns (n: ILInstr)
      requires Reading()
      modifies this`maxStack, this`nInstrs, this`ring, this`prog, ring`pos, ring`next, ring`prev
      ensures Reading() && Has(n) && n.pos == old(|prog.code|) && n != sentinel && n.opcode == opcode
      ensures fresh(n) && ring == old(ring[..|prog.code|]) + [n, sentinel]
      ensures prog.code == old(prog.code) + [Instr(opcode, arg, NONE)]
    {
      hide ShowsClause, Shows, PushSum, Splice, Linked;
      SentinelPos();
      AppendIsSplice(prog.code, Instr(opcode, arg, NONE));
      assert prog == Program(prog.code, []);
      n := InsertNew(sentinel, opcode, arg);
    }

    lemma {:induction false} RingSize()
      requires Valid()
      ensures t.Valid() && |ring| == |prog.code| + 1 && ring[|prog.code|] == sentinel && |prog.code| == nInstrs
    {
    }

    /** The stack limit is the declared one and the pushes of every node. */
    lemma {:induction false} Limit()
      requires Valid()
      ensures maxStack == Low32(declared + PushSum(t, prog.code))
    {
    }

    lemma {:induction false} Apart(i: nat)
      requires Valid() && i < |ring|
      ensures forall j {:trigger ring[j]} | 0 <= j < |ring| :: ring[j] == ring[i] <==> j == i
    {
      NumberedApart(ring, i);
    }

    lemma {:induction false} SentinelPos()
      requires Valid()
      ensures Has(sentinel) && sentinel.pos == |prog.code|
    {
      hide ShowsClause, Shows, PushSum;
      assert ring[|ring| - 1].pos == |ring| - 1;
    }

    /** Sets the operand of a node: its argument, or the node it jumps to. */
    method SetOperand(node: ILInstr, arg: nat, target: ILInstr?, ghost pos: int)
      requires Valid() && Has(node) && node != sentinel && NONE <= pos < |ring| && target == NodeAt(ring, pos)
      modifies node`arg, node`target, this`prog
      ensures Valid() && node.pos == old(node.pos)
      ensures prog == old(prog).(code := old(prog.code)[node.pos := Instr(node.opcode, arg, pos)])
    {
      hide ShowsClause, PushSum;
      SentinelAt(node);
      ghost var k := node.pos;
      assert prog.code[k].op == ring[k].opcode;
      NumberedApart(ring, k);
      ghost var code := prog.code[k := Instr(node.opcode, arg, pos)];
      PushSumFrame(t, prog.code, code);
      node.arg := arg;
      node.target := target;
      prog := prog.(code := code);
    }

    /** Reads an opcode of one or two bytes. */
    method ReadOpcode(pIL: seq<Byte>, start: nat) returns (ok: bool, opcode: nat, offset: nat)
      requires t.Valid() && start < |pIL|
      ensures ok <==> DecodeOpcode(t, pIL, start).Some?
      ensures ok ==> DecodeOpcode(t, pIL, start) == Some(Opcode(opcode, offset))
    {
      opcode, offset := pIL[start], start + 1;
      if opcode == CEE_PREFIX1 {
        if offset >= |pIL| {
          return false, opcode, offset;
        }
        opcode := pIL[offset];
        opcode, offset := 0x100 + opcode, offset + 1;
      }
      if CEE_PREFIX7 <= opcode <= CEE_PREFIX2 {
        return false, opcode, offset;
      }
      if opcode >= t.Count() {
        return false, opcode, offset;
      }
      ok := true;
    }

    /** Reads the entries of a switch table into the list. */
    method ImportTable(pIL: seq<Byte>, start: nat, nTargets: nat, base: nat) returns (ok: bool)
      requires Reading() && start <= |pIL|
      modifies this`maxStack, this`nInstrs, this`ring, this`prog, ring`pos, ring`next, ring`prev
      ensures ok <==> start + 4 * nTargets <= |pIL|
      ensures ok ==> Reading() && prog.code == old(prog.code) + ReadTable(t, pIL, start, nTargets, base)
      ensures ok ==> ring[..old(|prog.code|)] == old(ring[..|prog.code|])
      ensures forall i {:trigger ring[i]} | 0 <= i < |ring| :: ring[i] in old(ring) || fresh(ring[i])
    {
      hide ShowsClause, Shows, Linked, PushSum, Word, NoTargets;
      var offset, iTarget := start, 0;
      while iTarget < nTargets
        invariant Reading() && iTarget <= nTargets && offset == start + 4 * iTarget
        invariant offset <= |pIL| && prog.code == old(prog.code) + ReadTable(t, pIL, start, iTarget, base)
        invariant |prog.code| >= old(|prog.code|) && ring[..old(|prog.code|)] == old(ring[..|prog.code|])
        invariant forall i {:trigger ring[i]} | 0 <= i < |ring| :: ring[i] in old(ring) || fresh(ring[i])
      {
        if offset + 4 > |pIL| {
          return false;
        }
        var entry := Append(t.SwitchArg(), Low32(base + Word(pIL, offset)));
        offset, iTarget := offset + 4, iTarget + 1;
      }
      ok := true;
    }

    /** Reads the operand of a switch and its table. */
    method ImportSwitch(pIL: seq<Byte>, node: ILInstr, operand: nat) returns (ok: bool, offset: nat)
      requires Reading() && Has(node) && node.pos == |prog.code| - 1 && operand <= |pIL| < CODE_LIMIT
      requires node.opcode == CEE_SWITCH
      modifies this`maxStack, this`nInstrs, this`ring, this`prog, ring`pos, ring`next, ring`prev, node`arg, node`target
      ensures ok <==> operand + 4 <= |pIL| && operand + 4 + 4 * Word(pIL, operand) <= |pIL|
      ensures ok ==>
                var n := Word(pIL, operand);
                && Reading() && offset == operand + 4 + 4 * n
                && prog.code == old(prog.code[..|prog.code| - 1]) + [Instr(CEE_SWITCH, n, NONE)]
                     + ReadTable(t, pIL, operand + 4, n, operand + 4 + 4 * n)
                && ring[..old(|prog.code|)] == old(ring[..|prog.code|])
      ensures forall i {:trigger ring[i]} | 0 <= i < |ring| :: ring[i] in old(ring) || fresh(ring[i])
    {
      hide ShowsClause, Shows, Linked, PushSum, Word, NoTargets, ReadTable;
      offset := operand;
      if offset + 4 > |pIL| {
        return false, offset;
      }
      var nTargets := Word(pIL, offset);
      SetLast(node, nTargets);
      offset := offset + 4;
      var base := Low32(offset + 4 * nTargets);
      ok := ImportTable(pIL, offset, nTargets, base);
      if ok {
        TableBase(t, pIL, offset, nTargets, offset + 4 * nTargets);
      }
      offset := offset + 4 * nTargets;
    }

    /** Entries only use the base modulo 2^32. */
    static lemma {:induction false} TableBase(t: OpcodeTable, pIL: seq<Byte>, o: nat, n: nat, base: nat)
      requires o + 4 * n <= |pIL|
      ensures ReadTable(t, pIL, o, n, Low32(base)) == ReadTable(t, pIL, o, n, base)
    {
      hide Word, Low32;
      if n > 0 {
        TableBase(t, pIL, o, n - 1, base);
        LowAdds(base, Word(pIL, o + 4 * (n - 1)));
      }
    }

    /** Sets the operand of the node just appended. */
    method SetLast(node: ILInstr, arg: nat)
      requires Reading() && Has(node) && node.pos == |prog.code| - 1
      modifies node`arg, node`target, this`prog
      ensures Reading() && node.pos == old(node.pos)
      ensures prog.code == old(prog.code[..|prog.code| - 1]) + [Instr(node.opcode, arg, NONE)]
    {
      hide ShowsClause, Shows, Linked, PushSum;
      SentinelAt(node);
      SetOperand(node, arg, null, NONE);
    }

    /** Reads the operand of the node just appended; a switch brings its table. */
    method ImportOperand(pIL: seq<Byte>, node: ILInstr, operand: nat) returns (ok: bool, offset: nat)
      requires Reading() && Has(node) && node.pos == |prog.code| - 1 && operand <= |pIL| < CODE_LIMIT
      requires !t.FlagsOf(node.opcode).SwitchTable? ==> operand + t.OperandSize(node.opcode) <= |pIL|
      modifies this`maxStack, this`nInstrs, this`ring, this`prog, ring`pos, ring`next, ring`prev, node`arg, node`target
      ensures ok <==> ReadOperand(t, pIL, node.opcode, operand).Some?
      ensures ok ==>
                && Reading() && offset == ReadOperand(t, pIL, node.opcode, operand).value.next
                && prog.code == old(prog.code[..|prog.code| - 1]) + ReadOperand(t, pIL, node.opcode, operand).value.code
                && ring[..old(|prog.code|)] == old(ring[..|prog.code|])
      ensures forall i {:trigger ring[i]} | 0 <= i < |ring| :: ring[i] in old(ring) || fresh(ring[i])
    {
      hide ShowsClause, Shows, Linked, PushSum, Word, NoTargets, ReadTable, FromLE, OpcodeTable.Valid;
      ok, offset := true, operand;
      match t.FlagsOf(node.opcode) {
        case Plain(n) =>
          SetLast(node, FromLE(pIL[offset..offset + n]));
          offset := offset + n;
        case ShortBranch =>
          SetLast(node, Low32(offset + 1 + Int8(pIL[offset])));
          offset := offset + 1;
        case LongBranch =>
          SetLast(node, Low32(offset + 4 + Word(pIL, offset)));
          offset := offset + 4;
        case SwitchTable =>
          SwitchOnly(t, node.opcode);
          ok, offset := ImportSwitch(pIL, node, offset);
      }
    }

    /** Reads the instruction at start, a switch with its table, into the list. */
    method ImportInstr(pIL: seq<Byte>, start: nat) returns (ok: bool, offset: nat, node: ILInstr)
      requires Reading() && start < |pIL| < CODE_LIMIT
      modifies this`maxStack, this`nInstrs, this`ring, this`prog, ring`pos, ring`next, ring`prev
      ensures ok <==> ReadInstr(t, pIL, start).Some?
      ensures ok ==>
                && Reading() && offset == ReadInstr(t, pIL, start).value.next
                && prog.code == old(prog.code) + ReadInstr(t, pIL, start).value.code
                && ring[..old(|prog.code|)] == old(ring[..|prog.code|]) && ring[old(|prog.code|)] == node
                && node.opcode == ReadInstr(t, pIL, start).value.code[0].op
      ensures forall i {:trigger ring[i]} | 0 <= i < |ring| :: ring[i] in old(ring) || fresh(ring[i])
    {
      hide ShowsClause, Shows, Linked, PushSum, NoTargets, ReadOperand, DecodeOpcode, OpcodeTable.Valid;
      node := sentinel;
      var opcode: nat;
      ok, opcode, offset := ReadOpcode(pIL, start);
      if !ok {
        return;
      }
      if !t.FlagsOf(opcode).SwitchTable? && offset + t.OperandSize(opcode) > |pIL| {
        OperandTooLong(t, pIL, opcode, offset);
        return false, offset, node;
      }
      node := Append(opcode, 0);
      ghost var n, appended := old(|prog.code|), ring[..|prog.code|];
      assert prog.code[..n] == old(prog.code);
      assert appended[..n] == old(ring[..|prog.code|]) && appended[n] == node;
      ok, offset := ImportOperand(pIL, node, offset);
      assert ok ==> ring[..n + 1] == appended && ring[..n] == appended[..n] && ring[n] == appended[n];
      if ok {
        OpcodeShown(n);
      }
    }

    static lemma {:induction false} OperandTooLong(t: OpcodeTable, pIL: seq<Byte>, op: nat, k: nat)
      requires t.Valid() && k <= |pIL| && !t.FlagsOf(op).SwitchTable? && k + t.OperandSize(op) > |pIL|
      ensures ReadOperand(t, pIL, op, k).None?
    {
    }

    static lemma {:induction false} SwitchOnly(t: OpcodeTable, op: nat)
      requires t.Valid() && t.FlagsOf(op).SwitchTable?
      ensures op == CEE_SWITCH
    {
      assert t.flags[op].SwitchTable?;
    }

    /** The offset table up to an offset: the node that starts there, null elsewhere. */
    static ghost predicate Indexed(
        t: OpcodeTable, table: seq<ILInstr?>, ring: seq<ILInstr>, code: seq<Instr>, offset: nat)
      requires t.Valid()
    {
      && offset < |table|
      && forall o {:trigger table[o]} | 0 <= o < |table| - 1 ::
           table[o] == if o < offset then NodeAt(ring, Lookup(t, code, o)) else null
    }

    /** The finished table answers every offset. */
    static ghost predicate IndexComplete(t: OpcodeTable, table: seq<ILInstr?>, ring: seq<ILInstr>, code: seq<Instr>)
      requires t.Valid()
    {
      && |table| == Off(t, code, |code|) + 1
      && forall o {:trigger table[o]} | 0 <= o < |table| :: table[o] == NodeAt(ring, Lookup(t, code, o))
    }

    static lemma {:induction false} IndexAdvances(
        t: OpcodeTable, pIL: seq<Byte>, start: nat, table: seq<ILInstr?>, ring: seq<ILInstr>,
                                                  code: seq<Instr>, now: seq<ILInstr>, grown: seq<Instr>)
      requires t.Valid() && start < |pIL| == |table| - 1 && ReadInstr(t, pIL, start).Some?
      requires NoEmpty(t, code) && Off(t, code, |code|) == start && Indexed(t, table, ring, code, start)
      requires grown == code + ReadInstr(t, pIL, start).value.code
      requires |ring| == |code| + 1 && |now| == |grown| + 1 && now[..|code|] == ring[..|code|]
      ensures NoEmpty(t, grown) && Off(t, grown, |grown|) == ReadInstr(t, pIL, start).value.next
      ensures Indexed(t, table[start := now[|code|]], now, grown, ReadInstr(t, pIL, start).value.next)
    {
      hide Off, ReadInstr, Lookup;
      var c := ReadInstr(t, pIL, start).value;
      ChunkShape(t, pIL, start);
      ReadInstrExact(t, pIL, start);
      OffConcat(t, code, c.code, |c.code|);
      forall o | 0 <= o < c.next
        ensures NodeAt(now, Lookup(t, grown, o)) == table[start := now[|code|]][o] == if o == start then now[|code|]
                else if o < start then table[o] else null
      {
        LookupGrown(t, code, c.code, o);
        if o < start {
          var pos := Lookup(t, code, o);
          assert table[o] == NodeAt(ring, pos);
          assert 0 <= pos < |code| ==> now[pos] == now[..|code|][pos] && ring[pos] == ring[..|code|][pos];
        }
      }
    }

    /** What one step reads: an instruction, then only table entries. */
    static lemma {:induction false} ChunkShape(t: OpcodeTable, pIL: seq<Byte>, start: nat)
      requires t.Valid() && start < |pIL| && ReadInstr(t, pIL, start).Some?
      ensures var c := ReadInstr(t, pIL, start).value.code;
              && NoEmpty(t, c) && c[0].op != t.SwitchArg()
              && forall j {:trigger c[j]} | 0 < j < |c| :: c[j].op == t.SwitchArg()
    {
      hide Word, FromLE, ReadTable, RawTyped;
      var c := ReadInstr(t, pIL, start).value.code;
      assert c[0].op == DecodeOpcode(t, pIL, start).value.op;
      if |c| > 1 {
        SwitchChunk(t, pIL, start);
      }
    }

    static lemma {:induction false} EntryStartsNothing(
        t: OpcodeTable, code: seq<Instr>, chunk: seq<Instr>, pos: nat, o: nat)
      requires t.Valid() && |code| < pos < |code + chunk| && chunk[pos - |code|].op == t.SwitchArg()
      ensures !StartsAt(t, code + chunk, pos, o)
    {
    }

    static lemma {:induction false} LookupGrown(t: OpcodeTable, code: seq<Instr>, chunk: seq<Instr>, o: nat)
      requires t.Valid() && NoEmpty(t, code) && NoEmpty(t, chunk) && |chunk| > 0
      requires chunk[0].op != t.SwitchArg() && forall j {:trigger chunk[j]} | 0 < j < |chunk| ::
               chunk[j].op == t.SwitchArg()
      requires o < Off(t, code + chunk, |code + chunk|)
      ensures NoEmpty(t, code + chunk)
      ensures o < Off(t, code, |code|) ==> Lookup(t, code + chunk, o) == Lookup(t, code, o) < |code|
      ensures o == Off(t, code, |code|) ==> Lookup(t, code + chunk, o) == |code|
      ensures o > Off(t, code, |code|) ==> Lookup(t, code + chunk, o) == NONE
    {
      hide Off;
      var both := code + chunk;
      assert NoEmpty(t, both);
      OffFrame(t, both, code, |code|);
      var pos, pos' := Lookup(t, both, o), Lookup(t, code, o);
      if pos != NONE {
        OffOrder(t, both, pos, |code|);
        OffOrder(t, both, |both|, pos);
        if pos < |code| {
          OffFrame(t, both, code, pos);
          LookupIsExact(t, code, pos);
        } else if |code| < pos {
          EntryStartsNothing(t, code, chunk, pos, o);
        }
      }
      if pos' != NONE && o < Off(t, code, |code|) {
        OffFrame(t, both, code, pos');
        LookupIsExact(t, both, pos');
      }
      if o == Off(t, code, |code|) {
        LookupIsExact(t, both, |code|);
      }
    }

    lemma {:induction false} OpcodeShown(i: nat)
      requires Valid() && i < |prog.code|
      ensures ring[i].opcode == prog.code[i].op
    {
    }

    static ghost function Prepend(code: seq<Instr>, rest: Option<seq<Instr>>): Option<seq<Instr>> {
      if rest.Some? then Some(code + rest.value) else None
    }

    static ghost predicate BranchFree(t: OpcodeTable, code: seq<Instr>) {
      forall j {:trigger code[j]} | 0 <= j < |code| :: !t.IsBranch(code[j].op)
    }

    /** The list and the offset table hold what ReadFrom finds in front of offset. */
    ghost predicate ReadingAt(pIL: seq<Byte>, offset: nat, fBranch: bool)
      reads this, ring, eh, offsetToInstr
    {
      && Reading() && offset <= codeSize == |pIL| < CODE_LIMIT
      && NoEmpty(t, prog.code) && Off(t, prog.code, |prog.code|) == offset
      && offsetToInstr.Length == codeSize + 1 && offsetToInstr[codeSize] == sentinel
      && Indexed(t, offsetToInstr[..], ring, prog.code, offset)
      && ReadFrom(t, pIL, 0) == Prepend(prog.code, ReadFrom(t, pIL, offset))
      && (!fBranch ==> BranchFree(t, prog.code))
    }

    /** A table that knows only the sentinel. */
    method AllocateTable(pIL: seq<Byte>)
      requires Reading() && prog.code == [] && codeSize == |pIL| < CODE_LIMIT
      modifies this`offsetToInstr
      ensures ReadingAt(pIL, 0, false) && fresh(offsetToInstr)
    {
      hide ShowsClause, Shows, Linked, PushSum, NoTargets, ReadFrom, Off, Indexed, NoEmpty;
      offsetToInstr := new ILInstr?[codeSize + 1](_ => null);
      offsetToInstr[codeSize] := sentinel;
      StartIndex(t, offsetToInstr[..], ring);
      PrependNothing(ReadFrom(t, pIL, 0));
    }

    /** One round of the import loop. */
    method ImportAt(pIL: seq<Byte>, offset: nat, wasBranch: bool) returns (ok: bool, next: nat, fBranch: bool)
      requires ReadingAt(pIL, offset, wasBranch) && offset < codeSize
      modifies this`maxStack, this`nInstrs, this`ring, this`prog, ring`pos, ring`next, ring`prev, offsetToInstr
      ensures ok ==> ReadingAt(pIL, next, fBranch) && offset < next
      ensures !ok ==> ReadFrom(t, pIL, 0).None?
      ensures forall i {:trigger ring[i]} | 0 <= i < |ring| :: ring[i] in old(ring) || fresh(ring[i])
    {
      hide ShowsClause, Shows, Linked, PushSum, NoTargets, ReadInstr, Off, Indexed, NoEmpty, OpcodeTable.Valid;
      var node: ILInstr;
      ghost var code, nodes, table := prog.code, ring, offsetToInstr[..];
      ok, next, node := ImportInstr(pIL, offset);
      fBranch := wasBranch;
      if ok {
        IndexAdvances(t, pIL, offset, table, nodes, code, ring, prog.code);
        ChunkBranches(t, pIL, offset);
        ReadFromStep(t, pIL, offset, code);
        offsetToInstr[offset] := node;
        assert offsetToInstr[..] == table[offset := node];
        fBranch := fBranch || t.IsBranch(node.opcode) || node.opcode == CEE_SWITCH;
      }
    }

    /** Reads the instructions into the list; jump operands are still byte offsets. */
    method ReadCode(pIL: seq<Byte>) returns (ok: bool, fBranch: bool)
      requires Reading() && prog.code == [] && codeSize == |pIL| < CODE_LIMIT
      modifies this`maxStack, this`nInstrs, this`ring, this`prog, this`offsetToInstr, ring`pos, ring`next, ring`prev
      ensures ok <==> ReadFrom(t, pIL, 0).Some?
      ensures ok ==>
                && Reading() && prog.code == ReadFrom(t, pIL, 0).value && fresh(offsetToInstr)
                && IndexComplete(t, offsetToInstr[..], ring, prog.code)
                && NoEmpty(t, prog.code) && (!fBranch ==> BranchFree(t, prog.code))
      ensures forall i {:trigger ring[i]} | 0 <= i < |ring| :: ring[i] in old(ring) || fresh(ring[i])
    {
      hide Valid, NoTargets, ReadInstr, Off, Indexed, NoEmpty, OpcodeTable.Valid;
      AllocateTable(pIL);
      fBranch := false;
      var offset := 0;
      while offset < codeSize
        invariant ReadingAt(pIL, offset, fBranch) && fresh(offsetToInstr)
        invariant forall i {:trigger ring[i]} | 0 <= i < |ring| :: ring[i] in old(ring) || fresh(ring[i])
      {
        ok, offset, fBranch := ImportAt(pIL, offset, fBranch);
        if !ok {
          return;
        }
      }
      RingSize();
      assert ReadFrom(t, pIL, codeSize) == Some([]) && prog.code + [] == prog.code;
      IndexFinishes(t, offsetToInstr[..], ring, prog.code);
      ok := true;
    }

    static lemma {:induction false} PrependNothing(rest: Option<seq<Instr>>)
      ensures Prepend([], rest) == rest
    {
      if rest.Some? {
        assert [] + rest.value == rest.value;
      }
    }

    static lemma {:induction false} StartIndex(t: OpcodeTable, table: seq<ILInstr?>, ring: seq<ILInstr>)
      requires t.Valid() && |table| > 0 && forall o {:trigger table[o]} | 0 <= o < |table| - 1 :: table[o] == null
      ensures Indexed(t, table, ring, [], 0) && NoEmpty(t, []) && Off(t, [], 0) == 0
    {
    }

    static lemma {:induction false} IndexFinishes(
        t: OpcodeTable, table: seq<ILInstr?>, ring: seq<ILInstr>, code: seq<Instr>)
      requires t.Valid() && NoEmpty(t, code) && |ring| == |code| + 1 && |table| == Off(t, code, |code|) + 1
      requires Indexed(t, table, ring, code, |table| - 1) && table[|table| - 1] == ring[|code|]
      ensures IndexComplete(t, table, ring, code)
    {
      LookupIsExact(t, code, |code|);
    }

    static lemma {:induction false} ChunkBranches(t: OpcodeTable, pIL: seq<Byte>, start: nat)
      requires t.Valid() && start < |pIL| && ReadInstr(t, pIL, start).Some?
      ensures var c := ReadInstr(t, pIL, start).value.code;
              !t.IsBranch(c[0].op) && c[0].op != CEE_SWITCH ==> BranchFree(t, c)
    {
      hide ReadInstr, Word, ReadTable, FromLE;
      var c := ReadInstr(t, pIL, start).value.code;
      if |c| > 1 {
        SwitchChunk(t, pIL, start);
      }
    }

    static lemma {:induction false} ReadFromStep(t: OpcodeTable, pIL: seq<Byte>, start: nat, code: seq<Instr>)
      requires t.Valid() && start < |pIL| && ReadInstr(t, pIL, start).Some?
      ensures var c := ReadInstr(t, pIL, start).value;
              Prepend(code, ReadFrom(t, pIL, start)) == Prepend(code + c.code, ReadFrom(t, pIL, c.next))
    {
      hide ReadInstr;
      var c := ReadInstr(t, pIL, start).value;
      if ReadFrom(t, pIL, c.next).Some? {
        assert code + (c.code + ReadFrom(t, pIL, c.next).value) == code + c.code + ReadFrom(t, pIL, c.next).value;
      }
    }

    /** The offset table is complete. */
    ghost predicate Ready()
      reads this, ring, eh, offsetToInstr
    {
      Valid() && offsetToInstr.Length == codeSize + 1 && IndexComplete(t, offsetToInstr[..], ring, prog.code)
    }

    /** The node that starts at an offset, null when there is none. */
    method GetInstrFromOffset(offset: nat) returns (n: ILInstr?)
      requires Ready()
      ensures n == NodeAt(ring, Lookup(t, prog.code, offset))
    {
      hide ShowsClause, Shows, Linked, PushSum;
      n := null;
      if offset <= codeSize {
        n := offsetToInstr[offset];
        assert n == offsetToInstr[..][offset];
      } else {
        BeyondCode(t, prog.code, offset);
      }
    }

    static lemma {:induction false} BeyondCode(t: OpcodeTable, code: seq<Instr>, o: nat)
      requires t.Valid() && o > Off(t, code, |code|)
      ensures Lookup(t, code, o) == NONE
    {
      var pos := Lookup(t, code, o);
      if pos != NONE {
        OffMonotone(t, code, pos, |code|);
      }
    }

    /** The list after its first n nodes have been resolved. */
    static ghost function ResolvedTo(t: OpcodeTable, raw: seq<Instr>, n: nat): (r: seq<Instr>)
      requires t.Valid() && n <= |raw|
      ensures |r| == |raw|
      ensures forall i {:trigger r[i]} | 0 <= i < |r| :: r[i] == if i < n then Resolve(t, raw, raw[i]) else raw[i]
    {
      seq(|raw|, i requires 0 <= i < |raw| => if i < n then Resolve(t, raw, raw[i]) else raw[i])
    }

    /** Offsets, and so the offset table, are the same before and after resolving. */
    static lemma {:induction false} LookupResolved(t: OpcodeTable, raw: seq<Instr>, n: nat, o: nat)
      requires t.Valid() && n <= |raw| && NoEmpty(t, raw)
      ensures Lookup(t, ResolvedTo(t, raw, n), o) == Lookup(t, raw, o)
      ensures Off(t, ResolvedTo(t, raw, n), |raw|) == Off(t, raw, |raw|)
    {
      hide Off, Lookup;
      var code := ResolvedTo(t, raw, n);
      OffFrame(t, code, raw, |raw|);
      var a, b := Lookup(t, raw, o), Lookup(t, code, o);
      if a != NONE {
        OffFrame(t, code, raw, a);
        LookupIsExact(t, code, a);
      } else if b != NONE {
        OffFrame(t, code, raw, b);
        LookupIsExact(t, raw, b);
      }
    }

    static lemma {:induction false} IndexResolved(
        t: OpcodeTable, table: seq<ILInstr?>, ring: seq<ILInstr>, raw: seq<Instr>, n: nat)
      requires t.Valid() && n <= |raw| && NoEmpty(t, raw)
      requires IndexComplete(t, table, ring, raw)
      ensures IndexComplete(t, table, ring, ResolvedTo(t, raw, n))
    {
      hide Lookup, Off;
      LookupResolved(t, raw, n, 0);
      forall o {:trigger table[o]} | 0 <= o < |table|
        ensures table[o] == NodeAt(ring, Lookup(t, ResolvedTo(t, raw, n), o))
      {
        LookupResolved(t, raw, n, o);
      }
    }

    /** Turns every jump operand into a pointer. */
    method ResolveTargets()
      requires Ready() && prog.eh == [] && NoEmpty(t, prog.code)
      modifies this`prog, ring`arg, ring`target
      ensures Ready() && prog == Program(ResolveAll(t, old(prog.code)), [])
    {
      hide Valid, Lookup, NoEmpty, Off, OpcodeTable.Valid;
      ghost var raw := prog.code;
      ghost var i := 0;
      RingSize();
      FirstNode();
      var node := sentinel.next;
      assert ResolvedTo(t, raw, 0) == raw;
      while node != sentinel
        invariant Ready() && node != null && node in ring && Has(node)
        invariant i == node.pos <= |raw| && prog == Program(ResolvedTo(t, raw, i), [])
        decreases |raw| - i
      {
        NextOf(node);
        ResolveNode(node, raw);
        NextOf(node);
        i := i + 1;
        node := node.next;
      }
      SentinelAt(sentinel);
      assert ResolvedTo(t, raw, |raw|) == ResolveAll(t, raw);
    }

    /** Resolves one node behind those resolved before. */
    method ResolveNode(node: ILInstr, ghost raw: seq<Instr>)
      requires Ready() && NoEmpty(t, raw) && Has(node) && node != sentinel && node.pos < |raw|
      requires prog == Program(ResolvedTo(t, raw, node.pos), []) && Off(t, raw, |raw|) == codeSize
      modifies node`arg, node`target, this`prog
      ensures Ready() && node.pos == old(node.pos) && prog == Program(ResolvedTo(t, raw, node.pos + 1), [])
    {
      hide Valid, Lookup, NoEmpty, Off, OpcodeTable.Valid;
      RingSize();
      ArgShown(node);
      ghost var i := node.pos;
      forall o {:trigger offsetToInstr[..][o]} | 0 <= o < offsetToInstr.Length
        ensures Lookup(t, ResolvedTo(t, raw, i), o) == Lookup(t, ResolvedTo(t, raw, i + 1), o)
      {
        LookupResolved(t, raw, i, o);
        LookupResolved(t, raw, i + 1, o);
      }
      LookupResolved(t, raw, i, node.arg);
      LookupResolved(t, raw, i + 1, node.arg);
      if t.IsBranch(node.opcode) {
        var target := GetInstrFromOffset(node.arg);
        SetOperand(node, 0, target, Lookup(t, raw, node.arg));
      }
      assert prog.code == ResolvedTo(t, raw, i + 1);
    }

    lemma {:induction false} ArgShown(node: ILInstr)
      requires Valid() && Has(node) && node != sentinel
      ensures node.pos < |prog.code| && prog.code[node.pos].op == node.opcode && prog.code[node.pos].arg == node.arg
    {
      SentinelAt(node);
    }

    /** Imports a code body: rejects exactly what Parse rejects, and otherwise builds its list. */
    method ImportIL(pIL: seq<Byte>) returns (ok: bool)
      requires Reading() && prog.code == [] && codeSize == |pIL| < CODE_LIMIT
      modifies this`maxStack, this`nInstrs, this`ring, this`prog, this`offsetToInstr, ring
      ensures ok <==> Parse(t, pIL).Some?
      ensures ok ==>
                Ready() && prog == Program(Parse(t, pIL).value, []) && fresh(offsetToInstr)
      ensures forall i {:trigger ring[i]} | 0 <= i < |ring| :: ring[i] in old(ring) || fresh(ring[i])
    {
      hide ShowsClause, Shows, Linked, PushSum, NoTargets, Off, IndexComplete, NoEmpty, OpcodeTable.Valid, ReadFrom;
      var fBranch: bool;
      ok, fBranch := ReadCode(pIL);
      if ok {
        ghost var raw := prog.code;
        IndexLength(t, offsetToInstr[..], ring, raw, pIL);
        IndexResolved(t, offsetToInstr[..], ring, raw, |raw|);
        assert ResolvedTo(t, raw, |raw|) == ResolveAll(t, raw);
        if fBranch {
          ResolveTargets();
        } else {
          NothingToResolve(t, raw);
        }
      }
    }

    static lemma {:induction false} IndexLength(
        t: OpcodeTable, table: seq<ILInstr?>, ring: seq<ILInstr>, raw: seq<Instr>, pIL: seq<Byte>)
      requires t.Valid() && IndexComplete(t, table, ring, raw) && ReadFrom(t, pIL, 0) == Some(raw)
      ensures |table| == |pIL| + 1
    {
      ReadFromExact(t, pIL, 0);
    }

    static lemma {:induction false} NothingToResolve(t: OpcodeTable, raw: seq<Instr>)
      requires t.Valid() && BranchFree(t, raw)
      ensures ResolveAll(t, raw) == raw
    {
      forall i | 0 <= i < |raw|
        ensures ResolveAll(t, raw)[i] == raw[i]
      {
        assert !t.IsBranch(raw[i].op);
      }
    }

    /** The pointers of one clause. */
    method ReadClause(f: FatClause) returns (e: EHClause)
      requires Ready() && HandlerEnds(t, prog.code, f)
      ensures ShowsClause(ring, e, ImportClause(t, prog.code, f))
    {
      hide Shows, Linked, PushSum, IndexComplete, OpcodeTable.Valid, Lookup, Low32, HandlerEnds, ImportClause,
        ShowsClause;
      var tryBegin := GetInstrFromOffset(f.tryOffset);
      var tryEnd := GetInstrFromOffset(Low32(f.tryOffset + f.tryLength));
      var handlerBegin := GetInstrFromOffset(f.handlerOffset);
      var handlerNext := GetInstrFromOffset(Low32(f.handlerOffset + f.handlerLength));
      LookupBounds(t, prog.code, f);
      PrevAt(Lookup(t, prog.code, Low32(f.handlerOffset + f.handlerLength)));
      var handlerEnd := handlerNext.prev;
      if f.flags % 2 != EH_FILTER {
        e := EHClause(f.flags, tryBegin, tryEnd, handlerBegin, handlerEnd, f.tokenOrFilter, null);
      } else {
        var filter := GetInstrFromOffset(f.tokenOrFilter);
        e := EHClause(f.flags, tryBegin, tryEnd, handlerBegin, handlerEnd, 0, filter);
      }
      ClauseShown(t, ring, prog.code, f, e);
    }

    static lemma {:induction false} ClauseShown(
        t: OpcodeTable, ring: seq<ILInstr>, code: seq<Instr>, f: FatClause, e: EHClause)
      requires t.Valid() && HandlerEnds(t, code, f) && |ring| == |code| + 1 && e.flags == f.flags
      requires e.tryBegin == NodeAt(ring, Lookup(t, code, f.tryOffset))
      requires e.tryEnd == NodeAt(ring, Lookup(t, code, Low32(f.tryOffset + f.tryLength)))
      requires e.handlerBegin == NodeAt(ring, Lookup(t, code, f.handlerOffset))
      requires Lookup(t, code, Low32(f.handlerOffset + f.handlerLength)) >= 0
      requires e.handlerEnd == NodeAt(ring, Prev(|code|, Lookup(t, code, Low32(f.handlerOffset + f.handlerLength))))
      requires e.classToken == if f.flags % 2 == EH_FILTER then 0 else f.tokenOrFilter
      requires e.filter == if f.flags % 2 == EH_FILTER then NodeAt(ring, Lookup(t, code, f.tokenOrFilter)) else null
      ensures ShowsClause(ring, e, ImportClause(t, code, f))
    {
      hide Low32, Lookup, OpcodeTable.Valid, HandlerEnds, Prev, ShowsClause;
      LookupBounds(t, code, f);
      PrevInside(|code|, Lookup(t, code, Low32(f.handlerOffset + f.handlerLength)));
      FieldsShown(ring, e, ImportClause(t, code, f));
    }

    static lemma {:induction false} FieldsShown(ring: seq<ILInstr>, e: EHClause, c: Clause)
      requires e.flags == c.flags && e.classToken == c.token
      requires NONE <= c.tryBegin < |ring| && NONE <= c.tryEnd < |ring| && NONE <= c.handlerBegin < |ring|
      requires c.handlerEnd < |ring| && NONE <= c.filter < |ring|
      requires e.tryBegin == NodeAt(ring, c.tryBegin) && e.tryEnd == NodeAt(ring, c.tryEnd)
      requires e.handlerBegin == NodeAt(ring, c.handlerBegin) && e.handlerEnd == ring[c.handlerEnd]
      requires e.filter == NodeAt(ring, c.filter)
      ensures ShowsClause(ring, e, c)
    {
    }

    static lemma {:induction false} PrevInside(n: nat, i: nat)
      requires i <= n
      ensures 0 <= Prev(n, i) <= n
    {
    }

    lemma {:induction false} ReadyTable()
      requires Ready()
      ensures t.Valid()
    {
    }

    /** The pointers of all clauses. */
    method ReadClauses(clauses: seq<FatClause>) returns (table: array<EHClause>)
      requires Ready() && HandlersEnd(t, prog.code, clauses)
      ensures fresh(table) && table.Length == |clauses|
      ensures forall c {:trigger table[c]} | 0 <= c < |clauses| ::
              ShowsClause(ring, table[c], ImportClause(t, prog.code, clauses[c]))
    {
      hide Ready, HandlerEnds, ImportClause, ShowsClause;
      ReadyTable();
      table := new EHClause[|clauses|];
      var iEH := 0;
      while iEH < |clauses|
        modifies table
        invariant iEH <= |clauses| == table.Length
        invariant forall c {:trigger table[c]} | 0 <= c < iEH ::
                  ShowsClause(ring, table[c], ImportClause(t, prog.code, clauses[c]))
      {
        var clause := ReadClause(clauses[iEH]);
        table[iEH] := clause;
        iEH := iEH + 1;
      }
    }

    /** Imports the exception clauses; an offset that is no instruction start gives a null pointer. */
    method ImportEH(clauses: seq<FatClause>)
      requires Ready() && prog.eh == [] && HandlersEnd(t, prog.code, clauses)
      modifies this`prog, this`eh
      ensures Valid() && prog == Program(old(prog.code), ImportClauses(t, old(prog.code), clauses))
    {
      hide ShowsClause, Shows, Linked, PushSum, IndexComplete, OpcodeTable.Valid, ImportClause, HandlerEnds;
      if |clauses| == 0 {
        assert prog == Program(prog.code, ImportClauses(t, prog.code, clauses));
        return;
      }
      eh := ReadClauses(clauses);
      prog := Program(prog.code, ImportClauses(t, prog.code, clauses));
    }

    lemma {:induction false} PrevAt(i: nat)
      requires Valid() && i <= |prog.code|
      ensures |ring| == |prog.code| + 1 && ring[i].prev == ring[Prev(|prog.code|, i)]
    {
    }

    static lemma {:induction false} LookupBounds(t: OpcodeTable, code: seq<Instr>, f: FatClause)
      requires t.Valid() && HandlerEnds(t, code, f)
      ensures NONE <= Lookup(t, code, f.tryOffset) <= |code|
              && NONE <= Lookup(t, code, Low32(f.tryOffset + f.tryLength)) <= |code|
      ensures NONE <= Lookup(t, code, f.handlerOffset) <= |code|
      ensures 0 <= Lookup(t, code, Low32(f.handlerOffset + f.handlerLength)) <= |code|
      ensures NONE <= Lookup(t, code, f.tokenOrFilter) <= |code|
    {
    }

    // ---------- export ----------

    /** What the layout pass writes for node i: all of it, but only the opcode of a jump. */
    static function Skeleton(t: OpcodeTable, code: seq<Instr>, i: nat): seq<Byte>
      requires t.Valid() && i < |code|
    {
      if t.IsBranch(code[i].op) then t.OpcodeBytes(code[i].op) else EncodeInstr(t, code, i)
    }

    /** The nodes carry the offsets of this list. */
    static ghost predicate LaidOut(t: OpcodeTable, ring: seq<ILInstr>, code: seq<Instr>, n: nat)
      requires t.Valid() && n <= |code| + 1 <= |ring|
      reads ring`offset
    {
      forall i {:trigger ring[i].offset} | 0 <= i < n :: ring[i].offset == Off(t, code, i)
    }

    static ghost predicate SkeletonTo(t: OpcodeTable, code: seq<Instr>, out: seq<Byte>, n: nat)
      requires t.Valid() && n <= |code|
    {
      forall i {:trigger Skeleton(t, code, i)} | 0 <= i < n :: Holds(out, Off(t, code, i), Skeleton(t, code, i))
    }

    /** Writes the opcode and the plain operand of a node at its offset. */
    method EmitNode(buffer: array<Byte>, node: ILInstr, start: nat) returns (offset: nat)
      requires Valid() && Has(node) && node != sentinel && start + 10 <= buffer.Length
      requires start == Off(t, prog.code, node.pos)
      modifies buffer
      ensures offset == start + t.Size(node.opcode) && buffer[..start] == old(buffer[..start])
      ensures Holds(buffer[..], start, Skeleton(t, prog.code, node.pos))
    {
      hide Linked, PushSum, Off, Patch, Holds, OpcodeTable.OpcodeBytes;
      ArgShown(node);
      var opcode := t.OpcodeBytes(node.opcode);
      Emit(buffer, start, opcode);
      PatchHolds(old(buffer[..]), start, opcode);
      PatchKeepsPrefix(old(buffer[..]), start, opcode, start);
      offset := start + |opcode|;
      if !t.IsBranch(node.opcode) {
        ghost var written := buffer[..];
        var operand := ToLE(node.arg, t.OperandSize(node.opcode));
        Emit(buffer, offset, operand);
        PatchHolds(written, offset, operand);
        PatchKeeps(written, offset, operand, start, opcode);
        PatchKeepsPrefix(written, offset, operand, start);
        HoldsTogether(buffer[..], start, opcode, operand);
        assert Operand(t, prog.code, node.pos) == operand;
      }
      offset := offset + t.OperandSize(node.opcode);
    }

    /** Lays out one node behind those laid out before. */
    method LayoutNode(buffer: array<Byte>, node: ILInstr, start: nat) returns (offset: nat)
      requires Valid() && Has(node) && node != sentinel && start + 10 <= buffer.Length
      requires node.pos < |prog.code| < |ring| && start == Off(t, prog.code, node.pos)
      requires LaidOut(t, ring, prog.code, node.pos) && SkeletonTo(t, prog.code, buffer[..], node.pos)
      modifies buffer, node`offset
      ensures offset == Off(t, prog.code, node.pos + 1) <= start + 10
      ensures LaidOut(t, ring, prog.code, node.pos + 1) && SkeletonTo(t, prog.code, buffer[..], node.pos + 1)
    {
      hide Valid, Holds, Skeleton, Off, OpcodeTable.Valid;
      RingSize();
      ArgShown(node);
      Apart(node.pos);
      OffNext(t, prog.code, node.pos);
      node.offset := start;
      ghost var before := buffer[..];
      offset := EmitNode(buffer, node, start);
      SkeletonExtends(t, prog.code, before, buffer[..], node.pos);
    }

    /** One layout pass: gives every node its offset and writes all but the jump operands. */
    method LayoutPass(buffer: array<Byte>) returns (offset: nat, fBranch: bool)
      requires Valid() && buffer.Length >= 10 * nInstrs
      modifies buffer, ring`offset
      ensures |ring| == |prog.code| + 1 && offset == Off(t, prog.code, |prog.code|) <= buffer.Length
      ensures LaidOut(t, ring, prog.code, |prog.code| + 1)
      ensures SkeletonTo(t, prog.code, buffer[..], |prog.code|)
      ensures !fBranch ==> BranchFree(t, prog.code)
    {
      hide Valid, SkeletonTo, LaidOut, Off, OpcodeTable.Valid;
      fBranch := false;
      offset := 0;
      ghost var i := 0;
      RingSize();
      FirstNode();
      NothingLaidOut(t, ring, prog.code, buffer[..]);
      var node := sentinel.next;
      while node != sentinel
        invariant node != null && node in ring && Has(node) && i == node.pos <= |prog.code|
        invariant offset == Off(t, prog.code, i) <= 10 * i
        invariant LaidOut(t, ring, prog.code, i) && SkeletonTo(t, prog.code, buffer[..], i)
        invariant !fBranch ==> forall j {:trigger prog.code[j]} | 0 <= j < i :: !t.IsBranch(prog.code[j].op)
        decreases |prog.code| - i
      {
        NextOf(node);
        offset := LayoutNode(buffer, node, offset);
        fBranch := fBranch || t.IsBranch(node.opcode);
        i := i + 1;
        node := node.next;
      }
      SentinelAt(sentinel);
      Apart(|prog.code|);
      SentinelLaidOut(offset);
    }

    method SentinelLaidOut(offset: nat)
      requires Valid() && |ring| == |prog.code| + 1 && offset == Off(t, prog.code, |prog.code|)
      requires LaidOut(t, ring, prog.code, |prog.code|)
      modifies sentinel`offset
      ensures LaidOut(t, ring, prog.code, |prog.code| + 1)
    {
      hide Valid, Off, OpcodeTable.Valid;
      RingSize();
      Apart(|prog.code|);
      sentinel.offset := offset;
    }

    static lemma {:induction false} NothingLaidOut(t: OpcodeTable, ring: seq<ILInstr>, code: seq<Instr>, out: seq<Byte>)
      requires t.Valid() && |code| < |ring|
      ensures LaidOut(t, ring, code, 0) && SkeletonTo(t, code, out, 0) && Off(t, code, 0) == 0
    {
    }

    static lemma {:induction false} OffNext(t: OpcodeTable, code: seq<Instr>, i: nat)
      requires t.Valid() && i < |code|
      ensures Off(t, code, i + 1) == Off(t, code, i) + t.Size(code[i].op)
    {
    }

    static lemma {:induction false} SkeletonExtends(
        t: OpcodeTable, code: seq<Instr>, before: seq<Byte>, after: seq<Byte>, i: nat)
      requires t.Valid() && i < |code| && SkeletonTo(t, code, before, i)
      requires Off(t, code, i) <= |before| == |after| && after[..Off(t, code, i)] == before[..Off(t, code, i)]
      requires Holds(after, Off(t, code, i), Skeleton(t, code, i))
      ensures SkeletonTo(t, code, after, i + 1)
    {
      hide Off, Holds, Skeleton;
      forall j {:trigger Skeleton(t, code, j)} | 0 <= j < i
        ensures Holds(after, Off(t, code, j), Skeleton(t, code, j))
      {
        OffMonotone(t, code, j + 1, i);
        SkeletonFits(t, code, j);
        HoldsInPrefix(before, after, Off(t, code, i), Off(t, code, j), Skeleton(t, code, j));
      }
    }

    static lemma {:induction false} SkeletonFits(t: OpcodeTable, code: seq<Instr>, i: nat)
      requires t.Valid() && i < |code|
      ensures Off(t, code, i) + |Skeleton(t, code, i)| <= Off(t, code, i + 1) ==
              Off(t, code, i) + |EncodeInstr(t, code, i)|
    {
      hide EncodeInstr;
    }

    /** From before to after, instruction i has been completed and nothing else has changed. */
    static ghost predicate Completed(t: OpcodeTable, code: seq<Instr>, i: nat, before: seq<Byte>, after: seq<Byte>)
      requires t.Valid() && i < |code|
    {
      var start, end := Off(t, code, i), Off(t, code, i + 1);
      && start <= end <= |before| == |after|
      && after[..start] == before[..start] && after[end..] == before[end..]
      && (Holds(before, start, Skeleton(t, code, i)) ==> Holds(after, start, EncodeInstr(t, code, i)))
    }

    /** Writes the jump operand of node i behind its opcode. */
    method EmitJump(buffer: array<Byte>, o: nat, operand: seq<Byte>, ghost code: seq<Instr>, ghost i: nat)
      requires t.Valid() && i < |code| && t.IsBranch(code[i].op) && operand == Operand(t, code, i)
      requires o == Off(t, code, i) + |t.OpcodeBytes(code[i].op)| && Off(t, code, |code|) <= buffer.Length
      modifies buffer
      ensures Completed(t, code, i, old(buffer[..]), buffer[..])
    {
      hide Off, Operand, Holds, OpcodeTable.Valid, OpcodeTable.OpcodeBytes;
      OffNext(t, code, i);
      OffMonotone(t, code, i + 1, |code|);
      ghost var before := buffer[..];
      Emit(buffer, o, operand);
      PatchHolds(before, o, operand);
      assert buffer[..][Off(t, code, i + 1)..] == Patch(before, o, operand)[Off(t, code, i + 1)..];
      PatchKeepsPrefix(before, o, operand, Off(t, code, i));
      if Holds(before, Off(t, code, i), Skeleton(t, code, i)) {
        PatchKeeps(before, o, operand, Off(t, code, i), t.OpcodeBytes(code[i].op));
        HoldsTogether(buffer[..], Off(t, code, i), t.OpcodeBytes(code[i].op), operand);
      }
    }

    static lemma {:induction false} AlreadyComplete(t: OpcodeTable, code: seq<Instr>, i: nat, out: seq<Byte>)
      requires t.Valid() && i < |code| && !t.IsBranch(code[i].op) && Off(t, code, |code|) <= |out|
      ensures Completed(t, code, i, out, out)
    {
      hide Off, Holds, EncodeInstr;
      OffMonotone(t, code, i, i + 1);
      OffMonotone(t, code, i + 1, |code|);
    }

    /** The branch pass has visited the first i nodes of code, widening some. */
    ghost predicate Visited(code: seq<Instr>, i: nat, switchBase: nat)
      requires t.Valid()
      reads `ring, `prog, `nInstrs, `maxStack, `declared, `eh, ring`pos, ring`next, ring`prev, ring`opcode, ring`arg,
        ring`target, ring`offset, eh
    {
      && Valid() && Resolved(t, code) && i <= |code| && |ring| == |code| + 1
      && prog.code == WidenFirst(t, code, i) && switchBase == SwitchBase(t, code, i)
      && LaidOut(t, ring, code, |code| + 1) && Off(t, code, |code|) < CODE_LIMIT
    }

    /** One node of the branch pass: remembers where a switch table ends, writes a displacement, or
        widens a branch whose displacement does not fit. */
    method PatchNode(
        buffer: array<Byte>, node: ILInstr, switchBase: nat, ghost code: seq<Instr>) returns (base: nat, widened: bool)
      requires Valid() && Has(node) && node != sentinel && Visited(code, node.pos, switchBase)
      requires Off(t, code, |code|) <= buffer.Length
      modifies buffer, node`opcode, this`prog
      ensures node.pos == old(node.pos) < |code| && Visited(code, node.pos + 1, base) && prog.eh == old(prog.eh)
      ensures widened <==> Overlong(t, code, node.pos)
      ensures !widened ==> Completed(t, code, node.pos, old(buffer[..]), buffer[..])
    {
      hide Valid, Off, OffOf, Overlong, SwitchBase, OpcodeTable.Valid, LaidOut, Low32, Completed;
      ghost var i := node.pos;
      RingSize();
      VisitedNode(node, code, switchBase);
      VisitStep(t, code, i);
      base, widened := switchBase, false;
      if node.opcode == CEE_SWITCH {
        base := Low32(node.offset + 1 + 4 * (node.arg + 1));
        AlreadyComplete(t, code, i, buffer[..]);
      } else if node.opcode == t.SwitchArg() {
        OffNext(t, code, i);
        EmitJump(buffer, node.offset, ToLE(Low32(node.target.offset - switchBase), 4), code, i);
      } else if t.IsBranch(node.opcode) {
        widened := PatchBranch(buffer, node, code);
      } else {
        AlreadyComplete(t, code, i, buffer[..]);
      }
    }

    /** A branch of the branch pass. */
    method PatchBranch(buffer: array<Byte>, node: ILInstr, ghost code: seq<Instr>) returns (widened: bool)
      requires Valid() && Has(node) && node != sentinel && node.pos < |code| && Off(t, code, |code|) <= buffer.Length
      requires Off(t, code, |code|) < CODE_LIMIT
      requires node.opcode == code[node.pos].op && t.IsBranch(node.opcode) && node.opcode != t.SwitchArg()
      requires node.target != null && node.target.offset == OffOf(t, code, code[node.pos].target)
      requires node.next != null && node.next.offset == Off(t, code, node.pos + 1)
      modifies buffer, node`opcode, this`prog
      ensures Valid() && node.pos == old(node.pos) && (widened <==> Overlong(t, code, node.pos))
      ensures prog == if widened then WithOp(old(prog), node.pos, Widen(code[node.pos].op)) else old(prog)
      ensures !widened ==> Completed(t, code, node.pos, old(buffer[..]), buffer[..])
    {
      hide Valid, Off, OffOf, OpcodeTable.Valid, OpcodeTable.OpcodeBytes, Completed, Low32, Int32, Low8, FitsInt8;
      RingSize();
      ShortOrLong(t, node.opcode);
      OffNext(t, code, node.pos);
      widened := false;
      OffMonotone(t, code, node.pos + 1, |code|);
      OffOfBounded(t, code, code[node.pos].target);
      DifferenceReads(node.target.offset - node.next.offset);
      var delta := Int32(Low32(node.target.offset - node.next.offset));
      if t.FlagsOf(node.opcode).ShortBranch? {
        if !FitsInt8(delta) {
          widened := true;
          WidenedPushes(t, node.opcode);
          SetOpcode(node, Widen(node.opcode));
        } else {
          EmitJump(buffer, node.next.offset - 1, [Low8(delta)], code, node.pos);
        }
      } else {
        EmitJump(buffer, node.next.offset - 4, ToLE(Low32(delta), 4), code, node.pos);
      }
    }

    static lemma {:induction false} ShortOrLong(t: OpcodeTable, op: nat)
      requires t.Valid() && t.IsBranch(op)
      ensures IsShort(op) <==> t.FlagsOf(op).ShortBranch?
      ensures !IsShort(op) <==> t.FlagsOf(op).LongBranch?
    {
      if IsShort(op) {
        ShortFlags(t, op);
      }
      if t.FlagsOf(op).ShortBranch? {
        assert t.flags[op].ShortBranch?;
      }
    }

    /** What the branch pass reads at a node it has not visited yet. */
    lemma {:induction false} VisitedNode(node: ILInstr, code: seq<Instr>, switchBase: nat)
      requires t.Valid() && Valid() && Has(node) && node != sentinel && Visited(code, node.pos, switchBase)
      ensures node.pos < |code| && node.opcode == code[node.pos].op && node.arg == code[node.pos].arg
      ensures node.offset == Off(t, code, node.pos)
      ensures node.next != null && node.next.offset == Off(t, code, node.pos + 1)
      ensures t.IsBranch(node.opcode) ==>
                && node.target != null && node.target.offset == OffOf(t, code, code[node.pos].target)
    {
      hide Off, PushSum, ShowsClause, SwitchBase;
      var i := node.pos;
      SentinelAt(node);
      assert prog.code[i] == code[i];
      assert ring[i].next == ring[i + 1] && ring[i].offset == Off(t, code, i)
             && ring[i + 1].offset == Off(t, code, i + 1);
      if t.IsBranch(node.opcode) {
        assert node.target == NodeAt(ring, code[i].target);
        assert ring[code[i].target].offset == Off(t, code, code[i].target);
      }
    }

    /** The value of the branch pass after one more node. */
    static lemma {:induction false} VisitStep(t: OpcodeTable, code: seq<Instr>, i: nat)
      requires t.Valid() && i < |code|
      ensures WidenFirst(t, code, i + 1) ==
              if Overlong(t, code, i) then WidenFirst(t, code, i)[i := code[i].(op := Widen(code[i].op))]
                else WidenFirst(t, code, i)
      ensures WidenFirst(t, code, i)[i] == code[i]
      ensures Overlong(t, code, i) ==> t.IsBranch(code[i].op) && code[i].op != t.SwitchArg()
      ensures SwitchBase(t, code, i + 1) ==
              if code[i].op == CEE_SWITCH then Low32(Off(t, code, i) + 1 + 4 * (code[i].arg + 1))
                else SwitchBase(t, code, i)
      ensures code[i].op == CEE_SWITCH ==> !t.IsBranch(code[i].op)
    {
      hide Off, Delta;
      assert t.flags[CEE_SWITCH].SwitchTable?;
      if IsShort(code[i].op) {
        ShortIsBranch(t, code[i].op);
      }
    }

    /** Instructions in front of i are complete, the others lack their jump operands. */
    static ghost predicate Patched(t: OpcodeTable, code: seq<Instr>, out: seq<Byte>, i: nat)
      requires t.Valid() && i <= |code|
    {
      && (forall j {:trigger EncodeInstr(t, code, j)} | 0 <= j < i ::
           Holds(out, Off(t, code, j), EncodeInstr(t, code, j)))
      && (forall j {:trigger Skeleton(t, code, j)} | i <= j < |code| ::
           Holds(out, Off(t, code, j), Skeleton(t, code, j)))
    }

    static lemma {:induction false} PatchedStep(
        t: OpcodeTable, code: seq<Instr>, before: seq<Byte>, after: seq<Byte>, i: nat)
      requires t.Valid() && i < |code| && Patched(t, code, before, i) && Completed(t, code, i, before, after)
      ensures Patched(t, code, after, i + 1)
    {
      hide Off, Holds, Skeleton, EncodeInstr;
      forall j {:trigger EncodeInstr(t, code, j)} | 0 <= j < i
        ensures Holds(after, Off(t, code, j), EncodeInstr(t, code, j))
      {
        OffMonotone(t, code, j + 1, i);
        SkeletonFits(t, code, j);
        HoldsInPrefix(before, after, Off(t, code, i), Off(t, code, j), EncodeInstr(t, code, j));
      }
      assert Holds(before, Off(t, code, i), Skeleton(t, code, i));
      forall j {:trigger Skeleton(t, code, j)} | i < j < |code|
        ensures Holds(after, Off(t, code, j), Skeleton(t, code, j))
      {
        OffMonotone(t, code, i + 1, j);
        HoldsInSuffix(before, after, Off(t, code, i + 1), Off(t, code, j), Skeleton(t, code, j));
      }
    }

    static ghost predicate AnyOverlong(t: OpcodeTable, code: seq<Instr>, n: nat)
      requires t.Valid() && n <= |code|
    {
      exists j :: 0 <= j < n && Overlong(t, code, j)
    }

    /** The state of the branch pass in front of node i. */
    ghost predicate Passing(code: seq<Instr>, i: nat, switchBase: nat, out: seq<Byte>, fTryAgain: bool)
      requires t.Valid()
      reads `ring, `prog, `nInstrs, `maxStack, `declared, `eh, ring`pos, ring`next, ring`prev, ring`opcode, ring`arg,
        ring`target, ring`offset, eh
    {
      && Visited(code, i, switchBase) && Off(t, code, |code|) <= |out|
      && (fTryAgain <==> AnyOverlong(t, code, i))
      && (!fTryAgain ==> Patched(t, code, out, i))
    }

    /** One round of the branch pass. */
    method VisitNode(buffer: array<Byte>, node: ILInstr, switchBase: nat, wasWidened: bool, ghost code: seq<Instr>)
      returns (base: nat, fTryAgain: bool)
      requires Valid() && Has(node) && node != sentinel && Passing(code, node.pos, switchBase, buffer[..], wasWidened)
      modifies buffer, node`opcode, this`prog
      ensures t.Valid() && Passing(code, node.pos + 1, base, buffer[..], fTryAgain)
      ensures node.pos == old(node.pos) && prog.eh == old(prog.eh)
    {
      hide Valid, Off, Overlong, Patched, Completed, Visited, OpcodeTable.Valid;
      RingSize();
      ghost var before := buffer[..];
      var widened: bool;
      base, widened := PatchNode(buffer, node, switchBase, code);
      fTryAgain := wasWidened || widened;
      if !fTryAgain {
        PatchedStep(t, code, before, buffer[..], node.pos);
      }
    }

    /** The branch pass: writes every displacement, or widens the branches that need it. */
    method BranchPass(buffer: array<Byte>) returns (fTryAgain: bool)
      requires Valid() && |ring| == |prog.code| + 1 && Resolved(t, prog.code)
               && LaidOut(t, ring, prog.code, |prog.code| + 1)
      requires Off(t, prog.code, |prog.code|) < CODE_LIMIT && Off(t, prog.code, |prog.code|) <= buffer.Length
      requires SkeletonTo(t, prog.code, buffer[..], |prog.code|)
      modifies buffer, ring`opcode, this`prog
      ensures Valid() && prog == old(prog).(code := WidenPass(t, old(prog.code)))
      ensures fTryAgain <==> prog.code != old(prog.code)
      ensures !fTryAgain ==> buffer[..Off(t, prog.code, |prog.code|)] == Encode(t, prog.code, |prog.code|)
    {
      hide Valid, Off, OpcodeTable.Valid, LaidOut, Overlong, Patched, Encode, SkeletonTo;
      ghost var code := prog.code;
      ghost var i := 0;
      fTryAgain := false;
      var switchBase := 0;
      RingSize();
      FirstNode();
      NothingVisited(t, code, buffer[..]);
      var node := sentinel.next;
      while node != sentinel
        invariant Passing(code, i, switchBase, buffer[..], fTryAgain) && prog.eh == old(prog.eh)
        invariant node != null && node in ring && Has(node) && i == node.pos <= |code|
        decreases |code| - i
      {
        switchBase, fTryAgain := VisitNode(buffer, node, switchBase, fTryAgain, code);
        NextOf(node);
        i := i + 1;
        node := node.next;
      }
      SentinelAt(sentinel);
      PassResult(t, code, buffer[..]);
    }

    static lemma {:induction false} NothingVisited(t: OpcodeTable, code: seq<Instr>, out: seq<Byte>)
      requires t.Valid() && SkeletonTo(t, code, out, |code|)
      ensures WidenFirst(t, code, 0) == code && SwitchBase(t, code, 0) == 0
      ensures Patched(t, code, out, 0) && !AnyOverlong(t, code, 0)
    {
      hide Off, Holds, Skeleton;
      assert WidenFirst(t, code, 0) == code;
    }

    static lemma {:induction false} PassResult(t: OpcodeTable, code: seq<Instr>, out: seq<Byte>)
      requires t.Valid() && Off(t, code, |code|) <= |out|
      ensures AnyOverlong(t, code, |code|) <==> WidenPass(t, code) != code
      ensures Patched(t, code, out, |code|) ==> out[..Off(t, code, |code|)] == Encode(t, code, |code|)
    {
      hide Off, Overlong, EncodeInstr, Encode, Holds;
      var next := WidenPass(t, code);
      if j :| 0 <= j < |code| && Overlong(t, code, j) {
        assert next[j] != code[j];
      } else {
        assert forall j | 0 <= j < |code| :: next[j] == code[j];
      }
      if Patched(t, code, out, |code|) {
        forall j | 0 <= j < |code|
          ensures Holds(out, Off(t, code, j), EncodeInstr(t, code, j))
        {
        }
        SlicesDetermineEncoding(t, code, |code|, out);
      }
    }

    /** One layout of the list, with its branch pass when there are jumps. */
    method EmitRound(buffer: array<Byte>) returns (offset: nat, fTryAgain: bool)
      requires Valid() && Resolved(t, prog.code) && 10 * |prog.code| <= buffer.Length < CODE_LIMIT
      modifies buffer, ring`opcode, ring`offset, this`prog
      ensures Valid() && prog == old(prog).(code := WidenPass(t, old(prog.code))) && |ring| == |prog.code| + 1
      ensures fTryAgain <==> prog.code != old(prog.code)
      ensures !fTryAgain ==>
                && offset == Off(t, prog.code, |prog.code|) <= buffer.Length
                && buffer[..offset] == Encode(t, prog.code, |prog.code|)
                && LaidOut(t, ring, prog.code, |prog.code| + 1)
    {
      hide Valid, Off, OpcodeTable.Valid, LaidOut, Encode, SkeletonTo, WidenPass;
      RingSize();
      ghost var code := prog.code;
      var fBranch: bool;
      offset, fBranch := LayoutPass(buffer);
      fTryAgain := false;
      if fBranch {
        fTryAgain := BranchPass(buffer);
      } else {
        BranchFreeDone(t, code, buffer[..]);
      }
    }

    /** The layout loop: lays the list out again until no branch had to be widened. */
    method EmitCode() returns (buffer: array<Byte>, offset: nat, ghost passes: nat)
      requires Valid() && Resolved(t, prog.code) && 10 * |prog.code| < CODE_LIMIT
      modifies ring`opcode, ring`offset, this`prog
      ensures Valid() && prog == Relaxed(t, old(prog)) && |ring| == |prog.code| + 1
      ensures |prog.code| == old(|prog.code|) && |prog.eh| == old(|prog.eh|)
      ensures fresh(buffer) && offset == Off(t, prog.code, |prog.code|) <= buffer.Length == 10 * |prog.code|
      ensures buffer[..offset] == Encode(t, prog.code, |prog.code|)
      ensures LaidOut(t, ring, prog.code, |prog.code| + 1)
      ensures passes == Passes(t, old(prog.code))
    {
      hide Valid, Off, OpcodeTable.Valid, LaidOut, Encode, WidenPass, Resolved;
      ghost var code := prog.code;
      RingSize();
      buffer := new Byte[Low32(nInstrs * 10)];
      passes, offset := 0, 0;
      var fTryAgain := true;
      while fTryAgain
        invariant Valid() && t.Valid() && |ring| == |prog.code| + 1 && |prog.code| == |code|
        invariant Resolved(t, prog.code) && prog.eh == old(prog.eh)
        invariant fTryAgain ==>
                  Relax(t, prog.code) == Relax(t, code) && passes + Passes(t, prog.code) == Passes(t, code)
        invariant !fTryAgain ==>
                    && prog.code == Relax(t, code) && passes == Passes(t, code)
                    && offset == Off(t, prog.code, |prog.code|) <= buffer.Length
                    && buffer[..offset] == Encode(t, prog.code, |prog.code|)
                    && LaidOut(t, ring, prog.code, |prog.code| + 1)
        decreases ShortCount(prog.code), fTryAgain
      {
        ghost var before := prog.code;
        WideningShrinksShortCount(before, WidenPass(t, before));
        WideningKeepsResolved(t, before, WidenPass(t, before));
        offset, fTryAgain := EmitRound(buffer);
        passes := passes + 1;
      }
    }

    /** A list without jumps is finished after the layout pass. */
    static lemma {:induction false} BranchFreeDone(t: OpcodeTable, code: seq<Instr>, out: seq<Byte>)
      requires t.Valid() && BranchFree(t, code) && SkeletonTo(t, code, out, |code|) && Off(t, code, |code|) <= |out|
      ensures WidenPass(t, code) == code && out[..Off(t, code, |code|)] == Encode(t, code, |code|)
    {
      hide Off, EncodeInstr, Encode, Holds;
      forall i | 0 <= i < |code|
        ensures !Overlong(t, code, i) && Holds(out, Off(t, code, i), EncodeInstr(t, code, i))
      {
        assert !t.IsBranch(code[i].op);
        assert Holds(out, Off(t, code, i), Skeleton(t, code, i));
        if IsShort(code[i].op) {
          ShortIsBranch(t, code[i].op);
        }
      }
      assert forall i | 0 <= i < |code| :: WidenPass(t, code)[i] == code[i];
      SlicesDetermineEncoding(t, code, |code|, out);
    }

    /** The offsets and lengths of one clause, read off its nodes. */
    method ClauseOffsets(e: EHClause, ghost c: Clause) returns (f: FatClause)
      requires Valid() && |ring| == |prog.code| + 1 && LaidOut(t, ring, prog.code, |prog.code| + 1)
               && ShowsClause(ring, e, c)
      requires c.Set()
      ensures f == ExportClause(t, prog.code, c)
    {
      hide Off, Low32, PushSum, Shows;
      RingSize();
      OffsetAt(c.tryBegin);
      OffsetAt(c.tryEnd);
      OffsetAt(c.handlerBegin);
      NextAt(c.handlerEnd);
      OffsetAt(Next(|prog.code|, c.handlerEnd));
      var tokenOrFilter := e.classToken;
      if e.flags % 2 == EH_FILTER {
        OffsetAt(c.filter);
        tokenOrFilter := e.filter.offset;
      }
      f := FatClause(e.flags,
                     e.tryBegin.offset, Low32(e.tryEnd.offset - e.tryBegin.offset),
                     e.handlerBegin.offset, Low32(e.handlerEnd.next.offset - e.handlerBegin.offset),
                     tokenOrFilter);
    }

    lemma {:induction false} OffsetAt(pos: nat)
      requires Valid() && |ring| == |prog.code| + 1 && LaidOut(t, ring, prog.code, |prog.code| + 1) && pos < |ring|
      ensures t.Valid() && ring[pos].offset == OffOf(t, prog.code, pos)
    {
      hide Off;
    }

    lemma {:induction false} NextAt(pos: nat)
      requires Valid() && |ring| == |prog.code| + 1 && pos < |ring|
      ensures ring[pos].next == ring[Next(|prog.code|, pos)]
    {
    }

    /** Writes the clauses behind the section header. */
    method EmitClauses(body: array<Byte>, codeSize: nat) returns (cursor: nat)
      requires Valid() && |ring| == |prog.code| + 1 && LaidOut(t, ring, prog.code, |prog.code| + 1)
               && PointersSet(t, prog)
      requires body.Length == BodySize(codeSize, |prog.eh|) && |prog.eh| > 0
      modifies body
      ensures t.Valid() && cursor == body.Length
      ensures ClausesTo(body[..], codeSize, ExportClauses(t, prog), |prog.eh|)
      ensures body[..ClauseAt(codeSize, 0)] == old(body[..ClauseAt(codeSize, 0)])
    {
      hide Off, ClauseBytes, Holds, ExportClause, Patch, LaidOut, Linked, Shows, PushSum;
      var iEH := 0;
      cursor := ClauseAt(codeSize, 0);
      while iEH < eh.Length
        modifies body
        invariant iEH <= eh.Length && cursor == ClauseAt(codeSize, iEH)
        invariant ClausesTo(body[..], codeSize, ExportClauses(t, prog), iEH)
        invariant body[..ClauseAt(codeSize, 0)] == old(body[..ClauseAt(codeSize, 0)])
      {
        var clause := ClauseOffsets(eh[iEH], prog.eh[iEH]);
        EmitClause(body, codeSize, ExportClauses(t, prog), iEH, clause);
        cursor, iEH := cursor + CLAUSE_SIZE, iEH + 1;
      }
    }

    static method EmitClause(body: array<Byte>, codeSize: nat, ghost clauses: seq<FatClause>, i: nat, f: FatClause)
      requires i < |clauses| && clauses[i] == f && body.Length == BodySize(codeSize, |clauses|)
      requires ClausesTo(body[..], codeSize, clauses, i)
      modifies body
      ensures ClausesTo(body[..], codeSize, clauses, i + 1)
      ensures body[..ClauseAt(codeSize, 0)] == old(body[..ClauseAt(codeSize, 0)])
    {
      hide ClauseBytes, Patch, Holds;
      ghost var before := body[..];
      PartsAreDisjoint(codeSize, |clauses|, i);
      Emit(body, ClauseAt(codeSize, i), ClauseBytes(f));
      PatchHolds(before, ClauseAt(codeSize, i), ClauseBytes(f));
      PatchKeepsPrefix(before, ClauseAt(codeSize, i), ClauseBytes(f), ClauseAt(codeSize, 0));
      forall j {:trigger clauses[j]} | 0 <= j < i
        ensures Holds(body[..], ClauseAt(codeSize, j), ClauseBytes(clauses[j]))
      {
        PatchKeeps(before, ClauseAt(codeSize, i), ClauseBytes(f), ClauseAt(codeSize, j), ClauseBytes(clauses[j]));
      }
    }

    /** Assembles the body: header, padded code, exception section. */
    method EmitBody(buffer: array<Byte>, codeSize: nat) returns (body: array<Byte>)
      requires Valid() && |ring| == |prog.code| + 1 && LaidOut(t, ring, prog.code, |prog.code| + 1)
               && PointersSet(t, prog)
      requires codeSize == Off(t, prog.code, |prog.code|) <= buffer.Length
               && buffer[..codeSize] == Encode(t, prog.code, |prog.code|)
      requires buffer.Length == 10 * |prog.code| && SizesFit(|prog.code|, |prog.eh|)
      ensures t.Valid() && fresh(body) && IsBody(body[..], WriteBody(t, prog), attributes, maxStack)
    {
      hide Valid, Off, Encode, LaidOut, Patch, Holds, Header, SectionHeader, ClausesTo, OpcodeTable.Valid, PointersSet,
        Low32, SizesFit;
      RingSize();
      ClauseCount();
      TotalSize(codeSize, |prog.code|, eh.Length);
      var totalSize := Low32(BodySize(codeSize, eh.Length));
      body := new Byte[totalSize];
      var header := Header(attributes, maxStack, codeSize, eh.Length);
      var code := buffer[..codeSize];
      EmitFront(body, header, code);
      var cursor := HEADER_SIZE + Align4(codeSize);
      if eh.Length != 0 {
        var section := SectionHeader(eh.Length);
        ghost var before := body[..];
        Emit(body, cursor, section);
        PatchHolds(before, cursor, section);
        PatchKeeps(before, cursor, section, 0, header);
        PatchKeeps(before, cursor, section, HEADER_SIZE, code);
        cursor := cursor + SECT_SIZE;
        ghost var front := body[..];
        cursor := EmitClauses(body, codeSize);
        HoldsInPrefix(front, body[..], ClauseAt(codeSize, 0), 0, header);
        HoldsInPrefix(front, body[..], ClauseAt(codeSize, 0), HEADER_SIZE, code);
        HoldsInPrefix(front, body[..], ClauseAt(codeSize, 0), HEADER_SIZE + Align4(codeSize), section);
      } else {
        NoClauses(body[..], codeSize, ExportClauses(t, prog));
      }
      assert cursor == totalSize;
    }

    static lemma {:induction false} TotalSize(codeSize: nat, nodes: nat, clauses: nat)
      requires codeSize <= 10 * nodes && SizesFit(nodes, clauses)
      ensures Low32(BodySize(codeSize, clauses)) == BodySize(codeSize, clauses)
    {
      hide Align4;
      AlignedInOrder(codeSize, 10 * nodes);
    }

    static lemma {:induction false} AlignedInOrder(a: nat, b: nat)
      requires a <= b
      ensures Align4(a) <= Align4(b)
    {
    }

    lemma {:induction false} ClauseCount()
      requires Valid()
      ensures eh.Length == |prog.eh|
    {
    }

    static lemma {:induction false} NoClauses(bytes: seq<Byte>, codeSize: nat, clauses: seq<FatClause>)
      requires |clauses| == 0
      ensures ClausesTo(bytes, codeSize, clauses, |clauses|)
    {
    }

    /** Header and code; the padding behind the code keeps whatever the allocator left. */
    static method EmitFront(body: array<Byte>, header: seq<Byte>, code: seq<Byte>)
      requires |header| == HEADER_SIZE && HEADER_SIZE + |code| <= body.Length
      modifies body
      ensures Holds(body[..], 0, header) && Holds(body[..], HEADER_SIZE, code)
    {
      hide Patch, Holds;
      ghost var before := body[..];
      Emit(body, 0, header);
      PatchHolds(before, 0, header);
      ghost var headed := body[..];
      Emit(body, HEADER_SIZE, code);
      PatchHolds(headed, HEADER_SIZE, code);
      PatchKeeps(headed, HEADER_SIZE, code, 0, header);
    }

    /** Lays the method out and hands the finished body to the runtime. */
    method Export(slot: FunctionBody, accepted: bool) returns (ok: bool)
      requires Valid() && PointersSet(t, prog) && SizesFit(|prog.code|, |prog.eh|)
      modifies ring`opcode, ring`offset, this`prog, slot
      ensures t.Valid() && ok == accepted
      ensures ok ==>
                && slot.installs == old(slot.installs) + 1
                && IsBody(slot.bytes, WriteBody(t, Relaxed(t, old(prog))), attributes, maxStack)
      ensures !ok ==> slot.installs == old(slot.installs) && slot.bytes == old(slot.bytes)
    {
      hide Valid, Off, Encode, LaidOut, IsBody, Relaxed, WriteBody, Resolved;
      RingSize();
      RelaxedSetsPointers(t, prog);
      var buffer, codeSize, _ := EmitCode();
      var body := EmitBody(buffer, codeSize);
      ok := slot.SetILFunctionBody(body[..], accepted);
    }

    static lemma {:induction false} RelaxedSetsPointers(t: OpcodeTable, p: Program)
      requires t.Valid() && PointersSet(t, p)
      ensures PointersSet(t, Relaxed(t, p))
    {
      hide Relax, Resolved;
      RelaxIsSolution(t, p.code);
      WideningKeepsResolved(t, p.code, Relax(t, p.code));
    }

    /** Imports a decoded method. Behind the handler ends, if its code is accepted, there are nodes. */
    method Import(m: Method) returns (ok: bool)
      requires Reading() && prog == Program([], []) && |m.body.il| < CODE_LIMIT && m.maxStack < TWO_32
      requires Parse(t, m.body.il).Some? ==> Imported(t, m.body).Some?
      modifies this, ring
      ensures ok <==> Parse(t, m.body.il).Some?
      ensures ok ==>
                && Valid() && prog == Imported(t, m.body).value
                && declared == m.maxStack && attributes == AttributesOf(m)
                && attributes.localVarSig == m.localVarSig && (attributes.initLocals <==> m.flags / 0x10 % 2 == 1)
      ensures forall i {:trigger ring[i]} | 0 <= i < |ring| :: ring[i] in old(ring) || fresh(ring[i])
    {
      hide Parse, OpcodeTable.Valid, HandlersEnd, ImportClauses;
      attributes := AttributesOf(m);
      declared := m.maxStack;
      maxStack := m.maxStack;
      codeSize := |m.body.il|;
      assert Reading();
      ok := ImportIL(m.body.il);
      if ok {
        ImportEH(m.body.eh);
      }
    }

    /** Adds the requested probes; fails for an exit probe without a RET. */
    method AddHooks(h: Hooks) returns (ok: bool)
      requires Valid()
      modifies this`maxStack, this`nInstrs, this`ring, this`prog, ring`pos, ring`next, ring`prev, ring`opcode
      ensures ok <==> AddProbes(old(prog), h).Some?
      ensures ok ==> Valid() && prog == AddProbes(old(prog), h).value
      ensures forall i {:trigger ring[i]} | 0 <= i < |ring| :: ring[i] in old(ring) || fresh(ring[i])
    {
      hide Valid, Splice, ExitLoop, AddEnter;
      ok := true;
      if h.enter != TOKEN_NIL {
        AddEnterProbe(h.enter, h.arg);
      }
      if h.exit != TOKEN_NIL {
        ok := AddExitProbe(h.exit, h.arg);
      }
    }
  }

  /** Nothing the rewriter follows on its way is null: the handler ends during import and, if the
      probes go in, everything else during export. */
  ghost predicate Followable(t: OpcodeTable, b: Body, h: Hooks)
    requires t.Valid()
  {
    Parse(t, b.il).Some? ==>
      && Imported(t, b).Some?
      && (AddProbes(Imported(t, b).value, h).Some? ==> PointersSet(t, Imported(t, b).value))
  }

  /** What the rewriter asks of a method and of the hooks: every pointer it follows is set, and no
      32-bit size wraps. */
  ghost predicate Injectable(t: OpcodeTable, m: Method, h: Hooks)
    requires t.Valid()
  {
    && |m.body.il| < CODE_LIMIT && m.maxStack < TWO_32 && Followable(t, m.body, h)
    && var q := Instrumented(t, m.body, h); q.Some? ==> SizesFit(|q.value.code|, |q.value.eh|)
  }

  /** The fat header of a body of method m: its signature, its InitLocals flag and whether it has
      clauses, the size of the code and a stack limit. */
  predicate HeaderIs(bytes: seq<Byte>, m: Method, codeSize: nat, limit: nat) {
    && |bytes| >= 12
    && bytes[0] % 4 == 3 && bytes[0] / 0x10 == m.flags / 0x10 % 2 && (bytes[0] / 8 % 2 == 1 <==> m.body.eh != [])
    && bytes[1] == 0x30
    && bytes[2] == limit % 0x100 && bytes[3] == limit / 0x100 % 0x100
    && WordAt(bytes, 4) == codeSize
    && (m.localVarSig < TWO_32 ==> WordAt(bytes, 8) == m.localVarSig)
  }

  /** An installed body carries the method's own header. */
  lemma {:induction false} HeaderInstalled(t: OpcodeTable, m: Method, h: Hooks, bytes: seq<Byte>)
    requires t.Valid() && Instrumented(t, m.body, h).Some?
    requires var q := Instrumented(t, m.body, h).value;
             && SizesFit(|q.code|, |q.eh|) && |q.eh| == |m.body.eh|
             && IsBody(bytes, WriteBody(t, q), AttributesOf(m), Low32(m.maxStack + PushSum(t, q.code)))
    ensures HeaderIs(bytes, m, |WriteBody(t, Instrumented(t, m.body, h).value).il|,
                     m.maxStack + PushSum(t, Instrumented(t, m.body, h).value.code))
  {
    hide Instrumented, IsBody, PushSum, Encode, Off, OpcodeTable.Valid;
    var q := Instrumented(t, m.body, h).value;
    OffMonotone(t, q.code, 0, |q.code|);
    OffStart(t, q.code);
    HeaderByNumber(bytes, WriteBody(t, q), AttributesOf(m), Low32(m.maxStack + PushSum(t, q.code)));
    LowBytesOf(m.maxStack + PushSum(t, q.code));
  }

  lemma {:induction false} LowBytesOf(n: nat)
    ensures Low32(n) % 0x100 == n % 0x100 && Low32(n) / 0x100 % 0x100 == n / 0x100 % 0x100
  {
    var high, low := n / TWO_32, Low32(n);
    HighBytesAside(0x100_0000 * high, low);
    HighBytesAside(0x1_0000 * high, low / 0x100);
    assert n == 0x100 * (0x100_0000 * high) + low;
  }

  lemma {:induction false} HighBytesAside(high: nat, low: nat)
    ensures (0x100 * high + low) % 0x100 == low % 0x100 && (0x100 * high + low) / 0x100 == high + low / 0x100
  {
  }

  lemma {:induction false} ClausesKept(t: OpcodeTable, b: Body, h: Hooks)
    requires t.Valid() && Instrumented(t, b, h).Some?
    ensures |Instrumented(t, b, h).value.eh| == |b.eh|
  {
    hide Parse, Splice, ExpandRet;
    var p := ReadBody(t, b).value;
    assert |p.eh| == |b.eh|;
    if h.exit != TOKEN_NIL {
      ExitLoopKeepsClauses(Entered(p, h), 0, h.exit, h.arg);
    }
    EnterKeepsClauses(p, h);
  }

  lemma {:induction false} EnterKeepsClauses(p: Program, h: Hooks)
    ensures |Entered(p, h).eh| == |p.eh|
  {
    hide Splice;
  }

  lemma {:induction false} ExitLoopKeepsClauses(p: Program, k: nat, hook: nat, arg: Option<nat>)
    requires k <= |p.code|
    ensures |ExitLoop(p, k, hook, arg).eh| == |p.eh|
    decreases |p.code| - k
  {
    hide Splice;
    if k < |p.code| {
      if p.code[k].op == CEE_RET {
        ExpandRetIsSplice(p, k, hook, arg);
        ExitLoopKeepsClauses(ExpandRet(p, k, hook, arg), k + 1 + |Epilog(hook, arg)|, hook, arg);
      } else {
        ExitLoopKeepsClauses(p, k + 1, hook, arg);
      }
    }
  }

  /** A method can be handed over when it is readable and its sizes stay below 2^32, in numbers. */
  lemma {:induction false} InjectableWhen(t: OpcodeTable, m: Method, h: Hooks)
    requires t.Valid() && |m.body.il| < 0x1_0000_0000 - 0x80 && m.maxStack < 0x1_0000_0000
    requires Parse(t, m.body.il).Some? ==> ReadBody(t, m.body).Some?
    requires var q := Instrumented(t, m.body, h);
             q.Some? ==>
               && 10 * |q.value.code| < 0x1_0000_0000 - 0x80
               && 10 * |q.value.code| + 24 * |q.value.eh| + 19 < 0x1_0000_0000
    ensures Injectable(t, m, h)
  {
    hide Parse, AddProbes, PointersSet;
  }

  /** The body of a method, and how often one has been installed, before and after an injection. */
  ghost predicate Rewritten(t: OpcodeTable, m: Method, h: Hooks, accepted: bool,
                            before: seq<Byte>, installs: nat, after: seq<Byte>, installs': nat)
    requires t.Valid()
  {
    var q := Instrumented(t, m.body, h);
    if q.Some? && accepted then
      && installs' == installs + 1
      && IsBody(after, WriteBody(t, q.value), AttributesOf(m), Low32(m.maxStack + PushSum(t, q.value.code)))
    else installs' == installs && after == before
  }

  /** Rewrites one method: import, probes, export. Either one new body is installed, with all
      requested probes, or the installed body stays as it is. */
  method InjectEnterExitHooks(
      t: OpcodeTable, m: Method, h: Hooks, slot: FunctionBody, accepted: bool) returns (ok: bool)
    requires t.Valid() && Injectable(t, m, h)
    modifies slot
    ensures ok <==>
            && accepted && ReadBody(t, m.body).Some?
            && var code := ReadBody(t, m.body).value.code;
               h.exit == 0 || exists i :: 0 <= i < |code| && code[i].op == 0x2A
    ensures ok ==>
              && Instrumented(t, m.body, h).Some?
              && var q := Instrumented(t, m.body, h).value;
                 && HeaderIs(slot.bytes, m, |WriteBody(t, q).il|, m.maxStack + PushSum(t, q.code))
                 && IsBody(slot.bytes, WriteBody(t, q), AttributesOf(m), Low32(m.maxStack + PushSum(t, q.code)))
    ensures slot.installs == old(slot.installs) + if ok then 1 else 0
    ensures !ok ==> slot.bytes == old(slot.bytes)
    ensures Rewritten(t, m, h, accepted, old(slot.bytes), old(slot.installs), slot.bytes, slot.installs)
  {
    hide Parse, Imported, IsBody, WriteBody, AddProbes, PushSum, PointersSet, OpcodeTable.Valid, ILRewriter.Valid,
      ILRewriter.Reading;
    var rewriter := new ILRewriter(t);
    ok := rewriter.Import(m);
    RejectedBody(t, m.body);
    InstrumentedExactly(t, m.body, h);
    if !ok {
      return;
    }
    ok := rewriter.AddHooks(h);
    if !ok {
      return;
    }
    rewriter.Limit();
    ProbesSetPointers(t, Imported(t, m.body).value, h);
    RelaxKeepsPushes(t, rewriter.prog.code);
    ok := rewriter.Export(slot, accepted);
    if ok {
      ClausesKept(t, m.body, h);
      HeaderInstalled(t, m, h, slot.bytes);
    }
  }

  lemma {:induction false} RejectedBody(t: OpcodeTable, b: Body)
    requires t.Valid()
    ensures Imported(t, b).Some? ==> Parse(t, b.il).Some?
  {
  }
}
