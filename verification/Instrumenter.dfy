/** Instrumenting a module: every method is registered, then rewritten to report under its token. */
module Instrumenter {
  import opened Bytes
  import opened Opcodes
  import opened Listing
  import opened Layout
  import opened Encoding
  import opened Probes
  import opened Parsing
  import opened Regions
  import opened Integrity
  import opened Machine
  import opened Preservation
  import opened StackDepth
  import opened EndToEnd
  import opened FatBody
  import opened Installed
  import opened Rewriter
  import R = Registry

  /** A method to instrument: what the registry is told, the decoded body, the cell its body is
      installed in, and whether the runtime will take a new one. */
  datatype Target = Target(owner: R.Method, body: Method, slot: FunctionBody, accepted: bool)

  function AllTargets(types: seq<seq<Target>>): seq<Target> {
    if |types| == 0 then [] else AllTargets(types[..|types| - 1]) + types[|types| - 1]
  }

  function Owners(targets: seq<Target>): (r: seq<R.Method>)
    ensures |r| == |targets| && forall i {:trigger r[i]} | 0 <= i < |r| :: r[i] == targets[i].owner
  {
    seq(|targets|, i requires 0 <= i < |targets| => targets[i].owner)
  }

  function Cells(targets: seq<Target>): (r: set<FunctionBody>)
    ensures forall i {:trigger targets[i]} | 0 <= i < |targets| :: targets[i].slot in r
  {
    set i | 0 <= i < |targets| :: targets[i].slot
  }

  /** The two hooks of the module, with a token for their argument. */
  function HooksFor(enter: nat, exit: nat, token: nat): (h: Hooks)
    ensures h.enter == enter && h.exit == exit && h.arg == Some(token)
  {
    Hooks(enter, exit, Some(token))
  }

  /** Each method can be rewritten, and each has a body of its own. */
  ghost predicate AllInjectable(t: OpcodeTable, targets: seq<Target>, enter: nat, exit: nat)
    requires t.Valid()
  {
    && (forall i, token: nat {:trigger targets[i], HooksFor(enter, exit, token)} | 0 <= i < |targets| ::
          Injectable(t, targets[i].body, HooksFor(enter, exit, token)))
    && (forall i, j {:trigger targets[i], targets[j]} | 0 <= i < j < |targets| :: targets[i].slot != targets[j].slot)
  }

  lemma {:induction false} TargetAt(types: seq<seq<Target>>, i: nat, j: nat)
    requires i < |types| && j < |types[i]|
    ensures var n := |AllTargets(types[..i])| + j;
            n < |AllTargets(types)| && AllTargets(types)[n] == types[i][j]
            && AllTargets(types)[..n] == AllTargets(types[..i]) + types[i][..j]
    decreases |types|
  {
    var last := |types| - 1;
    if i < last {
      TargetAt(types[..last], i, j);
      assert types[..last][..i] == types[..i];
    }
  }

  lemma {:induction false} LastType(types: seq<seq<Target>>, i: nat)
    requires i < |types|
    ensures AllTargets(types[..i + 1]) == AllTargets(types[..i]) + types[i]
  {
    assert types[..i + 1][..i] == types[..i];
  }

  /** Registers and rewrites one method. */
  method InstrumentMethod(t: OpcodeTable, registry: R.HostRegistry, server: R.SessionRegistry, target: Target,
      enter: nat, exit: nat) returns (token: nat)
    requires t.Valid() && registry.callback == server && server.Valid()
    requires forall token: nat {:trigger HooksFor(enter, exit, token)} ::
             Injectable(t, target.body, HooksFor(enter, exit, token))
    modifies registry, server, server.sessions.Values, target.slot
    ensures server.Valid() && registry.callback == server && fresh(server.sessions.Values - old(server.sessions.Values))
    ensures token == registry.tokenCounter == R.NextToken(old(registry.tokenCounter))
    ensures server.Contents() == R.Delivered(old(server.Contents()), registry.pid, R.MetadataOf(target.owner, token))
    ensures Rewritten(t, target.body, HooksFor(enter, exit, token), target.accepted,
                      old(target.slot.bytes), old(target.slot.installs), target.slot.bytes, target.slot.installs)
  {
    hide Injectable, Rewritten, R.SessionRegistry.Valid, OpcodeTable.Valid;
    var md := registry.RegisterMethod(target.owner);
    token := md.token;
    assert Injectable(t, target.body, HooksFor(enter, exit, token));
    var _ := InjectEnterExitHooks(t, target.body, HooksFor(enter, exit, token), target.slot, target.accepted);
  }

  /** The body of a target after its injection. */
  ghost predicate Done(t: OpcodeTable, target: Target, h: Hooks, before: seq<Byte>, installs: nat)
    requires t.Valid()
    reads target.slot
  {
    Rewritten(t, target.body, h, target.accepted, before, installs, target.slot.bytes, target.slot.installs)
  }

  ghost function Bodies(targets: seq<Target>): (r: seq<(seq<Byte>, nat)>)
    reads Cells(targets)
    ensures |r| == |targets| && forall i {:trigger r[i]} {:trigger targets[i]} | 0 <= i < |r| ::
              r[i] == (targets[i].slot.bytes, targets[i].slot.installs)
  {
    if |targets| == 0 then []
    else Bodies(targets[..|targets| - 1]) + [(targets[|targets| - 1].slot.bytes, targets[|targets| - 1].slot.installs)]
  }

  /** What has become of a target's body: one new one if its code is readable, has a RET or takes no exit
      hook, and is accepted; otherwise the one it had. */
  lemma {:induction false} DoneMeans(t: OpcodeTable, target: Target, h: Hooks, before: seq<Byte>, installs: nat)
    requires t.Valid() && Done(t, target, h, before, installs)
    ensures if target.accepted && ReadBody(t, target.body.body).Some? &&
               (var code := ReadBody(t, target.body.body).value.code;
                h.exit == 0 || exists i :: 0 <= i < |code| && code[i].op == 0x2A)
            then target.slot.installs == installs + 1 && BodyOf(t, target.body, h, target.slot.bytes)
            else target.slot.installs == installs && target.slot.bytes == before
  {
    hide ReadBody, AddProbes, IsBody, WriteBody, PushSum, Instrumented;
    InstrumentedExactly(t, target.body.body, h);
  }

  lemma {:induction false} OwnersSnoc(targets: seq<Target>, target: Target)
    ensures Owners(targets + [target]) == Owners(targets) + [target.owner]
  {
  }

  /** The first n targets have been registered and rewritten, the others not yet touched. */
  ghost predicate Progress(
      t: OpcodeTable, registry: R.HostRegistry, server: R.SessionRegistry, all: seq<Target>, n: nat,
      enter: nat, exit: nat, counter: nat, sessions: R.Sessions, was: seq<(seq<Byte>, nat)>)
    requires t.Valid()
    reads registry, server, server.sessions.Values, Cells(all)
  {
    && n <= |all| == |was| && registry.callback == server && server.Valid()
    && registry.tokenCounter == R.CounterAfter(counter, n)
    && server.Contents() == R.AllDelivered(sessions, registry.pid, Owners(all[..n]), counter)
    && (forall k {:trigger all[k]} | n <= k < |all| :: (all[k].slot.bytes, all[k].slot.installs) == was[k])
    && (forall k {:trigger all[k]} | 0 <= k < n ::
          Done(t, all[k], HooksFor(enter, exit, R.CounterAfter(counter, k + 1)), was[k].0, was[k].1))
  }

  /** The next target. */
  method InstrumentNext(t: OpcodeTable, registry: R.HostRegistry, server: R.SessionRegistry, target: Target,
      enter: nat, exit: nat, ghost all: seq<Target>, ghost n: nat, ghost counter: nat,
      ghost sessions: R.Sessions, ghost was: seq<(seq<Byte>, nat)>)
    requires t.Valid() && n < |all| && all[n] == target && AllInjectable(t, all, enter, exit)
    requires Progress(t, registry, server, all, n, enter, exit, counter, sessions, was)
    modifies registry, server, server.sessions.Values, target.slot
    ensures Progress(t, registry, server, all, n + 1, enter, exit, counter, sessions, was)
    ensures fresh(server.sessions.Values - old(server.sessions.Values))
  {
    hide Injectable, Rewritten, Owners, R.SessionRegistry.Contents, R.SessionRegistry.Valid, R.AllDelivered,
      R.CounterAfter, R.Delivered, R.NextToken, OpcodeTable.Valid;
    assert all[..n + 1] == all[..n] + [all[n]];
    OwnersSnoc(all[..n], all[n]);
    R.OneMore(sessions, registry.pid, Owners(all[..n]), all[n].owner, counter);
    assert all[n].slot == target.slot;
    var token := InstrumentMethod(t, registry, server, target, enter, exit);
    assert forall k {:trigger all[k]} | 0 <= k < |all| && k != n :: all[k].slot != all[n].slot;
  }

  /** The methods of type i. */
  method InstrumentType(
      t: OpcodeTable, registry: R.HostRegistry, server: R.SessionRegistry, types: seq<seq<Target>>, i: nat,
      enter: nat, exit: nat, ghost n: nat, ghost counter: nat, ghost sessions: R.Sessions,
      ghost was: seq<(seq<Byte>, nat)>)
    requires t.Valid() && i < |types| && AllInjectable(t, AllTargets(types), enter, exit)
             && n == |AllTargets(types[..i])|
    requires Progress(t, registry, server, AllTargets(types), n, enter, exit, counter, sessions, was)
    modifies registry, server, server.sessions.Values, Cells(AllTargets(types))
    ensures Progress(t, registry, server, AllTargets(types), |AllTargets(types[..i + 1])|, enter, exit, counter,
            sessions, was)
    ensures fresh(server.sessions.Values - old(server.sessions.Values))
  {
    hide Injectable, Rewritten, AllTargets, AllInjectable, Progress, Owners, R.SessionRegistry.Contents,
      R.SessionRegistry.Valid, OpcodeTable.Valid;
    ghost var all := AllTargets(types);
    LastType(types, i);
    for j := 0 to |types[i]|
      invariant fresh(server.sessions.Values - old(server.sessions.Values))
      invariant Progress(t, registry, server, all, n + j, enter, exit, counter, sessions, was)
    {
      TargetAt(types, i, j);
      InstrumentNext(t, registry, server, types[i][j], enter, exit, all, n + j, counter, sessions, was);
    }
  }

  /** Registers every method of every type, and rewrites it with the token it got; a method that
      cannot be rewritten keeps its body, and the loop goes on. */
  method InstrumentMethods(t: OpcodeTable, registry: R.HostRegistry, server: R.SessionRegistry, types: seq<seq<Target>>,
      enter: nat, exit: nat)
    requires t.Valid() && registry.callback == server && server.Valid()
    requires AllInjectable(t, AllTargets(types), enter, exit)
    modifies registry, server, server.sessions.Values, Cells(AllTargets(types))
    ensures Progress(t, registry, server, AllTargets(types), |AllTargets(types)|, enter, exit,
                     old(registry.tokenCounter), old(server.Contents()), old(Bodies(AllTargets(types))))
  {
    hide Injectable, Rewritten, AllTargets, AllInjectable, Progress, Owners, R.SessionRegistry.Contents,
      R.SessionRegistry.Valid, OpcodeTable.Valid;
    ghost var was := Bodies(AllTargets(types));
    ghost var counter, sessions := registry.tokenCounter, server.Contents();
    NothingDone(t, registry, server, types, enter, exit);
    for i := 0 to |types|
      invariant fresh(server.sessions.Values - old(server.sessions.Values))
      invariant Progress(t, registry, server, AllTargets(types), |AllTargets(types[..i])|, enter, exit, counter,
                sessions, was)
    {
      InstrumentType(t, registry, server, types, i, enter, exit, |AllTargets(types[..i])|, counter, sessions, was);
    }
    assert types[..|types|] == types;
  }

  lemma {:induction false} NothingDone(t: OpcodeTable, registry: R.HostRegistry, server: R.SessionRegistry,
      types: seq<seq<Target>>, enter: nat, exit: nat)
    requires t.Valid() && registry.callback == server && server.Valid()
    ensures var all := AllTargets(types);
            && |AllTargets(types[..0])| == 0
            && Progress(t, registry, server, all, 0, enter, exit, registry.tokenCounter, server.Contents(), Bodies(all))
  {
    hide R.SessionRegistry.Contents, R.SessionRegistry.Valid, OpcodeTable.Valid;
    var all := AllTargets(types);
    assert Owners(all[..0]) == [];
    R.NoneYet(server.Contents(), registry.pid, registry.tokenCounter);
  }

  // ---------- from the counter to the report ----------

  /** The exported code starts with a load of the token and a call of the hook. */
  ghost predicate EnterBytes(t: OpcodeTable, code: seq<Instr>, hook: nat, token: nat)
    requires t.Valid()
  {
    var il := Encode(t, code, |code|);
    |il| >= 10 && il[..5] == [0x20] + ToLE(token, 4) && il[5..10] == [0x28] + ToLE(hook, 4)
  }

  /** At position at the exported code has a NOP, a load of the token, a call of the hook and a RET. */
  ghost predicate ExitBytes(t: OpcodeTable, code: seq<Instr>, at: nat, hook: nat, token: nat)
    requires t.Valid()
  {
    && at < |code|
    && var il, o := Encode(t, code, |code|), Off(t, code, at);
       && o + 12 <= |il| && il[o] == 0x00
       && il[o + 1..o + 6] == [0x20] + ToLE(token, 4) && il[o + 6..o + 11] == [0x28] + ToLE(hook, 4)
       && il[o + 11] == 0x2A
  }

  /** The bytes of an instruction that is no jump, and where the next one starts. */
  lemma {:induction false} SimpleBytes(t: OpcodeTable, a: seq<Instr>, b: seq<Instr>, at: nat, x: Instr, bs: seq<Byte>)
    requires t.Valid() && Widening(a, b) && at < |a| && a[at] == x && !IsShort(x.op)
    requires x.op < 0x100 && t.FlagsOf(x.op).Plain? && bs == [x.op] + ToLE(x.arg, t.FlagsOf(x.op).size)
    ensures Off(t, b, at + 1) == Off(t, b, at) + |bs| <= |Encode(t, b, |b|)|
    ensures Encode(t, b, |b|)[Off(t, b, at)..Off(t, b, at + 1)] == bs
  {
    hide Encode, Off, ToLE;
    assert b[at] == x;
    OffStep(t, b, at);
    EncodeSlice(t, b, at, |b|);
    OffMonotone(t, b, at + 1, |b|);
    EncodePrefix(t, b, |b|, |b|);
  }

  lemma {:induction false} OffStep(t: OpcodeTable, code: seq<Instr>, at: nat)
    requires t.Valid() && at < |code|
    ensures Off(t, code, at + 1) == Off(t, code, at) + t.Size(code[at].op) && Off(t, code, 0) == 0
  {
  }

  /** The bytes of a probe at position at. */
  lemma {:induction false} LoadAndCall(t: OpcodeTable, a: seq<Instr>, b: seq<Instr>, at: nat, hook: nat, token: nat)
    requires t.Valid() && Widening(a, b) && at + 2 <= |a| && a[at..at + 2] == [LoadArg(token), CallHook(hook)]
    ensures var il, o := Encode(t, b, |b|), Off(t, b, at);
            && Off(t, b, at + 2) == o + 10 <= |il|
            && il[o..o + 5] == [0x20] + ToLE(token, 4) && il[o + 5..o + 10] == [0x28] + ToLE(hook, 4)
  {
    hide Encode, Off, ToLE, Widening;
    ProbeOpcodes(t);
    assert a[at] == a[at..at + 2][0] && a[at + 1] == a[at..at + 2][1];
    SimpleBytes(t, a, b, at, LoadArg(token), [0x20] + ToLE(token, 4));
    SimpleBytes(t, a, b, at + 1, CallHook(hook), [0x28] + ToLE(hook, 4));
  }

  /** The first node of the instrumented list, when there is an enter probe. */
  lemma {:induction false} EnterStandsFirst(t: OpcodeTable, p: Program, h: Hooks)
    requires t.Valid() && ProgramOk(t, p) && HooksOk(h) && AddProbes(p, h).Some? && h.enter != TOKEN_NIL && h.arg.Some?
    ensures var code := AddProbes(p, h).value.code;
            |code| >= 2 && code[..2] == [LoadArg(h.arg.value), CallHook(h.enter)]
  {
    EnteredStarts(p, h);
    ProbedStarts(t, p, h, 0);
    ProbedStarts(t, p, h, 1);
  }

  lemma {:induction false} EnteredStarts(p: Program, h: Hooks)
    requires h.enter != TOKEN_NIL && h.arg.Some?
    ensures |Entered(p, h).code| >= 2
    ensures Entered(p, h).code[0] == LoadArg(h.arg.value) && Entered(p, h).code[1] == CallHook(h.enter)
  {
    hide Splice;
    AddEnterIsSplice(p, h.enter, h.arg);
  }

  lemma {:induction false} ProbedStarts(t: OpcodeTable, p: Program, h: Hooks, j: nat)
    requires t.Valid() && ProgramOk(t, p) && HooksOk(h) && AddProbes(p, h).Some? && h.enter != TOKEN_NIL && h.arg.Some?
    requires j < 2 <= |Entered(p, h).code|
    requires Entered(p, h).code[0] == LoadArg(h.arg.value) && Entered(p, h).code[1] == CallHook(h.enter)
    ensures |AddProbes(p, h).value.code| >= 2 && AddProbes(p, h).value.code[j] == Entered(p, h).code[j]
  {
    hide Splice, ExitLoop, Epilog, TablesIntact, Entered;
    var entered := Entered(p, h);
    if h.exit != TOKEN_NIL {
      EnteredOk(t, p, h);
      ProgramInBounds(t, entered);
      ExitLoopShape(entered, h.exit, h.arg);
      var q := ExitLoop(entered, 0, h.exit, h.arg);
      assert InstrExited(entered, q, |entered.code|, Epilog(h.exit, h.arg), 0);
      assert InstrExited(entered, q, |entered.code|, Epilog(h.exit, h.arg), 1);
    }
  }

  /** The bytes of every probe in the installed code: the enter probe at the start, an exit probe
      behind the NOP in place of each RET, whatever has been widened. */
  lemma {:induction false} ProbeBytes(t: OpcodeTable, p: Program, h: Hooks, token: nat, i: nat)
    requires t.Valid() && ProgramOk(t, p) && HooksOk(h) && AddProbes(p, h).Some? && h.arg == Some(token)
    ensures h.enter != 0 ==> EnterBytes(t, Relaxed(t, AddProbes(p, h).value).code, h.enter, token)
    ensures h.exit != 0 && i < |p.code| && p.code[i].op == 0x2A ==>
              ExitBytes(t, Relaxed(t, AddProbes(p, h).value).code, Placed(p, h, i), h.exit, token)
  {
    hide ProgramOk, AddProbes, Relax, Placed, HooksOk, Encode, Off, Widening, OpcodeTable.Valid;
    var a := AddProbes(p, h).value.code;
    var b := Relax(t, a);
    RelaxIsSolution(t, a);
    if h.enter != 0 {
      EnterStandsFirst(t, p, h);
      assert a[0..2] == a[..2];
      OffStep(t, b, 0);
      LoadAndCall(t, a, b, 0, h.enter, token);
    }
    if h.exit != 0 && i < |p.code| && p.code[i].op == 0x2A {
      EpilogInside(t, p, h, i);
      EpilogBytes(t, a, b, Placed(p, h, i), h.exit, token);
    }
  }

  lemma {:induction false} EpilogBytes(t: OpcodeTable, a: seq<Instr>, b: seq<Instr>, at: nat, hook: nat, token: nat)
    requires t.Valid() && Widening(a, b) && at + 4 <= |a| && a[at].op == CEE_NOP
    requires a[at + 1..at + 4] == Epilog(hook, Some(token))
    ensures ExitBytes(t, b, at, hook, token)
  {
    hide Encode, Off, ToLE, OpcodeTable.Valid;
    ProbeOpcodes(t);
    assert a[at + 1..at + 3] == a[at + 1..at + 4][..2] && a[at + 3] == a[at + 1..at + 4][2];
    NoBytes(a[at].arg);
    NoBytes(0);
    SimpleBytes(t, a, b, at, a[at], [0x00]);
    LoadAndCall(t, a, b, at + 1, hook, token);
    SimpleBytes(t, a, b, at + 3, RET, [0x2A]);
    var il, o := Encode(t, b, |b|), Off(t, b, at);
    assert il[o] == il[o..o + 1][0] && il[o + 11] == il[o + 11..o + 12][0];
  }

  lemma {:induction false} NoBytes(v: nat)
    ensures ToLE(v, 0) == []
  {
  }

  /** A framed outcome, with its hooks spelled out. */
  lemma {:induction false} FramedEvents<V, M>(h: Hooks, r: Outcome<V, M>)
    requires r.Returned?
    ensures var r' := Framed(h, r);
            && r'.Returned? && r'.stack == r.stack && r'.mem == r.mem
            && r'.events == (if h.enter == 0 then [] else [Event(h.enter, h.arg)]) + r.events +
                            (if h.exit == 0 then [] else [Event(h.exit, h.arg)])
  {
  }

  /** The runs of the installed bytes, with the hooks spelled out. */
  lemma {:induction false} InstalledRuns<V(!new), M(!new)>(
      t: OpcodeTable, sem: Semantics<V, M>, m: Method, h: Hooks, bytes: seq<Byte>, mem: M, k: nat)
    requires t.Valid() && Installable(t, sem, m, h, mem, k)
    requires BodyOf(t, m, h, bytes)
    ensures ReadFat(bytes).Some? && ReadBody(t, ReadFat(bytes).value).Some?
    ensures var p, q := ReadBody(t, m.body).value, ReadBody(t, ReadFat(bytes).value).value;
            var r, r' := Run(t, sem, p, Entry([], mem), k), Run(t, sem, q, Entry([], mem), k + Cost(h));
            && (r'.Returned? <==> r.Returned?)
            && (r.Returned? ==>
                  && r'.stack == r.stack && r'.mem == r.mem
                  && r'.events == (if h.enter == 0 then [] else [Event(h.enter, h.arg)]) + r.events +
                                  (if h.exit == 0 then [] else [Event(h.exit, h.arg)]))
  {
    hide Run, IsBody, WriteBody, ReadFat, ReadBody, ProgramOk, HooksReport, HooksOk, AddProbes, Relax, StaysWithin,
      LimitFits, TokensFit, Framed, Cost, PushSum, OpcodeTable.Valid, Entry, Instrumented;
    InstalledBodyPreservesMeaning(t, sem, m.body, h, bytes, AttributesOf(m), m.maxStack, mem, k);
    var r := Run(t, sem, ReadBody(t, m.body).value, Entry([], mem), k);
    if r.Returned? {
      FramedEvents(h, r);
    }
  }

  /** The bytes of the probes in it. */
  lemma {:induction false} InstalledProbes<V(!new), M(!new)>(
      t: OpcodeTable, sem: Semantics<V, M>, m: Method, h: Hooks, token: nat, bytes: seq<Byte>, mem: M, k: nat)
    requires t.Valid() && Installable(t, sem, m, h, mem, k) && h.arg == Some(token)
    requires BodyOf(t, m, h, bytes)
    ensures ReadFat(bytes).Some? && ReadBody(t, ReadFat(bytes).value).Some?
    ensures var p, q := ReadBody(t, m.body).value, ReadBody(t, ReadFat(bytes).value).value;
            && (h.enter != 0 ==> EnterBytes(t, q.code, h.enter, token))
            && (forall j {:trigger p.code[j]} | 0 <= j < |p.code| && p.code[j].op == 0x2A && h.exit != 0 ::
                  ExitBytes(t, q.code, Placed(p, h, j), h.exit, token))
  {
    hide IsBody, WriteBody, ReadFat, ReadBody, ProgramOk, HooksReport, HooksOk, AddProbes, Relax, StaysWithin,
      LimitFits, TokensFit, EnterBytes, ExitBytes, Placed, PushSum, OpcodeTable.Valid, Instrumented;
    var p := ReadBody(t, m.body).value;
    InstalledIsRead(t, sem, m, h, bytes, mem, k);
    ProbeBytes(t, p, h, token, 0);
    forall j {:trigger p.code[j]} | 0 <= j < |p.code| && p.code[j].op == 0x2A && h.exit != 0
      ensures ExitBytes(t, Relaxed(t, AddProbes(p, h).value).code, Placed(p, h, j), h.exit, token)
    {
      ProbeBytes(t, p, h, token, j);
    }
  }

  /** The whole way of a token. Method i of an instrumented module got the i-th token behind the
      counter; its installed bytes, when run, report that token on entry and on return around the
      original run; the operands in them widen to that token; and the server resolves it to the
      method. */
  lemma {:induction false} InstrumentedModuleIsTraced<V(!new), M(!new)>(
      t: OpcodeTable, sem: Semantics<V, M>, targets: seq<Target>, i: nat, enter: nat, exit: nat, counter: nat,
      token: nat, sessions: R.Sessions, pid: int, bytes: seq<Byte>, mem: M, k: nat, signed: bool)
    requires t.Valid() && i < |targets| && counter + |targets| < TWO_31 && token == R.CounterAfter(counter, i + 1)
    requires Installable(t, sem, targets[i].body, HooksFor(enter, exit, token), mem, k)
    requires BodyOf(t, targets[i].body, HooksFor(enter, exit, token), bytes)
    ensures ReadFat(bytes).Some? && ReadBody(t, ReadFat(bytes).value).Some?
    ensures var p, q := ReadBody(t, targets[i].body.body).value, ReadBody(t, ReadFat(bytes).value).value;
            var r := Run(t, sem, p, Entry([], mem), k);
            var r' := Run(t, sem, q, Entry([], mem), k + Cost(HooksFor(enter, exit, token)));
            && (r'.Returned? <==> r.Returned?)
            && (r.Returned? ==>
                  && r'.stack == r.stack && r'.mem == r.mem
                  && r'.events == (if enter == 0 then [] else [Event(enter, Some(token))]) + r.events +
                                  (if exit == 0 then [] else [Event(exit, Some(token))]))
    ensures token == counter + i + 1 && R.Received(ToLE(token, 4), signed) == token
    ensures R.Resolve(R.AllDelivered(sessions, pid, Owners(targets), counter), pid, token) ==
            var owner := targets[i].owner;
            Some(R.Metadata(token, owner.assemblyName, owner.typeName, owner.signature))
  {
    hide Run, BodyOf, ReadFat, ReadBody, Cost, R.AllDelivered, R.Resolve, R.CounterAfter, R.Received,
      OpcodeTable.Valid, Entry, Installable;
    R.IssuedTokensResolve(sessions, pid, Owners(targets), counter, i);
    R.TokenSurvives(token);
    InstalledRuns(t, sem, targets[i].body, HooksFor(enter, exit, token), bytes, mem, k);
  }

  /** These bytes are what the injector installs for m. */
  ghost predicate BodyOf(t: OpcodeTable, m: Method, h: Hooks, bytes: seq<Byte>)
    requires t.Valid()
  {
    && Instrumented(t, m.body, h).Some?
    && var q := Instrumented(t, m.body, h).value;
       IsBody(bytes, WriteBody(t, q), AttributesOf(m), Low32(m.maxStack + PushSum(t, q.code)))
  }

  /** A valid method within the size limits, whose runs keep to its own stack limit. */
  ghost predicate Installable<V(!new), M(!new)>(
      t: OpcodeTable, sem: Semantics<V, M>, m: Method, h: Hooks, mem: M, k: nat)
    requires t.Valid()
  {
    && ReadBody(t, m.body).Some? && ProgramOk(t, ReadBody(t, m.body).value) && TokensFit(ReadBody(t, m.body).value)
    && HooksOk(h) && HooksReport(sem, h) && Instrumented(t, m.body, h).Some?
    && 10 * |Instrumented(t, m.body, h).value.code| < CODE_LIMIT && |m.body.eh| <= 699050
    && m.maxStack < 0x1_0000 && LimitFits(t, Instrumented(t, m.body, h).value.code, h, m.maxStack)
    && StaysWithin(t, sem, ReadBody(t, m.body).value, Entry([], mem), k + Cost(h), m.maxStack)
  }

  /** A readable body with real regions, 32-bit words in its clauses and hooks, few enough clauses, and
      runs that keep to a limit to which the pushes of the new code can be added in 16 bits. */
  lemma {:induction false} InstallableWhen<V(!new), M(!new)>(
      t: OpcodeTable, sem: Semantics<V, M>, m: Method, h: Hooks, mem: M, k: nat)
    requires t.Valid() && ReadBody(t, m.body).Some? && Instrumented(t, m.body, h).Some? && HooksReport(sem, h)
    requires forall c {:trigger m.body.eh[c]} | 0 <= c < |m.body.eh| :: var f := m.body.eh[c];
               && f.tryOffset <= (f.tryOffset + f.tryLength) % 0x1_0000_0000
               && f.handlerOffset < (f.handlerOffset + f.handlerLength) % 0x1_0000_0000
               && f.flags < 0x1_0000_0000 && f.tokenOrFilter < 0x1_0000_0000
    requires h.enter < 0x1_0000_0000 && h.exit < 0x1_0000_0000 && (h.arg.Some? ==> h.arg.value < 0x1_0000_0000)
    requires 10 * |Instrumented(t, m.body, h).value.code| < 0x1_0000_0000 - 0x80 && |m.body.eh| <= 699050
    requires m.maxStack + PushSum(t, Instrumented(t, m.body, h).value.code) < 0x1_0000
    requires StaysWithin(t, sem, ReadBody(t, m.body).value, Entry([], mem), k + Cost(h), m.maxStack)
    ensures Installable(t, sem, m, h, mem, k)
  {
    hide Parse, AddProbes, HooksReport, StaysWithin, ProgramOk, PointersSet, Relax, PushSum, LimitFits, ImportClause,
      HandlerEnds, OpcodeTable.Valid;
    var p := ReadBody(t, m.body).value;
    ReadBodyIsOk(t, m.body);
    RelaxKeepsPushes(t, AddProbes(p, h).value.code);
    LimitFitsExactly(t, p, h, m.maxStack);
    SamePushesFit(t, Instrumented(t, m.body, h).value.code, AddProbes(p, h).value.code, h, m.maxStack);
    forall c {:trigger p.eh[c]} | 0 <= c < |p.eh|
      ensures p.eh[c].flags < TWO_32 && p.eh[c].token < TWO_32
    {
      assert p.eh[c] == ImportClause(t, p.code, m.body.eh[c]);
      ImportedToken(t, p.code, m.body.eh[c]);
    }
  }

  lemma {:induction false} ImportedToken(t: OpcodeTable, code: seq<Instr>, f: FatClause)
    requires t.Valid() && HandlerEnds(t, code, f)
    ensures ImportClause(t, code, f).flags == f.flags && ImportClause(t, code, f).token <= f.tokenOrFilter
  {
  }

  lemma {:induction false} InstalledIsRead<V(!new), M(!new)>(
      t: OpcodeTable, sem: Semantics<V, M>, m: Method, h: Hooks, bytes: seq<Byte>, mem: M, k: nat)
    requires t.Valid() && Installable(t, sem, m, h, mem, k)
    requires BodyOf(t, m, h, bytes)
    ensures AddProbes(ReadBody(t, m.body).value, h).Some?
    ensures ReadFat(bytes).Some?
    ensures ReadBody(t, ReadFat(bytes).value) == Some(Relaxed(t, AddProbes(ReadBody(t, m.body).value, h).value))
  {
    hide Run, IsBody, WriteBody, ReadFat, ReadBody, ProgramOk, HooksReport, HooksOk, AddProbes, Relax, StaysWithin,
      LimitFits, Fits, PushSum, OpcodeTable.Valid;
    var p := ReadBody(t, m.body).value;
    var probed := AddProbes(p, h).value;
    var q := Relaxed(t, probed);
    ProbesKeepOk(t, p, h);
    RelaxIsSolution(t, probed.code);
    WideningKeepsOk(t, probed, q.code);
    RelaxKeepsPushes(t, probed.code);
    TokensKept(t, p, m.body, h);
    InstalledBytesRead(t, q, bytes, AttributesOf(m), Low32(m.maxStack + PushSum(t, q.code)));
  }

  // ---------- a method all this is about ----------

  /** A body that is nothing but a RET satisfies everything asked of a method, whatever the length of
      its runs. */
  lemma {:induction false} LoneRetIsInstallable(t: OpcodeTable, k: nat)
    requires t.Valid() && t.pushes[CEE_CALL] <= 1
    ensures var m, h := Method(0, 8, 0, WriteBody(t, Program([RET], []))), Hooks(1, 0, Some(7));
            Installable(t, ReportingCalls(Some(7)), m, h, (), k)
  {
    hide ReadBody, WriteBody, ProgramOk, AddProbes, Relax, PushSum, Off, HooksReport, StaysWithin, Splice, Fits,
      OpcodeTable.Valid;
    var p, h, sem := Program([RET], []), Hooks(1, 0, Some(7)), ReportingCalls(Some(7));
    LoneRetIsOk(t);
    LoneRetReads(t);
    LoneRetPushes(t);
    LoneRetGrows();
    LoneRetStaysEmpty(t, sem, ());
    HooksCanReport(h);
    RelaxKeepsPushes(t, AddProbes(p, h).value.code);
    assert StaysWithin(t, sem, p, Entry([], ()), k + Cost(h), 0);
    WithinShorter(t, sem, p, Entry([], ()), k + Cost(h), k + Cost(h), 0, 8);
  }

  lemma {:induction false} LoneRetReads(t: OpcodeTable)
    requires t.Valid()
    ensures ReadBody(t, WriteBody(t, Program([RET], []))) == Some(Program([RET], []))
    ensures WriteBody(t, Program([RET], [])).eh == []
  {
    hide ReadBody, ProgramOk;
    var p := Program([RET], []);
    LoneRetIsOk(t);
    OffMonotone(t, p.code, 0, 1);
    BodyParseUndoesPrint(t, p);
  }

  lemma {:induction false} LoneRetGrows()
    ensures |AddProbes(Program([RET], []), Hooks(1, 0, Some(7))).value.code| == 3
  {
    AddEnterIsSplice(Program([RET], []), 1, Some(7));
  }

  /** And every body has bytes. */
  lemma {:induction false} BodyHasBytes(b: Body, a: Attributes, maxStack: nat) returns (bytes: seq<Byte>)
    requires b.eh == []
    ensures IsBody(bytes, b, a, maxStack)
  {
    hide Header;
    var header := Header(a, maxStack, |b.il|, 0);
    var padding := seq(Align4(|b.il|) - |b.il|, i => 0);
    bytes := header + b.il + padding;
    assert bytes[0..HEADER_SIZE] == header;
    assert bytes[HEADER_SIZE..HEADER_SIZE + |b.il|] == b.il;
  }
}
