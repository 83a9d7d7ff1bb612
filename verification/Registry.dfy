/** Method tokens: handed out in the profiled process, announced to the server, baked into method
    bodies and looked up when those bodies report. */
module Registry {
  import opened Bytes
  import opened Opcodes
  import opened Listing
  import opened Encoding
  import opened Probes

  const TWO_64: nat := 0x1_0000_0000_0000_0000

  /** A method of a profiled process: what the registry is told about it, and its definition token. */
  datatype Method = Method(assemblyName: string, typeName: string, signature: string, def: nat)

  datatype Metadata = Metadata(token: nat, assemblyName: string, typeName: string, signature: string)

  function MetadataOf(m: Method, token: nat): (md: Metadata)
    ensures md.token == token && md.assemblyName == m.assemblyName
    ensures md.typeName == m.typeName && md.signature == m.signature
  {
    Metadata(token, m.assemblyName, m.typeName, m.signature)
  }

  /** The server's knowledge: for each process, the methods announced under their tokens. */
  type Sessions = map<int, map<nat, Metadata>>

  function Wrapped(n: nat): nat { n % TWO_64 }

  /** The interlocked increment of a 64-bit counter. */
  function NextToken(counter: nat): nat { Wrapped(counter + 1) }

  lemma {:induction false} WrappedNext(n: nat)
    ensures NextToken(Wrapped(n)) == Wrapped(n + 1)
  {
  }

  /** The server after it has looked up the session of pid, opening one if there is none. */
  function Opened(s: Sessions, pid: int): (r: Sessions)
    ensures pid in r
  {
    if pid in s then s else s[pid := map[]]
  }

  /** The server after a method has been announced. */
  function Delivered(s: Sessions, pid: int, md: Metadata): Sessions {
    var session: map<nat, Metadata> := Opened(s, pid)[pid];
    s[pid := session[md.token := md]]
  }

  lemma {:induction false} DeliveredOpened(s: Sessions, pid: int, md: Metadata)
    ensures Delivered(s, pid, md) == Delivered(Opened(s, pid), pid, md)
  {
  }

  function Resolve(s: Sessions, pid: int, token: nat): Option<Metadata> {
    if pid in s && token in s[pid] then Some(s[pid][token]) else None
  }

  lemma {:induction false} DeliveredResolves(s: Sessions, pid: int, md: Metadata, token: nat)
    ensures Resolve(Delivered(s, pid, md), pid, token) == if token == md.token then Some(md) else Resolve(s, pid, token)
  {
  }

  // ---------- the token inside a method body ----------

  /** The unsigned 64-bit argument the hook receives for a 32-bit literal, widened with its sign or
      with zeros. */
  function Received(operand: seq<Byte>, signed: bool): nat
    requires |operand| == 4
  {
    Pow256Values();
    if signed then Int32(FromLE(operand)) % TWO_64 else FromLE(operand)
  }

  /** The instruction a probe loads its argument with holds the low four bytes of the token. */
  lemma {:induction false} ProbeOperand(t: OpcodeTable, code: seq<Instr>, i: nat, token: nat)
    requires t.Valid() && i < |code| && code[i] == LoadArg(token)
    ensures EncodeInstr(t, code, i) == [CEE_LDC_I4] + ToLE(token, 4)
  {
    ProbeOpcodes(t);
  }

  /** A token reaches the hook intact, however the literal is widened, exactly when it is below 2^31. */
  lemma {:induction false} TokenSurvives(token: nat)
    requires token < TWO_64
    ensures Received(ToLE(token, 4), true) == token == Received(ToLE(token, 4), false) <==> token < TWO_31
  {
    Pow256Values();
    LowWord(token);
    FromToLE(token % TWO_32, 4);
  }

  // ---------- every interleaving ----------

  /** A registration under way in one thread: a token is taken, then announced, then injected. */
  datatype Phase = Counted(owner: Method, token: nat) | Announced(owner: Method, token: nat)

  datatype Issue = Issue(owner: Method, token: nat)

  /** One probe operand in an installed body (four bytes behind each opcode that loads the token). */
  datatype Site = Site(owner: Method, operand: seq<Byte>)

  /** issued records, in order, which registration got which token. */
  datatype Process = Process(counter: nat, issued: seq<Issue>, threads: map<nat, Phase>, installed: set<Site>)

  datatype Report = Report(pid: int, owner: Method, token: nat)

  datatype State = State(processes: map<int, Process>, sessions: Sessions, reports: seq<Report>)

  /** The atomic steps. Injection may fail, in which case no body is installed; an installed body
      may run at any time and reports what its operand denotes. */
  datatype Step =
    | Connect(pid: int)
    | Count(pid: int, thread: nat, m: Method)
    | Announce(pid: int, thread: nat)
    | Inject(pid: int, thread: nat, ok: bool)
    | Fire(pid: int, site: Site, signed: bool)

  const INITIAL := State(map[], map[], [])

  predicate Enabled(s: State, step: Step) {
    if step.Connect? then step.pid !in s.processes
    else
      && step.pid in s.processes
      && var p := s.processes[step.pid];
         match step
         case Count(_, thread, _) => thread !in p.threads
         case Announce(_, thread) => thread in p.threads && p.threads[thread].Counted?
         case Inject(_, thread, _) => thread in p.threads && p.threads[thread].Announced?
         case Fire(_, site, _) => site in p.installed && |site.operand| == 4
         case Connect(_) => false
  }

  function Counting(p: Process, thread: nat, m: Method): Process {
    var token := NextToken(p.counter);
    p.(counter := token, issued := p.issued + [Issue(m, token)], threads := p.threads[thread := Counted(m, token)])
  }

  function Announcing(p: Process, thread: nat): Process
    requires thread in p.threads
  {
    p.(threads := p.threads[thread := Announced(p.threads[thread].owner, p.threads[thread].token)])
  }

  function Injecting(p: Process, thread: nat, ok: bool): Process
    requires thread in p.threads
  {
    var site := Site(p.threads[thread].owner, ToLE(p.threads[thread].token, 4));
    p.(threads := p.threads - {thread}, installed := if ok then p.installed + {site} else p.installed)
  }

  function Apply(s: State, step: Step): State
    requires Enabled(s, step)
  {
    match step
    case Connect(pid) => s.(processes := s.processes[pid := Process(0, [], map[], {})],
      sessions := Opened(s.sessions, pid))
    case Count(pid, thread, m) => s.(processes := s.processes[pid := Counting(s.processes[pid], thread, m)])
    case Announce(pid, thread) =>
      var phase := s.processes[pid].threads[thread];
      s.(processes := s.processes[pid := Announcing(s.processes[pid], thread)],
         sessions := Delivered(s.sessions, pid, MetadataOf(phase.owner, phase.token)))
    case Inject(pid, thread, ok) => s.(processes := s.processes[pid := Injecting(s.processes[pid], thread, ok)])
    case Fire(pid, site, signed) => s.(reports := s.reports + [Report(pid, site.owner, Received(site.operand, signed))])
  }

  /** The state a schedule leads to, None when one of its steps is not possible. */
  function Execute(steps: seq<Step>): Option<State> {
    if |steps| == 0 then Some(INITIAL)
    else
      var before := Execute(steps[..|steps| - 1]);
      if before.Some? && Enabled(before.value, steps[|steps| - 1]) then Some(Apply(before.value, steps[|steps| - 1]))
      else None
  }

  /** Every process has made at most n registrations. */
  ghost predicate AtMost(s: State, n: nat) {
    forall pid {:trigger s.processes[pid]} | pid in s.processes :: |s.processes[pid].issued| <= n
  }

  ghost predicate TokensCount(p: Process) {
    && p.counter == Wrapped(|p.issued|)
    && forall i {:trigger p.issued[i]} | 0 <= i < |p.issued| :: p.issued[i].token == Wrapped(i + 1)
  }

  /** token was issued to owner. */
  predicate IssuedTo(p: Process, owner: Method, token: nat) {
    1 <= token <= |p.issued| && p.issued[token - 1] == Issue(owner, token)
  }

  /** token was issued to owner and the server knows it as that method. */
  predicate Known(p: Process, session: map<nat, Metadata>, owner: Method, token: nat) {
    IssuedTo(p, owner, token) && token in session && session[token] == MetadataOf(owner, token)
  }

  ghost predicate ThreadOk(p: Process, session: map<nat, Metadata>, phase: Phase) {
    match phase
    case Counted(m, token) => IssuedTo(p, m, token)
    case Announced(m, token) => Known(p, session, m, token)
  }

  ghost predicate SiteOk(p: Process, session: map<nat, Metadata>, site: Site) {
    && |site.operand| == 4 && Known(p, session, site.owner, FromLE(site.operand))
    && site.operand == ToLE(FromLE(site.operand), 4)
  }

  /** The server knows nothing but what was issued. */
  ghost predicate SessionOk(p: Process, session: map<nat, Metadata>) {
    forall token: nat {:trigger session[token]} | token in session ::
      1 <= token <= |p.issued| && session[token] == MetadataOf(p.issued[token - 1].owner, token)
  }

  /** What holds of a process and its session as long as fewer than 2^31 tokens are out. */
  ghost predicate ProcessOk(p: Process, session: map<nat, Metadata>) {
    && TokensCount(p) && SessionOk(p, session)
    && (forall th {:trigger p.threads[th]} | th in p.threads :: ThreadOk(p, session, p.threads[th]))
    && (forall site {:trigger SiteOk(p, session, site)} | site in p.installed :: SiteOk(p, session, site))
  }

  ghost predicate ReportOk(s: State, r: Report) {
    r.pid in s.processes && r.pid in s.sessions && Known(s.processes[r.pid], s.sessions[r.pid], r.owner, r.token)
  }

  ghost predicate Ok(s: State) {
    && s.sessions.Keys == s.processes.Keys
    && (forall pid {:trigger s.processes[pid]} | pid in s.processes :: ProcessOk(s.processes[pid], s.sessions[pid]))
    && (forall i {:trigger s.reports[i]} | 0 <= i < |s.reports| :: ReportOk(s, s.reports[i]))
  }

  ghost predicate AllCount(s: State) {
    forall pid {:trigger s.processes[pid]} | pid in s.processes :: TokensCount(s.processes[pid])
  }

  lemma {:induction false} CountingCounts(p: Process, thread: nat, m: Method)
    requires TokensCount(p)
    ensures TokensCount(Counting(p, thread, m))
  {
    hide Wrapped, NextToken;
    WrappedNext(|p.issued|);
  }

  lemma {:induction false} StepCounts(s: State, step: Step)
    requires AllCount(s) && Enabled(s, step)
    ensures AllCount(Apply(s, step))
  {
    hide Counting;
    if step.Count? {
      CountingCounts(s.processes[step.pid], step.thread, step.m);
    }
  }

  lemma {:induction false} ExecuteCounts(steps: seq<Step>)
    requires Execute(steps).Some?
    ensures AllCount(Execute(steps).value)
  {
    hide Apply, Enabled;
    if |steps| > 0 {
      ExecuteCounts(steps[..|steps| - 1]);
      StepCounts(Execute(steps[..|steps| - 1]).value, steps[|steps| - 1]);
    }
  }

  /** In every schedule: two registrations of one process get the same token exactly when a multiple
      of 2^64 lies between them, so the first 2^64 tokens are pairwise distinct. */
  lemma {:induction false} TokensAreDistinct(steps: seq<Step>, pid: int, i: nat, j: nat)
    requires Execute(steps).Some? && pid in Execute(steps).value.processes
    requires i < j < |Execute(steps).value.processes[pid].issued|
    ensures var issued := Execute(steps).value.processes[pid].issued;
            issued[i].token == issued[j].token <==> (j - i) % 0x1_0000_0000_0000_0000 == 0
  {
    hide Wrapped;
    ExecuteCounts(steps);
    WrappedAlike(i + 1, j + 1);
  }

  lemma {:induction false} WrappedAlike(a: nat, b: nat)
    requires a < b
    ensures Wrapped(a) == Wrapped(b) <==> (b - a) % 0x1_0000_0000_0000_0000 == 0
  {
  }

  // ---------- no step forgets a token ----------

  /** Nothing issued or announced is lost between two states of a process and its session. */
  ghost predicate Grows(p: Process, session: map<nat, Metadata>, p': Process, session': map<nat, Metadata>) {
    && |p.issued| <= |p'.issued| && p'.issued[..|p.issued|] == p.issued
    && session.Keys <= session'.Keys && SessionOk(p', session')
  }

  lemma {:induction false} KnownStays(
      p: Process, session: map<nat, Metadata>, p': Process, session': map<nat, Metadata>, owner: Method, token: nat)
    requires Grows(p, session, p', session') && IssuedTo(p, owner, token)
    ensures IssuedTo(p', owner, token)
    ensures Known(p, session, owner, token) ==> Known(p', session', owner, token)
  {
    assert p'.issued[token - 1] == p'.issued[..|p.issued|][token - 1];
    if token in session {
      assert token in session' && session'[token] == session'[token];
    }
  }

  /** The sites and threads that one step did not touch stay right. */
  lemma {:induction false} RestStays(p: Process, session: map<nat, Metadata>, p': Process, session': map<nat, Metadata>)
    requires ProcessOk(p, session) && Grows(p, session, p', session')
    ensures forall th {:trigger p.threads[th]} | th in p.threads :: ThreadOk(p', session', p.threads[th])
    ensures forall site {:trigger SiteOk(p', session', site)} | site in p.installed :: SiteOk(p', session', site)
  {
    hide Grows, SessionOk, IssuedTo, Known;
    forall th {:trigger p.threads[th]} | th in p.threads
      ensures ThreadOk(p', session', p.threads[th])
    {
      var phase := p.threads[th];
      PhaseStays(p, session, p', session', phase);
    }
    forall site | site in p.installed
      ensures SiteOk(p', session', site)
    {
      assert SiteOk(p, session, site);
      KnownIsIssued(p, session, site.owner, FromLE(site.operand));
      KnownStays(p, session, p', session', site.owner, FromLE(site.operand));
    }
  }

  lemma {:induction false} KnownIsIssued(p: Process, session: map<nat, Metadata>, owner: Method, token: nat)
    ensures Known(p, session, owner, token) ==> IssuedTo(p, owner, token)
  {
  }

  lemma {:induction false} PhaseStays(
      p: Process, session: map<nat, Metadata>, p': Process, session': map<nat, Metadata>, phase: Phase)
    requires Grows(p, session, p', session') && ThreadOk(p, session, phase)
    ensures ThreadOk(p', session', phase)
  {
    hide Grows;
    KnownStays(p, session, p', session', phase.owner, phase.token);
  }

  lemma {:induction false} CountKeeps(p: Process, session: map<nat, Metadata>, thread: nat, m: Method)
    requires ProcessOk(p, session) && thread !in p.threads && |p.issued| + 1 < TWO_31
    ensures Grows(p, session, Counting(p, thread, m), session) && ProcessOk(Counting(p, thread, m), session)
  {
    hide SiteOk;
    var q := Counting(p, thread, m);
    assert Grows(p, session, q, session);
    RestStays(p, session, q, session);
  }

  lemma {:induction false} AnnounceKeeps(p: Process, session: map<nat, Metadata>, thread: nat)
    requires ProcessOk(p, session) && thread in p.threads && p.threads[thread].Counted?
    ensures var phase := p.threads[thread];
            var session' := session[phase.token := MetadataOf(phase.owner, phase.token)];
            Grows(p, session, Announcing(p, thread), session') && ProcessOk(Announcing(p, thread), session')
  {
    hide SiteOk;
    var phase, q := p.threads[thread], Announcing(p, thread);
    var session' := session[phase.token := MetadataOf(phase.owner, phase.token)];
    assert ThreadOk(p, session, phase);
    assert Grows(p, session, q, session');
    RestStays(p, session, q, session');
  }

  lemma {:induction false} InjectKeeps(p: Process, session: map<nat, Metadata>, thread: nat, ok: bool)
    requires ProcessOk(p, session) && thread in p.threads && p.threads[thread].Announced? && |p.issued| < TWO_31
    ensures Grows(p, session, Injecting(p, thread, ok), session) && ProcessOk(Injecting(p, thread, ok), session)
  {
    hide SiteOk;
    var q := Injecting(p, thread, ok);
    assert ThreadOk(p, session, p.threads[thread]);
    SurvivingSite(p, session, p.threads[thread].owner, p.threads[thread].token);
    assert Grows(p, session, q, session);
    RestStays(p, session, q, session);
    SurvivingSite(q, session, p.threads[thread].owner, p.threads[thread].token);
  }

  lemma {:induction false} SurvivingSite(p: Process, session: map<nat, Metadata>, owner: Method, token: nat)
    requires Known(p, session, owner, token) && |p.issued| < TWO_31
    ensures SiteOk(p, session, Site(owner, ToLE(token, 4)))
  {
    Pow256Values();
    FromToLE(token, 4);
  }

  /** The process a step belongs to, after the step. */
  lemma {:induction false} StepKeepsProcess(s: State, step: Step)
    requires Ok(s) && Enabled(s, step) && AtMost(Apply(s, step), TWO_31 - 1)
    ensures step.pid in Apply(s, step).processes && step.pid in Apply(s, step).sessions
    ensures ProcessOk(Apply(s, step).processes[step.pid], Apply(s, step).sessions[step.pid])
    ensures step.pid in s.processes ==>
              Grows(s.processes[step.pid], s.sessions[step.pid], Apply(s, step).processes[step.pid],
                Apply(s, step).sessions[step.pid])
  {
    hide ThreadOk, SiteOk, Grows, SessionOk, TokensCount;
    var s' := Apply(s, step);
    var p' := s'.processes[step.pid];
    assert |p'.issued| < TWO_31;
    if step.Connect? {
      EmptyOk();
    } else {
      var p, session := s.processes[step.pid], s.sessions[step.pid];
      match step {
        case Count(_, thread, m) => CountKeeps(p, session, thread, m);
        case Announce(_, thread) => AnnounceKeeps(p, session, thread);
        case Inject(_, thread, ok) => InjectKeeps(p, session, thread, ok);
        case _ => SameGrows(p, session);
      }
    }
  }

  lemma {:induction false} EmptyOk()
    ensures ProcessOk(Process(0, [], map[], {}), map[])
  {
  }

  lemma {:induction false} SameGrows(p: Process, session: map<nat, Metadata>)
    requires ProcessOk(p, session)
    ensures Grows(p, session, p, session)
  {
  }

  /** What the operand of an installed body denotes, however it is widened, is its token. */
  lemma {:induction false} SiteReports(p: Process, session: map<nat, Metadata>, site: Site, signed: bool)
    requires ProcessOk(p, session) && site in p.installed && |p.issued| < TWO_31
    ensures |site.operand| == 4 && Known(p, session, site.owner, Received(site.operand, signed))
  {
    assert SiteOk(p, session, site);
    TokenSurvives(FromLE(site.operand));
  }

  lemma {:induction false} StepKeepsOk(s: State, step: Step)
    requires Ok(s) && Enabled(s, step) && AtMost(Apply(s, step), TWO_31 - 1)
    ensures Ok(Apply(s, step))
  {
    hide ProcessOk, Grows, Known, Received, AtMost;
    var s' := Apply(s, step);
    StepKeepsProcess(s, step);
    forall i {:trigger s'.reports[i]} | 0 <= i < |s'.reports|
      ensures ReportOk(s', s'.reports[i])
    {
      if i < |s.reports| {
        ReportStays(s, step, s.reports[i]);
      } else {
        LastReport(s, step);
      }
    }
  }

  lemma {:induction false} ReportStays(s: State, step: Step, r: Report)
    requires Ok(s) && Enabled(s, step) && AtMost(Apply(s, step), TWO_31 - 1) && ReportOk(s, r)
    ensures ReportOk(Apply(s, step), r)
  {
    hide ProcessOk, Grows, AtMost;
    StepKeepsProcess(s, step);
    if r.pid == step.pid {
      var s' := Apply(s, step);
      KnownStays(s.processes[r.pid], s.sessions[r.pid], s'.processes[r.pid], s'.sessions[r.pid], r.owner, r.token);
    }
  }

  lemma {:induction false} LastReport(s: State, step: Step)
    requires Ok(s) && Enabled(s, step) && step.Fire? && AtMost(Apply(s, step), TWO_31 - 1)
    ensures ReportOk(Apply(s, step), Report(step.pid, step.site.owner, Received(step.site.operand, step.signed)))
  {
    hide ProcessOk;
    assert |Apply(s, step).processes[step.pid].issued| < TWO_31;
    SiteReports(s.processes[step.pid], s.sessions[step.pid], step.site, step.signed);
  }

  lemma {:induction false} CountsOnlyGrow(s: State, step: Step, n: nat)
    requires Enabled(s, step) && AtMost(Apply(s, step), n)
    ensures AtMost(s, n)
  {
    var s' := Apply(s, step);
    forall pid {:trigger s.processes[pid]} | pid in s.processes
      ensures |s.processes[pid].issued| <= n
    {
      assert |s'.processes[pid].issued| <= n;
    }
  }

  lemma {:induction false} ExecuteOk(steps: seq<Step>)
    requires Execute(steps).Some? && AtMost(Execute(steps).value, TWO_31 - 1)
    ensures Ok(Execute(steps).value)
  {
    hide Ok, AtMost, Enabled, Apply;
    if |steps| == 0 {
      InitialOk();
    } else {
      var s, last := Execute(steps[..|steps| - 1]).value, steps[|steps| - 1];
      CountsOnlyGrow(s, last, TWO_31 - 1);
      ExecuteOk(steps[..|steps| - 1]);
      StepKeepsOk(s, last);
    }
  }

  lemma {:induction false} InitialOk()
    ensures Ok(INITIAL)
  {
  }

  /** Whatever the body with this operand reports resolves to the method it belongs to. */
  ghost predicate Traced(s: State, pid: int, site: Site) {
    && |site.operand| == 4
    && forall signed {:trigger Received(site.operand, signed)} ::
         Resolve(s.sessions, pid, Received(site.operand, signed)) ==
           Some(MetadataOf(site.owner, Received(site.operand, signed)))
  }

  /** In every schedule with fewer than 2^31 registrations per process: each report, whenever it was
      made, resolves to the method whose body made it. */
  lemma {:induction false} ReportsResolve(steps: seq<Step>, i: nat)
    requires Execute(steps).Some? && AtMost(Execute(steps).value, TWO_31 - 1) && i < |Execute(steps).value.reports|
    ensures var s := Execute(steps).value; var r := s.reports[i];
            Resolve(s.sessions, r.pid, r.token) ==
            Some(Metadata(r.token, r.owner.assemblyName, r.owner.typeName, r.owner.signature))
  {
    hide ProcessOk;
    ExecuteOk(steps);
    assert ReportOk(Execute(steps).value, Execute(steps).value.reports[i]);
  }

  /** And each installed body is one whose reports will resolve. */
  lemma {:induction false} InstalledBodiesAreTraced(steps: seq<Step>, pid: int, site: Site)
    requires Execute(steps).Some? && AtMost(Execute(steps).value, TWO_31 - 1)
    requires pid in Execute(steps).value.processes && site in Execute(steps).value.processes[pid].installed
    ensures Traced(Execute(steps).value, pid, site)
  {
    hide ProcessOk, Received;
    ExecuteOk(steps);
    var s := Execute(steps).value;
    assert |s.processes[pid].issued| < TWO_31;
    SiteReports(s.processes[pid], s.sessions[pid], site, true);
    forall signed
      ensures Resolve(s.sessions, pid, Received(site.operand, signed)) ==
              Some(MetadataOf(site.owner, Received(site.operand, signed)))
    {
      SiteReports(s.processes[pid], s.sessions[pid], site, signed);
    }
  }

  /** Nothing stands between an announced token and its reports: once the method is injected and
      runs, in any schedule, it reports its own token. */
  lemma {:induction false} AnnouncedTokensReport(steps: seq<Step>, pid: int, thread: nat, signed: bool)
    requires Execute(steps).Some? && AtMost(Execute(steps).value, TWO_31 - 1)
    requires var s := Execute(steps).value;
             pid in s.processes && thread in s.processes[pid].threads && s.processes[pid].threads[thread].Announced?
    ensures var s := Execute(steps).value; var Announced(owner, token) := s.processes[pid].threads[thread];
            var after := Execute(steps + [Inject(pid, thread, true), Fire(pid, Site(owner, ToLE(token, 4)), signed)]);
            after.Some? && after.value.reports == s.reports + [Report(pid, owner, token)]
              && after.value.sessions == s.sessions
  {
    var s := Execute(steps).value;
    var phase := s.processes[pid].threads[thread];
    var site := Site(phase.owner, ToLE(phase.token, 4));
    var inject, fire := Inject(pid, thread, true), Fire(pid, site, signed);
    TokenInRange(steps, pid, thread);
    assert (steps + [inject])[..|steps|] == steps;
    assert Execute(steps + [inject]) == Some(Apply(s, inject));
    assert (steps + [inject, fire])[..|steps| + 1] == steps + [inject];
    TokenSurvives(phase.token);
  }

  lemma {:induction false} TokenInRange(steps: seq<Step>, pid: int, thread: nat)
    requires Execute(steps).Some? && AtMost(Execute(steps).value, TWO_31 - 1)
    requires pid in Execute(steps).value.processes && thread in Execute(steps).value.processes[pid].threads
    ensures Execute(steps).value.processes[pid].threads[thread].token < TWO_31
  {
    hide SessionOk, TokensCount;
    ExecuteOk(steps);
    var s := Execute(steps).value;
    assert |s.processes[pid].issued| < TWO_31;
    assert ThreadOk(s.processes[pid], s.sessions[pid], s.processes[pid].threads[thread]);
  }

  // ---------- the classes ----------

  /** The server's registry of one process (MetadataRegistry.cs). */
  class ServerRegistry {
    var methodMetadatas: map<nat, Metadata>

    constructor ()
      ensures methodMetadatas == map[]
    {
      methodMetadatas := map[];
    }

    method RegisterMethod(md: Metadata)
      modifies this
      ensures methodMetadatas == old(methodMetadatas)[md.token := md]
    {
      methodMetadatas := methodMetadatas[md.token := md];
    }

    method ResolveMethodToken(token: nat) returns (md: Option<Metadata>)
      ensures md == if token in methodMetadatas then Some(methodMetadatas[token]) else None
    {
      if token in methodMetadatas {
        return Some(methodMetadatas[token]);
      }
      return None;
    }
  }

  /** One session for each process that has called (SessionRegistry.cs). */
  class SessionRegistry {
    var sessions: map<int, ServerRegistry>

    /** Different processes have different sessions. */
    ghost predicate Valid()
      reads this
    {
      forall a, b {:trigger sessions[a], sessions[b]} | a in sessions && b in sessions && a != b ::
        sessions[a] != sessions[b]
    }

    ghost function Contents(): Sessions
      reads this, sessions.Values
    {
      map pid | pid in sessions :: sessions[pid].methodMetadatas
    }

    constructor ()
      ensures Valid() && Contents() == map[]
    {
      sessions := map[];
    }

    /** Gets the session of pid, adding one on the first call. */
    method Get(pid: int) returns (session: ServerRegistry)
      requires Valid()
      modifies this
      ensures Valid() && pid in sessions && sessions[pid] == session
      ensures forall other {:trigger sessions[other]} | other in old(sessions) ::
              other in sessions && sessions[other] == old(sessions[other])
      ensures fresh(sessions.Values - old(sessions.Values))
      ensures Contents() == Opened(old(Contents()), pid)
      ensures pid !in old(sessions) ==> fresh(session)
      ensures sessions.Keys == old(sessions.Keys) + {pid}
    {
      if pid !in sessions {
        var added := new ServerRegistry();
        sessions := sessions[pid := added];
      }
      session := sessions[pid];
    }

    /** A method announced by process pid. */
    method RegisterMethod(pid: int, md: Metadata)
      requires Valid()
      modifies this, sessions.Values
      ensures Valid() && Contents() == Delivered(old(Contents()), pid, md)
      ensures fresh(sessions.Values - old(sessions.Values))
    {
      hide Opened, Contents;
      DeliveredOpened(Contents(), pid, md);
      var session := Get(pid);
      ghost var before: Sessions := Contents();
      ContentsAre(before);
      session.RegisterMethod(md);
      assert forall other {:trigger sessions[other]} | other in sessions && other != pid :: sessions[other] != session;
      ContentsAre(Delivered(before, pid, md));
    }

    lemma {:induction false} ContentsAre(s: Sessions)
      ensures Contents() == s <==>
              && sessions.Keys == s.Keys
              && forall pid {:trigger sessions[pid]} | pid in sessions ::
                   pid in s && sessions[pid].methodMetadatas == s[pid]
    {
      if sessions.Keys == s.Keys && forall pid {:trigger sessions[pid]} | pid in sessions ::
        sessions[pid].methodMetadatas == s[pid] {
        assert Contents().Keys == s.Keys;
        assert forall pid {:trigger s[pid]} | pid in s :: Contents()[pid] == s[pid];
      }
    }

    /** The method a report of process pid is about. */
    method ResolveReport(pid: int, token: nat) returns (md: Option<Metadata>)
      requires Valid()
      modifies this
      ensures Valid() && md == Resolve(Contents(), pid, token) && Contents() == Opened(old(Contents()), pid)
    {
      var session := Get(pid);
      md := session.ResolveMethodToken(token);
    }
  }

  /** The registry in the profiled process (MetadataRegistry.cpp); its callback announces methods to
      a server under the process id. */
  class HostRegistry {
    const pid: int
    var tokenCounter: nat
    var methodMetadatas: seq<Metadata>
    var callback: SessionRegistry?

    constructor (pid: int)
      ensures this.pid == pid && tokenCounter == 0 && methodMetadatas == [] && callback == null
    {
      this.pid := pid;
      tokenCounter := 0;
      methodMetadatas := [];
      callback := null;
    }

    method SetMethodRegistrationCallback(server: SessionRegistry)
      modifies this
      ensures callback == server && tokenCounter == old(tokenCounter) && methodMetadatas == old(methodMetadatas)
    {
      callback := server;
    }

    method RegisterMethod(m: Method) returns (md: Metadata)
      requires callback != null ==> callback.Valid()
      modifies this, callback, if callback != null then callback.sessions.Values else {}
      ensures md == MetadataOf(m, NextToken(old(tokenCounter)))
      ensures md.token == (old(tokenCounter) + 1) % 0x1_0000_0000_0000_0000 && md.assemblyName == m.assemblyName
      ensures md.typeName == m.typeName && md.signature == m.signature
      ensures tokenCounter == md.token && methodMetadatas == old(methodMetadatas) + [md]
      ensures callback == old(callback)
      ensures callback != null ==>
                && callback.Valid() && callback.Contents() == Delivered(old(callback.Contents()), pid, md)
                && fresh(callback.sessions.Values - old(callback.sessions.Values))
    {
      tokenCounter := NextToken(tokenCounter);
      md := MetadataOf(m, tokenCounter);
      methodMetadatas := methodMetadatas + [md];
      if callback != null {
        callback.RegisterMethod(pid, md);
      }
    }
  }

  // ---------- instrumenting a module ----------

  /** The counter after n registrations. */
  function CounterAfter(counter: nat, n: nat): nat {
    if n == 0 then counter else NextToken(CounterAfter(counter, n - 1))
  }

  /** Registration n after counter gets the next token in turn, until the counter wraps. */
  lemma {:induction false} TokenOf(counter: nat, n: nat)
    ensures n > 0 ==> CounterAfter(counter, n) == Wrapped(counter + n)
  {
    hide Wrapped, NextToken;
    if n > 1 {
      TokenOf(counter, n - 1);
      WrappedNext(counter + n - 1);
    } else if n == 1 {
      FirstToken(counter);
    }
  }

  lemma {:induction false} FirstToken(counter: nat)
    ensures CounterAfter(counter, 1) == Wrapped(counter + 1)
  {
  }

  /** The server after methods have been announced in order. */
  function AllDelivered(s: Sessions, pid: int, methods: seq<Method>, counter: nat): Sessions {
    if |methods| == 0 then s
    else
      Delivered(AllDelivered(s, pid, methods[..|methods| - 1], counter), pid,
                MetadataOf(methods[|methods| - 1], CounterAfter(counter, |methods|)))
  }

  lemma {:induction false} OneMore(s: Sessions, pid: int, methods: seq<Method>, m: Method, counter: nat)
    ensures var token := CounterAfter(counter, |methods| + 1);
            && token == NextToken(CounterAfter(counter, |methods|))
            && AllDelivered(s, pid, methods + [m], counter) ==
               Delivered(AllDelivered(s, pid, methods, counter), pid, MetadataOf(m, token))
  {
    assert (methods + [m])[..|methods|] == methods;
  }

  /** Once a module is instrumented, the server resolves every token to the method that was
      registered under it, as long as the tokens do not wrap. */
  lemma {:induction false} IssuedTokensResolve(s: Sessions, pid: int, methods: seq<Method>, counter: nat, i: nat)
    requires i < |methods| && counter + |methods| < TWO_64
    ensures var token := CounterAfter(counter, i + 1);
            && token == counter + i + 1
            && Resolve(AllDelivered(s, pid, methods, counter), pid, token) ==
               Some(Metadata(token, methods[i].assemblyName, methods[i].typeName, methods[i].signature))
  {
    hide CounterAfter, Delivered, Resolve;
    var last := |methods| - 1;
    DeliveredResolves(AllDelivered(s, pid, methods[..last], counter), pid,
                      MetadataOf(methods[last], CounterAfter(counter, |methods|)), CounterAfter(counter, i + 1));
    TokenOf(counter, i + 1);
    TokenOf(counter, |methods|);
    if i < last {
      IssuedTokensResolve(s, pid, methods[..last], counter, i);
    }
  }

  lemma {:induction false} NoneYet(s: Sessions, pid: int, counter: nat)
    ensures AllDelivered(s, pid, [], counter) == s && CounterAfter(counter, 0) == counter
  {
  }
}
