// The hook, the shim and the server together: every message let through and every
// approved registration is paid for by an /attest call of its own, whose nonce was
// recognised and whose checks passed.

module EndToEnd {
  import opened Wrappers
  import opened Text
  import opened Merkle
  import opened CStrings
  import opened JsonReply
  import opened Reports
  import opened ServerSpec
  import N = Nonces
  import G = Hook
  import LC = LeafCache
  import R = Relay
  import SB = ServerBlocks

  // How far a connection to the shim has come.  `thread` is the server's handler of the
  // report posted for it; a reply is Used once the hook has read it.
  datatype Stage = Fresh | Shaken | Holding | Collected | Waiting(handler: nat)
                 | Answered(thread: Option<nat>) | Used(thread: Option<nat>) | Dropped

  // `before` is the cache its collection found, `visit` what the connection has met so far.
  datatype Connection = Connection(before: LC.Cache, visit: R.Visit, stage: Stage)

  // `paid` records, for each delivery in the gate's trace, the connection that approved it.
  datatype System = System(server: SB.State, cache: LC.Cache, conns: seq<Connection>, gate: G.Gate, paid: map<nat, nat>)

  datatype Step =
    | Server(step: SB.Step)                  // any block of any handler, for this or any other client
    | Connect
    | Shake(q: nat, handshake: R.Handshake)
    | Fetch(q: nat, challenge: R.Challenge)  // whatever GET /challenge brings back
    | Collect(q: nat, world: LC.World, escapes: bool)
    | Post(q: nat)
    | Reply(q: nat, token: string, reason: string)
    | Lose(q: nat, raises: bool)             // the answer, or the way there, fails
    | Session(user: Option<string>)
    | AddNotify(callback: Option<nat>, q: nat, k: nat, dlsymOk: bool)
    | Message(message: bytes, oom: bool, q: nat, k: nat)

  const EMPTY_CACHE := LC.Cache([], 0)

  const BLANK := R.Visit(R.NotJson, R.Refused, LC.World(None, None, None, None, None, ""), false, R.Unreachable)

  const START := System(SB.START, EMPTY_CACHE, [], G.START, map[])

  datatype Params = Params(h: Hash, o: Oracles, pol: Policy)

  predicate At(s: System, q: nat, stage: Stage) { q < |s.conns| && s.conns[q].stage == stage }

  predicate IsWaiting(s: System, q: nat) { q < |s.conns| && s.conns[q].stage.Waiting? }

  function Set(s: System, q: nat, c: Connection): System
    requires q < |s.conns|
  {
    s.(conns := s.conns[q := c])
  }

  function Outcome(p: Params, c: Connection): R.Outcome { R.OutcomeOf(p.h, c.before, c.visit) }

  // The connection ends.  An exception ends the daemon, and the next one starts with
  // an empty cache.
  function Finish(p: Params, s: System, q: nat, c: Connection, thread: Option<nat>): System
    requires q < |s.conns|
  {
    match Outcome(p, c)
    case Sent(_) => Set(s, q, c.(stage := Answered(thread)))
    case NoReply => Set(s, q, c.(stage := Dropped))
    case Ended => Set(s, q, c.(stage := Dropped)).(cache := EMPTY_CACHE)
  }

  function AfterShake(p: Params, s: System, q: nat, handshake: R.Handshake): System
    requires q < |s.conns|
  {
    var c := s.conns[q].(visit := s.conns[q].visit.(handshake := handshake));
    if R.Shaken(handshake) then Set(s, q, c.(stage := Shaken)) else Finish(p, s, q, c, None)
  }

  function AfterFetch(p: Params, s: System, q: nat, challenge: R.Challenge): System
    requires q < |s.conns|
  {
    var c := s.conns[q].(visit := s.conns[q].visit.(challenge := challenge));
    if R.UsableNonce(challenge) then Set(s, q, c.(stage := Holding)) else Finish(p, s, q, c, None)
  }

  function AfterCollect(p: Params, s: System, q: nat, world: LC.World, escapes: bool): System
    requires q < |s.conns|
  {
    var c := Connection(s.cache, s.conns[q].visit.(world := world, escapes := escapes), Collected);
    var s1 := s.(cache := R.CacheOf(p.h, s.cache, c.visit));
    if R.PostedBy(p.h, c.before, c.visit).Some? then Set(s1, q, c) else Finish(p, s1, q, c, None)
  }

  function ReportOf(p: Params, c: Connection): Option<Report> { R.PostedBy(p.h, c.before, c.visit) }

  // The report reaches the server, which begins to handle it.
  function AfterPost(p: Params, s: System, q: nat): System
    requires q < |s.conns|
  {
    match ReportOf(p, s.conns[q])
    case None => s
    case Some(r) =>
      Set(s, q, s.conns[q].(stage := Waiting(|s.server.threads|)))
        .(server := SB.Next(p.o, p.pol, s.server, SB.BeginAttest(r)))
  }

  function WithVerdict(c: Connection, verdict: R.Verdict): Connection { c.(visit := c.visit.(verdict := verdict)) }

  // The handler's answer, once there is one.
  function AfterReply(p: Params, s: System, q: nat, token: string, reason: string): System
    requires IsWaiting(s, q)
  {
    var th := s.conns[q].stage.handler;
    if th < |s.server.threads| && s.server.threads[th].phase.Done? then
      var verdict := if HandlerSaysYes(s.server.threads, s.conns[q]) then R.Valid(token) else R.Invalid(reason);
      Finish(p, s, q, WithVerdict(s.conns[q], verdict), Some(th))
    else s
  }

  predicate HandlerSaysYes(threads: seq<SB.Thread>, c: Connection)
  {
    && c.stage.Waiting? && c.stage.handler < |threads|
    && threads[c.stage.handler].phase.Done? && threads[c.stage.handler].phase.ok
  }

  function AfterLoss(p: Params, s: System, q: nat, raises: bool): System
    requires q < |s.conns|
  {
    var thread := if s.conns[q].stage.Waiting? then Some(s.conns[q].stage.handler) else None;
    Finish(p, s, q, WithVerdict(s.conns[q], if raises then R.PostRaises else R.Unreachable), thread)
  }

  // ---- the hook's side ---------------------------------------------------------------------

  predicate Readable(p: Params, s: System, q: nat, k: nat)
  {
    && q < |s.conns| && s.conns[q].stage.Answered?
    && 0 < k <= |R.Text(Outcome(p, s.conns[q]))| && k <= G.SHIM_BUF_SIZE - 1
  }

  // The hook's single read() gets k characters of the reply, or nothing in time.
  function ExchangeOf(p: Params, s: System, q: nat, k: nat): (x: G.Exchange)
    ensures G.ReadFits(x)
  {
    if Readable(p, s, q, k) then G.Received(R.Text(Outcome(p, s.conns[q]))[..k]) else G.NoReply
  }

  predicate Delivery(e: G.Event) { e.Registered? || e.Forwarded? }

  // A hook call uses up the connection it read; a delivery is charged to it.
  ghost function AfterHook(p: Params, s: System, call: G.Call, q: nat, k: nat): System
  {
    var gate := G.Next(s.gate, call);
    var t := |gate.trace| - 1;
    if !Readable(p, s, q, k) then s.(gate := gate)
    else s.(gate := gate, conns := s.conns[q := s.conns[q].(stage := Used(s.conns[q].stage.thread))],
            paid := if t > |s.gate.trace| && Delivery(gate.trace[t]) then s.paid[t := q] else s.paid)
  }

  ghost function Next(p: Params, s: System, step: Step): System
  {
    match step
    case Server(b) => s.(server := SB.Next(p.o, p.pol, s.server, b))
    case Connect => s.(conns := s.conns + [Connection(EMPTY_CACHE, BLANK, Fresh)])
    case Shake(q, handshake) => if At(s, q, Fresh) then AfterShake(p, s, q, handshake) else s
    case Fetch(q, challenge) => if At(s, q, Shaken) then AfterFetch(p, s, q, challenge) else s
    case Collect(q, world, escapes) => if At(s, q, Holding) then AfterCollect(p, s, q, world, escapes) else s
    case Post(q) => if At(s, q, Collected) then AfterPost(p, s, q) else s
    case Reply(q, token, reason) => if IsWaiting(s, q) then AfterReply(p, s, q, token, reason) else s
    case Lose(q, raises) => if At(s, q, Collected) || IsWaiting(s, q) then AfterLoss(p, s, q, raises) else s
    case Session(user) => s.(gate := G.Next(s.gate, G.BeginSession(user)))
    case AddNotify(callback, q, k, dlsymOk) =>
      AfterHook(p, s, G.AddNotify(callback, ExchangeOf(p, s, q, k), dlsymOk), q, k)
    case Message(message, oom, q, k) => AfterHook(p, s, G.Message(message, oom, ExchangeOf(p, s, q, k)), q, k)
  }

  ghost function After(p: Params, s: System, steps: seq<Step>): System
  {
    if steps == [] then s else Next(p, After(p, s, steps[..|steps| - 1]), steps[|steps| - 1])
  }

  // ---- the invariant ---------------------------------------------------------------------

  function ThreadOf(c: Connection): Option<nat>
  {
    match c.stage
    case Waiting(th) => Some(th)
    case Answered(thread) => thread
    case Used(thread) => thread
    case _ => None
  }

  // The server is handling, or has handled, just this connection's report.
  predicate HandledBy(p: Params, threads: seq<SB.Thread>, c: Connection, th: nat)
  {
    && th < |threads| && threads[th].kind.Attesting?
    && ReportOf(p, c) == Some(threads[th].report)
  }

  // A yes in the reply is the yes of that handler.
  predicate ConnectionOk(p: Params, threads: seq<SB.Thread>, c: Connection)
  {
    && (ThreadOf(c).Some? ==> HandledBy(p, threads, c, ThreadOf(c).value))
    && (c.visit.verdict.Valid? ==> c.stage.Dropped? || (ThreadOf(c).Some? && !c.stage.Waiting?))
    && (c.visit.verdict.Valid? && ThreadOf(c).Some? && ThreadOf(c).value < |threads| ==>
          threads[ThreadOf(c).value].phase.Done? && threads[ThreadOf(c).value].phase.ok)
  }

  predicate SameThread(c: Connection, d: Connection) { ThreadOf(c).Some? && ThreadOf(c) == ThreadOf(d) }

  predicate ConnectionsOk(p: Params, s: System)
  {
    && (forall q | 0 <= q < |s.conns| :: ConnectionOk(p, s.server.threads, s.conns[q]))
    && (forall i, j | 0 <= i < j < |s.conns| :: !SameThread(s.conns[i], s.conns[j]))
  }

  // A delivery's connection has been read, and its reply was a yes.
  predicate Paying(s: System, q: nat)
  {
    q < |s.conns| && s.conns[q].stage.Used? && s.conns[q].stage.thread.Some? && s.conns[q].visit.verdict.Valid?
  }

  predicate PaidOk(s: System)
  {
    && (forall t | t in s.paid :: t < |s.gate.trace| && Paying(s, s.paid[t]))
    && (forall t, u | t in s.paid && u in s.paid && t != u :: s.paid[t] != s.paid[u])
  }

  predicate DeliveriesPaid(s: System)
  {
    forall t | 0 <= t < |s.gate.trace| && Delivery(s.gate.trace[t]) :: t in s.paid
  }

  predicate Invariant(p: Params, s: System)
  {
    SB.Good(p.o, p.pol, s.server) && ConnectionsOk(p, s) && PaidOk(s) && DeliveriesPaid(s)
  }

  // ---- it is kept ----------------------------------------------------------------------------

  // Handlers are only added, keep what they handle, and never take back a verdict.
  predicate Grown(a: seq<SB.Thread>, b: seq<SB.Thread>)
  {
    && |a| <= |b|
    && forall i | 0 <= i < |a| :: b[i].kind == a[i].kind && b[i].report == a[i].report
                                  && (a[i].phase.Done? ==> b[i].phase == a[i].phase)
  }

  lemma ServerGrows(o: Oracles, pol: Policy, s: SB.State, step: SB.Step)
    ensures Grown(s.threads, SB.Next(o, pol, s, step).threads)
  {
    hide ChecksAt, N.AnswerTo, N.Next, Pinned, Restored, Deactivated, ActiveRow, SB.ClosedRows;
  }

  lemma OkStays(p: Params, a: seq<SB.Thread>, b: seq<SB.Thread>, c: Connection)
    requires Grown(a, b) && ConnectionOk(p, a, c)
    ensures ConnectionOk(p, b, c)
  {
    hide ReportOf;
  }

  lemma ServerKeeps(p: Params, s: System, step: SB.Step)
    requires Invariant(p, s)
    ensures Invariant(p, s.(server := SB.Next(p.o, p.pol, s.server, step)))
  {
    hide SB.Good, SB.Next, ConnectionOk, Grown;
    SB.NextKeepsGood(p.o, p.pol, s.server, step);
    ServerGrows(p.o, p.pol, s.server, step);
    forall q | 0 <= q < |s.conns| ensures ConnectionOk(p, SB.Next(p.o, p.pol, s.server, step).threads, s.conns[q]) {
      OkStays(p, s.server.threads, SB.Next(p.o, p.pol, s.server, step).threads, s.conns[q]);
    }
  }

  // Connection q moves on before it is read; its handler, if any, is its own.
  lemma ConnectionSet(p: Params, s: System, q: nat, c: Connection)
    requires Invariant(p, s) && q < |s.conns| && ConnectionOk(p, s.server.threads, c) && !s.conns[q].stage.Used?
    requires forall i | 0 <= i < |s.conns| && i != q :: !SameThread(c, s.conns[i])
    ensures Invariant(p, Set(s, q, c))
  {
    hide SB.Good, ConnectionOk;
  }

  lemma CacheIsFree(p: Params, s: System, cache: LC.Cache)
    requires Invariant(p, s)
    ensures Invariant(p, s.(cache := cache))
  {
    hide SB.Good, ConnectionOk;
  }

  lemma FinishKeeps(p: Params, s: System, q: nat, c: Connection, thread: Option<nat>)
    requires Invariant(p, s) && q < |s.conns| && !s.conns[q].stage.Used?
    requires ConnectionOk(p, s.server.threads, c.(stage := Answered(thread)))
    requires thread.Some? ==> ThreadOf(s.conns[q]) == thread
    ensures Invariant(p, Finish(p, s, q, c, thread))
  {
    hide Invariant, Outcome, ConnectionOk;
    OthersDiffer(p, s, q);
    DroppedOk(p, s.server.threads, c);
    var dropped := c.(stage := Dropped);
    assert ThreadOf(dropped) == None;
    ConnectionSet(p, s, q, dropped);
    CacheIsFree(p, Set(s, q, dropped), EMPTY_CACHE);
    var answered := c.(stage := Answered(thread));
    assert ThreadOf(answered) == thread;
    ConnectionSet(p, s, q, answered);
  }

  lemma DroppedOk(p: Params, threads: seq<SB.Thread>, c: Connection)
    ensures ConnectionOk(p, threads, c.(stage := Dropped))
  {
    hide ReportOf;
  }

  lemma OthersDiffer(p: Params, s: System, q: nat)
    requires Invariant(p, s) && q < |s.conns|
    ensures forall i | 0 <= i < |s.conns| && i != q :: !SameThread(s.conns[q], s.conns[i])
    ensures ConnectionOk(p, s.server.threads, s.conns[q])
  {
    hide SB.Good, ConnectionOk;
  }

  // Without a handler there is nothing to show.
  lemma QuietOk(p: Params, threads: seq<SB.Thread>, c: Connection)
    requires ThreadOf(c).None? && !c.visit.verdict.Valid?
    ensures ConnectionOk(p, threads, c)
  {
    hide ReportOf;
  }

  lemma NoVerdictYet(p: Params, threads: seq<SB.Thread>, c: Connection)
    requires ConnectionOk(p, threads, c) && ThreadOf(c).None? && !c.stage.Dropped?
    ensures !c.visit.verdict.Valid?
  {
    hide ReportOf;
  }

  // Connection q goes on to a stage without a handler, or ends.
  lemma QuietKeeps(p: Params, s: System, q: nat, c: Connection, stage: Stage)
    requires Invariant(p, s) && q < |s.conns|
    requires ThreadOf(s.conns[q]).None? && !s.conns[q].stage.Dropped? && !s.conns[q].stage.Used?
    requires ThreadOf(c.(stage := stage)).None? && c.visit.verdict == s.conns[q].visit.verdict
    ensures Invariant(p, Set(s, q, c.(stage := stage))) && Invariant(p, Finish(p, s, q, c, None))
  {
    hide Invariant, ConnectionOk, Finish;
    OthersDiffer(p, s, q);
    NoVerdictYet(p, s.server.threads, s.conns[q]);
    QuietOk(p, s.server.threads, c.(stage := stage));
    ConnectionSet(p, s, q, c.(stage := stage));
    QuietOk(p, s.server.threads, c.(stage := Answered(None)));
    FinishKeeps(p, s, q, c, None);
  }

  lemma CollectKeeps(p: Params, s: System, q: nat, world: LC.World, escapes: bool)
    requires Invariant(p, s) && At(s, q, Holding)
    ensures Invariant(p, AfterCollect(p, s, q, world, escapes))
  {
    hide Invariant, Finish, R.PostedBy, R.CacheOf;
    var c := Connection(s.cache, s.conns[q].visit.(world := world, escapes := escapes), Collected);
    var s1 := s.(cache := R.CacheOf(p.h, s.cache, c.visit));
    CacheIsFree(p, s, s1.cache);
    QuietKeeps(p, s1, q, c, Collected);
    assert c.(stage := Collected) == c;
  }

  // The report depends neither on the stage nor on the verdict.
  lemma SameReport(p: Params, c: Connection, d: Connection)
    requires d.before == c.before && d.visit == c.visit.(verdict := d.visit.verdict)
    ensures ReportOf(p, d) == ReportOf(p, c)
  {}

  lemma AnsweredOk(p: Params, threads: seq<SB.Thread>, c: Connection, verdict: R.Verdict)
    requires ConnectionOk(p, threads, c) && (c.stage.Collected? || c.stage.Waiting?)
    requires verdict.Valid? ==> HandlerSaysYes(threads, c)
    ensures ConnectionOk(p, threads, WithVerdict(c, verdict).(stage := Answered(ThreadOf(c))))
  {
    hide ReportOf;
    SameReport(p, c, WithVerdict(c, verdict).(stage := Answered(ThreadOf(c))));
  }

  lemma VerdictKeeps(p: Params, s: System, q: nat, verdict: R.Verdict)
    requires Invariant(p, s) && q < |s.conns| && (s.conns[q].stage.Collected? || s.conns[q].stage.Waiting?)
    requires verdict.Valid? ==> HandlerSaysYes(s.server.threads, s.conns[q])
    ensures Invariant(p, Finish(p, s, q, WithVerdict(s.conns[q], verdict), ThreadOf(s.conns[q])))
  {
    hide Invariant, ConnectionOk, Finish;
    OthersDiffer(p, s, q);
    AnsweredOk(p, s.server.threads, s.conns[q], verdict);
    FinishKeeps(p, s, q, WithVerdict(s.conns[q], verdict), ThreadOf(s.conns[q]));
  }

  lemma ShimKeeps(p: Params, s: System, step: Step)
    requires Invariant(p, s)
    requires step.Shake? || step.Fetch? || step.Collect? || step.Post? || step.Reply? || step.Lose?
    ensures Invariant(p, Next(p, s, step))
  {
    hide Invariant, Finish, AfterPost, AfterCollect;
    match step
    case Shake(q, handshake) =>
      if At(s, q, Fresh) {
        QuietKeeps(p, s, q, s.conns[q].(visit := s.conns[q].visit.(handshake := handshake)), Shaken);
      }
    case Fetch(q, challenge) =>
      if At(s, q, Shaken) {
        QuietKeeps(p, s, q, s.conns[q].(visit := s.conns[q].visit.(challenge := challenge)), Holding);
      }
    case Collect(q, world, escapes) =>
      if At(s, q, Holding) {
        CollectKeeps(p, s, q, world, escapes);
      }
    case Post(q) =>
      if At(s, q, Collected) {
        PostKeeps(p, s, q);
      }
    case Reply(q, token, reason) =>
      if IsWaiting(s, q) {
        var yes := HandlerSaysYes(s.server.threads, s.conns[q]);
        VerdictKeeps(p, s, q, if yes then R.Valid(token) else R.Invalid(reason));
      }
    case Lose(q, raises) =>
      if At(s, q, Collected) || IsWaiting(s, q) {
        VerdictKeeps(p, s, q, if raises then R.PostRaises else R.Unreachable);
      }
  }

  lemma PostKeeps(p: Params, s: System, q: nat)
    requires Invariant(p, s) && At(s, q, Collected)
    ensures Invariant(p, AfterPost(p, s, q))
  {
    hide SB.Good, SB.Next, R.PostedBy, Grown;
    if ReportOf(p, s.conns[q]).Some? {
      var b := SB.BeginAttest(ReportOf(p, s.conns[q]).value);
      NewHandler(p.o, p.pol, s.server, ReportOf(p, s.conns[q]).value);
      ServerKeeps(p, s, b);
      var s1 := s.(server := SB.Next(p.o, p.pol, s.server, b));
      OldHandlers(p, s);
      OthersDiffer(p, s, q);
      hide Invariant;
      ConnectionSet(p, s1, q, s.conns[q].(stage := Waiting(|s.server.threads|)));
    }
  }

  lemma NewHandler(o: Oracles, pol: Policy, s: SB.State, r: Report)
    ensures SB.Next(o, pol, s, SB.BeginAttest(r)).threads == s.threads + [SB.Thread(SB.Attesting, r, SB.Begun)]
  {}

  lemma OldHandlers(p: Params, s: System)
    requires Invariant(p, s)
    ensures forall i | 0 <= i < |s.conns| && ThreadOf(s.conns[i]).Some? ::
      ThreadOf(s.conns[i]).value < |s.server.threads|
  {
    forall i | 0 <= i < |s.conns| && ThreadOf(s.conns[i]).Some?
      ensures ThreadOf(s.conns[i]).value < |s.server.threads|
    {
      assert ConnectionOk(p, s.server.threads, s.conns[i]);
    }
  }

  // The hook approves only a reply that passes on the yes of a handler.
  lemma ApprovalIsPaid(p: Params, s: System, q: nat, k: nat)
    requires Invariant(p, s) && G.Approves(ExchangeOf(p, s, q, k))
    ensures Readable(p, s, q, k) && s.conns[q].visit.verdict.Valid? && s.conns[q].stage.thread.Some?
  {
    hide SaysTrue, NulIndex, R.OutcomeOf, Invariant, R.Text;
    TextHasNoNul(Outcome(p, s.conns[q]), k);
    R.ApprovalNeedsVerdict(p.h, s.conns[q].before, s.conns[q].visit, k);
    OthersDiffer(p, s, q);
  }

  lemma TextHasNoNul(outcome: R.Outcome, k: nat)
    requires k <= |R.Text(outcome)|
    ensures CString(R.Text(outcome)[..k] + ['\0']) == R.Text(outcome)[..k]
  {
    hide Print, NulIndex;
    match outcome
    case Sent(reply) =>
      ReplyHasNoNul(reply, k, []);
      assert Print(reply)[..k] + ['\0'] + [] == Print(reply)[..k] + ['\0'];
    case _ => NulAfter("", []);
  }

  lemma HookKeeps(p: Params, s: System, call: G.Call, q: nat, k: nat)
    requires Invariant(p, s) && !call.BeginSession? && call.x == ExchangeOf(p, s, q, k)
    ensures Invariant(p, AfterHook(p, s, call, q, k))
  {
    var gate := G.Next(s.gate, call);
    var t := |gate.trace| - 1;
    HookAppends(s.gate, call);
    hide Invariant, G.Next, G.Approves, ExchangeOf, Readable;
    if t == |s.gate.trace| + 1 && Delivery(gate.trace[t]) {
      ApprovalIsPaid(p, s, q, k);
      ReadableIsAnswered(p, s, q, k);
      ChargeKeeps(p, s, gate, q);
    } else {
      GateGrew(p, s, gate);
      if Readable(p, s, q, k) {
        ReadableIsAnswered(p, s, q, k);
        ReadKeeps(p, s.(gate := gate), q);
      }
    }
  }

  lemma ReadableIsAnswered(p: Params, s: System, q: nat, k: nat)
    requires Readable(p, s, q, k)
    ensures q < |s.conns| && s.conns[q].stage.Answered?
  {
    hide R.Text;
  }

  // What one hook call can append to the trace.
  lemma HookAppends(g: G.Gate, call: G.Call)
    ensures var more := G.Next(g, call).trace;
      && g.trace <= more && |more| <= |g.trace| + 2
      && (forall t | |g.trace| <= t < |more| && Delivery(more[t]) ::
            t == |g.trace| + 1 && t == |more| - 1 && !call.BeginSession? && G.Approves(call.x))
  {
    hide G.Approves, G.Request;
  }

  lemma GateGrew(p: Params, s: System, gate: G.Gate)
    requires Invariant(p, s) && s.gate.trace <= gate.trace
    requires forall t | |s.gate.trace| <= t < |gate.trace| :: !Delivery(gate.trace[t])
    ensures Invariant(p, s.(gate := gate))
  {
    hide SB.Good, ConnectionOk;
  }

  function Read(c: Connection): Connection
    requires c.stage.Answered?
  {
    c.(stage := Used(c.stage.thread))
  }

  lemma ReadOk(p: Params, threads: seq<SB.Thread>, c: Connection)
    requires c.stage.Answered? && ConnectionOk(p, threads, c)
    ensures ConnectionOk(p, threads, Read(c)) && ThreadOf(Read(c)) == ThreadOf(c)
  {
    hide ReportOf;
    SameReport(p, c, Read(c));
  }

  lemma ReadKeeps(p: Params, s: System, q: nat)
    requires Invariant(p, s) && q < |s.conns| && s.conns[q].stage.Answered?
    ensures Invariant(p, Set(s, q, Read(s.conns[q])))
  {
    OthersDiffer(p, s, q);
    hide Invariant, ConnectionOk;
    ReadOk(p, s.server.threads, s.conns[q]);
    ConnectionSet(p, s, q, Read(s.conns[q]));
  }

  lemma ChargeKeeps(p: Params, s: System, gate: G.Gate, q: nat)
    requires Invariant(p, s) && q < |s.conns| && s.conns[q].stage.Answered?
    requires s.conns[q].stage.thread.Some? && s.conns[q].visit.verdict.Valid?
    requires s.gate.trace <= gate.trace && |gate.trace| == |s.gate.trace| + 2
    requires !Delivery(gate.trace[|s.gate.trace|])
    ensures Invariant(p, Set(s, q, Read(s.conns[q])).(gate := gate, paid := s.paid[|s.gate.trace| + 1 := q]))
  {
    hide Invariant;
    NotYetCharged(p, s, q);
    ReadKeeps(p, s, q);
    ChargeTo(p, Set(s, q, Read(s.conns[q])), gate, q);
  }

  lemma NotYetCharged(p: Params, s: System, q: nat)
    requires Invariant(p, s) && q < |s.conns| && s.conns[q].stage.Answered?
    ensures forall t | t in s.paid :: s.paid[t] != q
  {
    hide SB.Good, ConnectionsOk;
  }

  lemma ChargeTo(p: Params, s: System, gate: G.Gate, q: nat)
    requires Invariant(p, s) && Paying(s, q) && forall t | t in s.paid :: s.paid[t] != q
    requires s.gate.trace <= gate.trace && |gate.trace| == |s.gate.trace| + 2
    requires !Delivery(gate.trace[|s.gate.trace|])
    ensures Invariant(p, s.(gate := gate, paid := s.paid[|s.gate.trace| + 1 := q]))
  {
    hide SB.Good, ConnectionOk;
  }

  lemma NextKeepsInvariant(p: Params, s: System, step: Step)
    requires Invariant(p, s)
    ensures Invariant(p, Next(p, s, step))
  {
    hide Invariant, AfterHook, ExchangeOf, G.Next, SB.Next;
    match step
    case Server(b) => ServerKeeps(p, s, b);
    case Connect => ConnectKeeps(p, s);
    case Session(user) =>
      HookAppends(s.gate, G.BeginSession(user));
      GateGrew(p, s, G.Next(s.gate, G.BeginSession(user)));
    case AddNotify(callback, q, k, dlsymOk) =>
      HookKeeps(p, s, G.AddNotify(callback, ExchangeOf(p, s, q, k), dlsymOk), q, k);
    case Message(message, oom, q, k) => HookKeeps(p, s, G.Message(message, oom, ExchangeOf(p, s, q, k)), q, k);
    case _ => ShimKeeps(p, s, step);
  }

  lemma ConnectKeeps(p: Params, s: System)
    requires Invariant(p, s)
    ensures Invariant(p, s.(conns := s.conns + [Connection(EMPTY_CACHE, BLANK, Fresh)]))
  {
    hide SB.Good, ConnectionOk;
    QuietOk(p, s.server.threads, Connection(EMPTY_CACHE, BLANK, Fresh));
  }

  lemma {:induction false} RunKeepsInvariant(p: Params, steps: seq<Step>)
    ensures Invariant(p, After(p, START, steps))
  {
    if steps == [] {
      SB.StartIsGood(p.o, p.pol);
      hide SB.Good;
      assert START.conns == [] && START.gate.trace == [];
    } else {
      hide Invariant, Next;
      RunKeepsInvariant(p, steps[..|steps| - 1]);
      NextKeepsInvariant(p, After(p, START, steps[..|steps| - 1]), steps[|steps| - 1]);
    }
  }

  // The delivery at t of the gate's trace was approved by connection q's reply, which
  // passed on the yes of the handler of the report that connection had collected.
  predicate PaidBy(p: Params, s: System, t: nat, q: nat, th: nat)
  {
    && t in s.paid && s.paid[t] == q
    && q < |s.conns| && s.conns[q].stage == Used(Some(th))
    && HandledBy(p, s.server.threads, s.conns[q], th) && SB.Succeeded(p.o, p.pol, s.server, th)
  }

  function Handler(s: System, t: nat): nat
  {
    if t in s.paid && s.paid[t] < |s.conns| && ThreadOf(s.conns[s.paid[t]]).Some?
    then ThreadOf(s.conns[s.paid[t]]).value else 0
  }

  lemma DeliveryIsPaid(p: Params, s: System, t: nat)
    requires Invariant(p, s) && t < |s.gate.trace| && Delivery(s.gate.trace[t])
    ensures t in s.paid && PaidBy(p, s, t, s.paid[t], Handler(s, t))
    ensures s.server.threads[Handler(s, t)].phase.Done? && s.server.threads[Handler(s, t)].phase.ok
  {
    assert Paying(s, s.paid[t]);
    assert ConnectionOk(p, s.server.threads, s.conns[s.paid[t]]);
    hide SB.Good, SB.Succeeded, ReportOf;
    SB.SuccessesHaveOwnIssues(p.o, p.pol, s.server, Handler(s, t), Handler(s, t));
  }

  // Main result.  In every run, with any other clients, lost replies, crashes and replies
  // cut anywhere: deliveries (registrations handed to the runtime and messages forwarded)
  // map one to one to /attest handlers of reports the shim collected, each with a
  // recognised nonce and passed checks, and those to issues of that nonce at most 120
  // seconds before, not used in between.
  lemma DeliveriesArePaidFor(p: Params, steps: seq<Step>, t: nat, u: nat)
    requires t < |After(p, START, steps).gate.trace| && Delivery(After(p, START, steps).gate.trace[t])
    requires u < |After(p, START, steps).gate.trace| && Delivery(After(p, START, steps).gate.trace[u])
    ensures var s := After(p, START, steps);
      && t in s.paid && PaidBy(p, s, t, s.paid[t], Handler(s, t))
      && u in s.paid && PaidBy(p, s, u, s.paid[u], Handler(s, u))
      && var i, j := s.server.threads[Handler(s, t)].phase.at, s.server.threads[Handler(s, u)].phase.at;
      && N.Backs(s.server.blocks, N.Source(s.server.blocks, i), i)
      && N.Backs(s.server.blocks, N.Source(s.server.blocks, j), j)
      && (t != u ==> Handler(s, t) != Handler(s, u) && i != j
                     && N.Source(s.server.blocks, i) != N.Source(s.server.blocks, j))
  {
    RunKeepsInvariant(p, steps);
    var s := After(p, START, steps);
    hide After, SB.Good, SB.Succeeded, N.Accepted, N.Backs;
    DeliveryIsPaid(p, s, t);
    DeliveryIsPaid(p, s, u);
    if t != u {
      HandlersDiffer(p, s, t, u);
    }
    SB.SuccessesHaveOwnIssues(p.o, p.pol, s.server, Handler(s, t), Handler(s, u));
  }

  lemma HandlersDiffer(p: Params, s: System, t: nat, u: nat)
    requires Invariant(p, s) && t in s.paid && u in s.paid && t != u
    ensures Handler(s, t) != Handler(s, u)
  {
    var q, r := s.paid[t], s.paid[u];
    hide SB.Good, ConnectionOk;
    assert Paying(s, q) && Paying(s, r) && q != r;
    assert !SameThread(s.conns[q], s.conns[r]) && !SameThread(s.conns[r], s.conns[q]);
  }

  // ---- the steps of one connection are HandleClient --------------------------------------------

  // Connect, handshake, challenge, collection and post, one after the other.
  ghost function Opened(p: Params, s: System, v: R.Visit): System
  {
    var q := |s.conns|;
    var s1 := Next(p, Next(p, s, Connect), Shake(q, v.handshake));
    Next(p, Next(p, Next(p, s1, Fetch(q, v.challenge)), Collect(q, v.world, v.escapes)), Post(q))
  }

  // Connection q and the cache are as HandleClient leaves them.
  predicate EndsAs(p: Params, s: System, q: nat, before: LC.Cache, v: R.Visit)
  {
    && q < |s.conns|
    && match R.OutcomeOf(p.h, before, v)
       case Sent(reply) =>
         && s.conns[q].stage.Answered? && Outcome(p, s.conns[q]) == R.Sent(reply)
         && s.cache == R.CacheOf(p.h, before, v)
       case NoReply => s.conns[q].stage.Dropped? && s.cache == R.CacheOf(p.h, before, v)
       case Ended => s.conns[q].stage.Dropped? && s.cache == EMPTY_CACHE
  }

  lemma ShakenSteps(p: Params, s: System, v: R.Visit)
    requires v.verdict == R.Unreachable
    ensures var q := |s.conns|;
      var s2 := Next(p, Next(p, s, Connect), Shake(q, v.handshake));
      if R.Shaken(v.handshake)
      then s2 == s.(conns := s.conns + [Connection(EMPTY_CACHE, BLANK.(handshake := v.handshake), Shaken)])
      else EndsAs(p, s2, q, s.cache, v) && |s2.conns| == q + 1
  {
    hide R.PostedBy, SB.Next, G.Next;
  }

  lemma FetchedSteps(p: Params, s: System, q: nat, v: R.Visit)
    requires R.Shaken(v.handshake) && v.verdict == R.Unreachable
    requires q < |s.conns| && s.conns[q] == Connection(EMPTY_CACHE, BLANK.(handshake := v.handshake), Shaken)
    ensures var s' := Next(p, s, Fetch(q, v.challenge));
      if R.UsableNonce(v.challenge)
      then s' == Set(s, q, Connection(EMPTY_CACHE, BLANK.(handshake := v.handshake, challenge := v.challenge), Holding))
      else EndsAs(p, s', q, s.cache, v)
  {
    hide R.PostedBy, SB.Next, G.Next;
  }

  lemma CollectedSteps(p: Params, s: System, q: nat, v: R.Visit)
    requires R.Collects(v) && v.verdict == R.Unreachable && q < |s.conns|
    requires s.conns[q] == Connection(EMPTY_CACHE, BLANK.(handshake := v.handshake, challenge := v.challenge), Holding)
    ensures var s' := Next(p, s, Collect(q, v.world, v.escapes));
      if R.PostedBy(p.h, s.cache, v).Some?
      then s' == Set(s, q, Connection(s.cache, v, Collected)).(cache := R.CacheOf(p.h, s.cache, v))
      else EndsAs(p, s', q, s.cache, v)
  {
    hide R.PostedBy, R.CacheOf, SB.Next, G.Next;
  }

  lemma PostedSteps(p: Params, s: System, q: nat, before: LC.Cache, v: R.Visit)
    requires R.PostedBy(p.h, before, v).Some? && q < |s.conns| && s.conns[q] == Connection(before, v, Collected)
    ensures var s' := Next(p, s, Post(q));
      && s' == Set(s, q, Connection(before, v, Waiting(|s.server.threads|))).(server := s'.server)
      && s'.server == SB.Next(p.o, p.pol, s.server, SB.BeginAttest(R.PostedBy(p.h, before, v).value))
  {
    hide R.PostedBy, SB.Next, G.Next;
  }

  // A connection that has ended is left alone.
  lemma EndedStays(p: Params, s: System, q: nat, before: LC.Cache, v: R.Visit, step: Step)
    requires EndsAs(p, s, q, before, v)
    requires step.Fetch? || step.Collect? || step.Post? || step.Reply? || step.Lose?
    requires step.q == q
    ensures Next(p, s, step) == s
  {
    hide R.OutcomeOf;
  }

  lemma OpenedIs(p: Params, s: System, v: R.Visit)
    requires v.verdict == R.Unreachable
    ensures var s', q := Opened(p, s, v), |s.conns|;
      match R.PostedBy(p.h, s.cache, v)
      case Some(r) =>
        && q < |s'.conns| && s'.conns[q] == Connection(s.cache, v, Waiting(|s.server.threads|))
        && s'.cache == R.CacheOf(p.h, s.cache, v)
        && s'.server == SB.Next(p.o, p.pol, s.server, SB.BeginAttest(r))
      case None => EndsAs(p, s', q, s.cache, v)
  {
    hide Next, EndsAs, R.CacheOf, R.UsableNonce, R.Shaken, SB.Next;
    var q := |s.conns|;
    var s2 := Next(p, Next(p, s, Connect), Shake(q, v.handshake));
    var s3 := Next(p, s2, Fetch(q, v.challenge));
    var s4 := Next(p, s3, Collect(q, v.world, v.escapes));
    ShakenSteps(p, s, v);
    if !R.Shaken(v.handshake) {
      EndedStays(p, s2, q, s.cache, v, Fetch(q, v.challenge));
      EndedStays(p, s2, q, s.cache, v, Collect(q, v.world, v.escapes));
      EndedStays(p, s2, q, s.cache, v, Post(q));
    } else {
      FetchedSteps(p, s2, q, v);
      if !R.UsableNonce(v.challenge) {
        EndedStays(p, s3, q, s.cache, v, Collect(q, v.world, v.escapes));
        EndedStays(p, s3, q, s.cache, v, Post(q));
      } else {
        CollectedSteps(p, s3, q, v);
        if R.PostedBy(p.h, s.cache, v).Some? {
          PostedSteps(p, s4, q, s.cache, v);
        } else {
          EndedStays(p, s4, q, s.cache, v, Post(q));
        }
      }
    }
  }

  // What the server's handler, or the way to it, makes of the post.
  function VerdictOf(threads: seq<SB.Thread>, th: nat, last: Step): R.Verdict
  {
    match last
    case Lose(_, raises) => if raises then R.PostRaises else R.Unreachable
    case Reply(_, token, reason) =>
      if th < |threads| && threads[th].phase.Done? && threads[th].phase.ok then R.Valid(token) else R.Invalid(reason)
    case _ => R.Unreachable
  }

  // Main result.  Whatever a connection meets and whatever the server does meanwhile, its
  // steps leave the reply and the cache that Relay.HandleClient is proved to compute, with
  // the verdict of the handler of its own report.
  lemma ConnectionIsHandleClient(p: Params, s: System, v: R.Visit, server: SB.State, last: Step)
    requires (last.Lose? || last.Reply?) && last.q == |s.conns|
    requires var th := |s.server.threads|;
      && v.verdict == VerdictOf(server.threads, th, last)
      && (last.Reply? ==> th < |server.threads| && server.threads[th].phase.Done?)
    ensures var s' := Next(p, Opened(p, s, v).(server := server), last); EndsAs(p, s', |s.conns|, s.cache, v)
  {
    hide R.PostedBy, R.CacheOf, SB.Next, G.Next, Opened;
    var q, v0 := |s.conns|, v.(verdict := R.Unreachable);
    var s1 := Opened(p, s, v).(server := server);
    OpenedSame(p, s, v);
    OpenedIs(p, s, v0);
    VisitFree(p.h, s.cache, v, v0);
    if R.PostedBy(p.h, s.cache, v).Some? {
      hide EndsAs;
      LastStep(p, s1, q, s.cache, v, v0, |s.server.threads|, last);
    } else {
      EndsAsFree(p, Opened(p, s, v), q, s.cache, v, v0, server);
      EndedStays(p, s1, q, s.cache, v, last);
    }
  }

  lemma OpenedSame(p: Params, s: System, v: R.Visit)
    ensures Opened(p, s, v) == Opened(p, s, v.(verdict := R.Unreachable))
  {
    hide Next;
  }

  lemma VisitFree(h: Hash, c: LC.Cache, v: R.Visit, v0: R.Visit)
    requires v0 == v.(verdict := v0.verdict)
    ensures R.PostedBy(h, c, v0) == R.PostedBy(h, c, v) && R.CacheOf(h, c, v0) == R.CacheOf(h, c, v)
    ensures R.PostedBy(h, c, v).None? ==> R.OutcomeOf(h, c, v0) == R.OutcomeOf(h, c, v)
  {
    hide LC.ReportAfter, LC.CacheAfter;
  }

  lemma EndsAsFree(p: Params, s: System, q: nat, before: LC.Cache, v: R.Visit, v0: R.Visit, server: SB.State)
    requires v0 == v.(verdict := v0.verdict) && R.PostedBy(p.h, before, v).None? && EndsAs(p, s, q, before, v0)
    ensures EndsAs(p, s.(server := server), q, before, v)
  {
    hide R.OutcomeOf, R.CacheOf, R.PostedBy;
    VisitFree(p.h, before, v, v0);
  }

  lemma LastStep(p: Params, s: System, q: nat, before: LC.Cache, v: R.Visit, v0: R.Visit, th: nat, last: Step)
    requires v0 == v.(verdict := R.Unreachable) && R.PostedBy(p.h, before, v).Some?
    requires q < |s.conns| && s.conns[q] == Connection(before, v0, Waiting(th)) && s.cache == R.CacheOf(p.h, before, v)
    requires (last.Lose? || last.Reply?) && last.q == q && v.verdict == VerdictOf(s.server.threads, th, last)
    requires last.Reply? ==> th < |s.server.threads| && s.server.threads[th].phase.Done?
    ensures EndsAs(p, Next(p, s, last), q, before, v)
  {
    hide R.PostedBy, R.CacheOf, SB.Next, G.Next;
    assert WithVerdict(s.conns[q], v.verdict).visit == v;
  }
}
