// What a delivery says about the kernel log: where the shim's collections are harmless
// and enrolments do not overlap, it is the log enrolled last.

module DeliveredLog {
  import opened Wrappers
  import opened Text
  import opened Merkle
  import opened ImaLog
  import opened ImaTree
  import opened ImaBinding
  import opened ServerSpec
  import opened EndToEnd
  import H = HonestRuns
  import LC = LeafCache
  import R = Relay
  import SB = ServerBlocks

  // ---- the log behind the cache ----------------------------------------------------------

  predicate Collecting(s: System, step: Step) { step.Collect? && At(s, step.q, Holding) }

  // The log the cache is built from after a step; an empty cache is built from no log.
  ghost function KnownAfter(p: Params, s: System, known: Log, step: Step): Log
  {
    if Next(p, s, step).cache == EMPTY_CACHE then []
    else if Collecting(s, step) then LC.Synced(s.cache, known, step.world)
    else known
  }

  ghost function Known(p: Params, steps: seq<Step>): Log
  {
    if steps == [] then []
    else
      var front := steps[..|steps| - 1];
      KnownAfter(p, After(p, START, front), Known(p, front), steps[|steps| - 1])
  }

  // Every collection sees a drop in the count or a log that extends the one behind the cache.
  ghost predicate HarmlessRun(p: Params, steps: seq<Step>)
  {
    forall k | 0 <= k < |steps| && Collecting(After(p, START, steps[..k]), steps[k]) ::
      LC.HarmlessRead(After(p, START, steps[..k]).cache, Known(p, steps[..k]), steps[k].world)
  }

  // Each connection that collected did so from a right cache.
  predicate LogOk(p: Params, c: Connection)
  {
    && (c.stage.Shaken? ==> R.Shaken(c.visit.handshake))
    && (c.stage.Holding? ==> R.Collects(c.visit))
    && (LC.Refreshes(c.visit.world) ==>
          LC.Correct(p.h, LC.CacheAfter(p.h, c.before, c.visit.world), c.visit.world.log3.value))
  }

  predicate LogsOk(p: Params, s: System, known: Log)
  {
    LC.Correct(p.h, s.cache, known) && forall q | 0 <= q < |s.conns| :: LogOk(p, s.conns[q])
  }

  lemma EmptyIsRight(h: Hash)
    ensures LC.Correct(h, EMPTY_CACHE, [])
  {
    LC.FlushedIsRight(h);
  }

  // How a connection ends: only its stage changes, and perhaps the cache is lost.
  lemma FinishIs(p: Params, s: System, q: nat, c: Connection, thread: Option<nat>)
    requires q < |s.conns|
    ensures var s' := Finish(p, s, q, c, thread);
      && (s'.conns == s.conns[q := c.(stage := Answered(thread))] || s'.conns == s.conns[q := c.(stage := Dropped)])
      && (s'.cache == s.cache || s'.cache == EMPTY_CACHE)
      && s'.server == s.server
  {
    hide R.OutcomeOf;
  }

  // A step that collects nothing.
  lemma OtherStep(p: Params, s: System, step: Step)
    requires !Collecting(s, step) && forall q | 0 <= q < |s.conns| :: LogOk(p, s.conns[q])
    ensures var s' := Next(p, s, step);
      && (s'.cache == s.cache || s'.cache == EMPTY_CACHE)
      && forall q | 0 <= q < |s'.conns| :: LogOk(p, s'.conns[q])
  {
    hide Finish, LC.Correct, LC.CacheAfter, SB.Next, R.PostedBy, ExchangeOf, Readable, R.Text;
    match step
    case Shake(q, handshake) =>
      if At(s, q, Fresh) {
        FinishIs(p, s, q, s.conns[q].(visit := s.conns[q].visit.(handshake := handshake)), None);
      }
    case Fetch(q, challenge) =>
      if At(s, q, Shaken) {
        FinishIs(p, s, q, s.conns[q].(visit := s.conns[q].visit.(challenge := challenge)), None);
      }
    case Reply(q, token, reason) =>
      if IsWaiting(s, q) {
        var verdict := if HandlerSaysYes(s.server.threads, s.conns[q]) then R.Valid(token) else R.Invalid(reason);
        FinishIs(p, s, q, WithVerdict(s.conns[q], verdict), Some(s.conns[q].stage.handler));
      }
    case Lose(q, raises) =>
      if At(s, q, Collected) || IsWaiting(s, q) {
        var thread := if s.conns[q].stage.Waiting? then Some(s.conns[q].stage.handler) else None;
        FinishIs(p, s, q, WithVerdict(s.conns[q], if raises then R.PostRaises else R.Unreachable), thread);
      }
    case Post(q) =>
    case Connect => assert LogOk(p, Connection(EMPTY_CACHE, BLANK, Fresh));
    case AddNotify(_, q, k, _) => ReadLogs(p, s, q, k);
    case Message(_, _, q, k) => ReadLogs(p, s, q, k);
    case _ =>
  }

  // A connection that has been read keeps what it collected.
  lemma ReadLogs(p: Params, s: System, q: nat, k: nat)
    requires q < |s.conns| ==> LogOk(p, s.conns[q])
    ensures Readable(p, s, q, k) ==>
      q < |s.conns| && s.conns[q].stage.Answered? && LogOk(p, Read(s.conns[q]))
  {
    hide LC.Correct, LC.CacheAfter, R.Text;
  }

  lemma CollectStep(p: Params, s: System, known: Log, step: Step)
    requires Collecting(s, step) && LogsOk(p, s, known) && LC.HarmlessRead(s.cache, known, step.world)
    ensures var s' := Next(p, s, step);
      && (s'.cache == LC.CacheAfter(p.h, s.cache, step.world) || s'.cache == EMPTY_CACHE)
      && forall q | 0 <= q < |s'.conns| :: LogOk(p, s'.conns[q])
  {
    hide Finish, LC.Correct, LC.CacheAfter, LC.HarmlessRead, R.PostedBy;
    var q := step.q;
    assert LogOk(p, s.conns[q]);
    if LC.Refreshes(step.world) {
      LC.ReadCorrectIff(p.h, s.cache, known, step.world);
    }
    var c := Connection(s.cache, s.conns[q].visit.(world := step.world, escapes := step.escapes), Collected);
    FinishIs(p, s.(cache := R.CacheOf(p.h, s.cache, c.visit)), q, c, None);
  }

  lemma NextKeepsLogs(p: Params, s: System, known: Log, step: Step)
    requires LogsOk(p, s, known) && (Collecting(s, step) ==> LC.HarmlessRead(s.cache, known, step.world))
    ensures LogsOk(p, Next(p, s, step), KnownAfter(p, s, known, step))
  {
    hide Next, LogOk, LC.Correct, LC.CacheAfter, LC.Synced, LC.HarmlessRead;
    EmptyIsRight(p.h);
    if Collecting(s, step) {
      CollectStep(p, s, known, step);
      LC.ReadKeepsCorrect(p.h, s.cache, known, step.world);
    } else {
      OtherStep(p, s, step);
    }
  }

  lemma {:induction false} RunKeepsLogs(p: Params, steps: seq<Step>)
    requires HarmlessRun(p, steps)
    ensures LogsOk(p, After(p, START, steps), Known(p, steps))
  {
    hide LogsOk, Next, KnownAfter, LC.HarmlessRead, Collecting;
    if steps == [] {
      StartLogs(p);
    } else {
      var last := |steps| - 1;
      HarmlessFront(p, steps);
      RunKeepsLogs(p, steps[..last]);
      NextKeepsLogs(p, After(p, START, steps[..last]), Known(p, steps[..last]), steps[last]);
    }
  }

  lemma StartLogs(p: Params)
    ensures LogsOk(p, START, [])
  {
    EmptyIsRight(p.h);
    assert START.conns == [];
  }

  lemma HarmlessFront(p: Params, steps: seq<Step>)
    requires HarmlessRun(p, steps) && steps != []
    ensures HarmlessRun(p, steps[..|steps| - 1])
  {
    hide LC.HarmlessRead, After, Known;
    var last := |steps| - 1;
    forall k | 0 <= k < last && Collecting(After(p, START, steps[..last][..k]), steps[..last][k])
      ensures LC.HarmlessRead(After(p, START, steps[..last][..k]).cache, Known(p, steps[..last][..k]),
                              steps[..last][k].world)
    {
      assert steps[..last][..k] == steps[..k] && steps[..last][k] == steps[k];
    }
  }

  // The report of such a connection carries the root of the log its third read saw.
  lemma ReportRoot(p: Params, c: Connection)
    requires LogOk(p, c) && ReportOf(p, c).Some?
    ensures c.visit.world.log3.Some?
    ensures ReportOf(p, c).value.merkleRoot == Hex(RootOf(p.h, Entries(c.visit.world.log3.value)))
  {
    hide Summarise, Root, Depth, Hex, HexAll, Entries, Leaves, LC.CacheAfter;
  }

  // ---- the server's own trace -----------------------------------------------------------------

  ghost function ServerSteps(p: Params, s: System, step: Step): seq<SB.Step>
  {
    match step
    case Server(b) => [b]
    case Post(q) =>
      if At(s, q, Collected) && ReportOf(p, s.conns[q]).Some? then [SB.BeginAttest(ReportOf(p, s.conns[q]).value)]
      else []
    case _ => []
  }

  ghost function ServerTrace(p: Params, steps: seq<Step>): seq<SB.Step>
  {
    if steps == [] then []
    else
      var front := steps[..|steps| - 1];
      ServerTrace(p, front) + ServerSteps(p, After(p, START, front), steps[|steps| - 1])
  }

  lemma ServerOfStep(p: Params, s: System, step: Step)
    ensures Next(p, s, step).server == SB.After(p.o, p.pol, s.server, ServerSteps(p, s, step))
  {
    hide Finish, SB.Next, SB.After, R.PostedBy, R.CacheOf, ExchangeOf, Readable;
    SB.AfterNone(p.o, p.pol, s.server);
    match step
    case Server(b) => SB.One(p.o, p.pol, s.server, b);
    case Post(q) =>
      if At(s, q, Collected) && ReportOf(p, s.conns[q]).Some? {
        SB.One(p.o, p.pol, s.server, SB.BeginAttest(ReportOf(p, s.conns[q]).value));
      }
    case Shake(q, handshake) =>
      if At(s, q, Fresh) {
        FinishIs(p, s, q, s.conns[q].(visit := s.conns[q].visit.(handshake := handshake)), None);
      }
    case Fetch(q, challenge) =>
      if At(s, q, Shaken) {
        FinishIs(p, s, q, s.conns[q].(visit := s.conns[q].visit.(challenge := challenge)), None);
      }
    case Collect(q, world, escapes) =>
      if At(s, q, Holding) {
        var c := Connection(s.cache, s.conns[q].visit.(world := world, escapes := escapes), Collected);
        FinishIs(p, s.(cache := R.CacheOf(p.h, s.cache, c.visit)), q, c, None);
      }
    case Reply(q, token, reason) =>
      if IsWaiting(s, q) {
        var verdict := if HandlerSaysYes(s.server.threads, s.conns[q]) then R.Valid(token) else R.Invalid(reason);
        FinishIs(p, s, q, WithVerdict(s.conns[q], verdict), Some(s.conns[q].stage.handler));
      }
    case Lose(q, raises) =>
      if At(s, q, Collected) || IsWaiting(s, q) {
        var thread := if s.conns[q].stage.Waiting? then Some(s.conns[q].stage.handler) else None;
        FinishIs(p, s, q, WithVerdict(s.conns[q], if raises then R.PostRaises else R.Unreachable), thread);
      }
    case _ =>
  }

  lemma {:induction false} ServerIsTrace(p: Params, steps: seq<Step>)
    ensures After(p, START, steps).server == SB.After(p.o, p.pol, SB.START, ServerTrace(p, steps))
  {
    if steps == [] {
      SB.AfterNone(p.o, p.pol, SB.START);
    } else {
      hide Next, SB.After, ServerSteps;
      var last := |steps| - 1;
      var s, front := After(p, START, steps[..last]), ServerTrace(p, steps[..last]);
      ServerIsTrace(p, steps[..last]);
      ServerOfStep(p, s, steps[last]);
      SB.AfterAppend(p.o, p.pol, SB.START, front, ServerSteps(p, s, steps[last]));
    }
  }

  // ---- the delivered log -----------------------------------------------------------------------

  // The delivery's handler read the table at a moment at which a pin was visible, and the
  // pinned root is that of `enrolled`.
  ghost predicate PinnedLog(p: Params, steps: seq<Step>, t: nat, enrolled: seq<Entry>)
  {
    var s, bs := After(p, START, steps), ServerTrace(p, steps);
    && Handler(s, t) < |s.server.threads| && s.server.threads[Handler(s, t)].phase.Done?
    && var seen := s.server.threads[Handler(s, t)].phase.seen;
    && |seen| == 5 && seen[3] <= |bs| && SB.PinVisible(p.o, p.pol, bs, seen[3])
    && SB.PinTrace(p.o, p.pol, bs[..seen[3]]).Some?
    && SB.PinTrace(p.o, p.pol, bs[..seen[3]]).value.0 == Hex(RootOf(p.h, enrolled))
  }

  // Main result.  In every run with harmless collections and one enrolment at a time, each
  // delivery whose handler read the table outside an enrolment's window is about the log
  // enrolled last at that read: the two agree on every covered field if and only if they
  // hold equally many colons entry by entry, unless hashed strings collide or a node is
  // used as leaf.
  lemma DeliveredLogIsEnrolledLog(p: Params, steps: seq<Step>, t: nat, enrolled: seq<Entry>)
    requires HarmlessRun(p, steps) && SB.OneAtATime(p.o, p.pol, ServerTrace(p, steps))
    requires t < |After(p, START, steps).gate.trace| && Delivery(After(p, START, steps).gate.trace[t])
    requires PinnedLog(p, steps, t, enrolled)
    ensures var s := After(p, START, steps);
      && t in s.paid && PaidBy(p, s, t, s.paid[t], Handler(s, t)) && s.conns[s.paid[t]].visit.world.log3.Some?
      && var delivered := Entries(s.conns[s.paid[t]].visit.world.log3.value);
      && ((SameMeasurements(enrolled, delivered) <==> SameShape(enrolled, delivered))
          || LogsCollide(p.h, enrolled, delivered) || NodeAsLeaf(p.h, enrolled, delivered))
      && (!NodeSized(enrolled) && !NodeSized(delivered) ==> !NodeAsLeaf(p.h, enrolled, delivered))
  {
    DeliveriesArePaidFor(p, steps, t, t);
    RunKeepsLogs(p, steps);
    ServerIsTrace(p, steps);
    hide HarmlessRun, SB.OneAtATime, SB.PinVisible, SB.PinTrace, SB.Succeeded, After, ServerTrace, Entries, Hex, RootOf,
         LogOk, ReportOf, Lower, SameMeasurements, SameShape, LogsCollide, NodeAsLeaf, NodeSized, SB.After;
    var s, bs := After(p, START, steps), ServerTrace(p, steps);
    var c := s.conns[s.paid[t]];
    ReportRoot(p, c);
    SB.AcceptedMatchesPin(p.o, p.pol, bs, Handler(s, t)) by { SucceededIsOk(p, s, Handler(s, t)); }
    SameRoots(p.h, enrolled, Entries(c.visit.world.log3.value));
  }

  lemma SucceededIsOk(p: Params, s: System, th: nat)
    requires SB.Succeeded(p.o, p.pol, s.server, th)
    ensures th < |s.server.threads| && s.server.threads[th].phase.Done? && s.server.threads[th].phase.ok
  {
    hide ChecksAt;
  }

  lemma SameRoots(h: Hash, a: seq<Entry>, b: seq<Entry>)
    requires Lower(Hex(RootOf(h, a))) == Lower(Hex(RootOf(h, b)))
    ensures (SameMeasurements(a, b) <==> SameShape(a, b)) || LogsCollide(h, a, b) || NodeAsLeaf(h, a, b)
    ensures !NodeSized(a) && !NodeSized(b) ==> !NodeAsLeaf(h, a, b)
  {
    hide Hex, RootOf, Lower, SameMeasurements, SameShape, LogsCollide, NodeAsLeaf, NodeSized;
    LowerOfHex(RootOf(h, a));
    LowerOfHex(RootOf(h, b));
    H.RootsOfTrees(h, a);
    H.RootsOfTrees(h, b);
    RootBindsLog(h, a, b);
  }
}
