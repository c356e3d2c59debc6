// A delivery happens: after a machine has registered and its log has been enrolled, a
// connection's report is accepted, and the hook hands its callback to the runtime.

module DeliveryExample {
  import opened Wrappers
  import opened Text
  import opened Merkle
  import opened ImaLog
  import opened ImaBinding
  import opened JsonReply
  import opened CStrings
  import opened Reports
  import opened IsoTime
  import opened ServerSpec
  import opened EndToEnd
  import G = Hook
  import H = HonestRuns
  import LC = LeafCache
  import R = Relay
  import SB = ServerBlocks
  import SR = ServerRuns
  import X = HonestExample

  // ---- runs of steps -------------------------------------------------------------------------

  function Lift(bs: seq<SB.Step>): seq<Step>
  {
    if bs == [] then [] else Lift(bs[..|bs| - 1]) + [Server(bs[|bs| - 1])]
  }

  lemma AfterOne(p: Params, s: System, a: seq<Step>, step: Step)
    ensures After(p, s, a + [step]) == Next(p, After(p, s, a), step)
  {
    hide Next;
    assert (a + [step])[..|a|] == a;
  }

  lemma AfterNone(p: Params, s: System)
    ensures After(p, s, []) == s
  {}

  lemma {:induction false} AfterAppend(p: Params, s: System, a: seq<Step>, b: seq<Step>)
    ensures After(p, s, a + b) == After(p, After(p, s, a), b)
  {
    hide Next, After;
    if b == [] {
      assert a + b == a;
      AfterNone(p, After(p, s, a));
    } else {
      var front, step := b[..|b| - 1], b[|b| - 1];
      AfterAppend(p, s, a, front);
      AfterOne(p, s, a + front, step);
      AfterOne(p, After(p, s, a), front, step);
      assert b == front + [step] && a + b == a + front + [step];
    }
  }

  lemma ServerStep(p: Params, s: System, b: SB.Step)
    ensures Next(p, s, Server(b)) == s.(server := SB.Next(p.o, p.pol, s.server, b))
  {}

  // Blocks of the server, one after the other.
  lemma {:induction false} Lifted(p: Params, s: System, bs: seq<SB.Step>)
    ensures After(p, s, Lift(bs)) == s.(server := SB.After(p.o, p.pol, s.server, bs))
  {
    hide Next, After, SB.Next, SB.After;
    if bs == [] {
      AfterNone(p, s);
      SB.AfterNone(p.o, p.pol, s.server);
      assert Lift(bs) == [];
    } else {
      var front, b := bs[..|bs| - 1], bs[|bs| - 1];
      Lifted(p, s, front);
      AfterOne(p, s, Lift(front), Server(b));
      SB.AfterOne(p.o, p.pol, s.server, front, b);
      ServerStep(p, After(p, s, Lift(front)), b);
      assert front + [b] == bs;
    }
  }

  function OpenSteps(q: nat, v: R.Visit): seq<Step>
  {
    [Connect] + [Shake(q, v.handshake)] + [Fetch(q, v.challenge)] + [Collect(q, v.world, v.escapes)] + [Post(q)]
  }

  lemma OpenStepsRun(p: Params, s: System, v: R.Visit)
    ensures After(p, s, OpenSteps(|s.conns|, v)) == Opened(p, s, v)
  {
    hide Next, After;
    var q := |s.conns|;
    AfterNone(p, s);
    AfterOne(p, s, [], Connect);
    assert [] + [Connect] == [Connect];
    AfterOne(p, s, [Connect], Shake(q, v.handshake));
    AfterOne(p, s, [Connect] + [Shake(q, v.handshake)], Fetch(q, v.challenge));
    AfterOne(p, s, [Connect] + [Shake(q, v.handshake)] + [Fetch(q, v.challenge)], Collect(q, v.world, v.escapes));
    AfterOne(p, s, [Connect] + [Shake(q, v.handshake)] + [Fetch(q, v.challenge)] + [Collect(q, v.world, v.escapes)],
             Post(q));
  }

  // The shim leaves the gate alone.
  lemma ShimGate(p: Params, s: System, step: Step)
    requires step.Connect? || step.Shake? || step.Fetch? || step.Collect? || step.Post? || step.Reply?
    ensures Next(p, s, step).gate == s.gate
  {
    hide R.OutcomeOf, R.PostedBy, R.CacheOf, SB.Next;
  }

  lemma OpenedGate(p: Params, s: System, v: R.Visit)
    ensures Opened(p, s, v).gate == s.gate
  {
    hide Next;
    var q := |s.conns|;
    var s1 := Next(p, s, Connect);
    var s2 := Next(p, s1, Shake(q, v.handshake));
    var s3 := Next(p, s2, Fetch(q, v.challenge));
    var s4 := Next(p, s3, Collect(q, v.world, v.escapes));
    ShimGate(p, s, Connect);
    ShimGate(p, s1, Shake(q, v.handshake));
    ShimGate(p, s2, Fetch(q, v.challenge));
    ShimGate(p, s3, Collect(q, v.world, v.escapes));
    ShimGate(p, s4, Post(q));
  }

  // ---- from an acceptable report to the delivery ---------------------------------------------------

  function ReplySteps(q: nat, callback: nat): seq<Step>
  {
    [Reply(q, "", "")] + [AddNotify(Some(callback), q, 14, true)]
  }

  // Everything one connection takes: to its report, to the verdict, to the registration.
  function DeliverySteps(q: nat, v: R.Visit, th: nat, now: Instant, callback: nat): seq<Step>
  {
    OpenSteps(q, v) + Lift(SB.Closing(th, now)) + ReplySteps(q, callback)
  }

  lemma ReplyIsYes(p: Params, s: System, q: nat, before: LC.Cache, v: R.Visit, th: nat)
    requires q < |s.conns| && s.conns[q] == Connection(before, v, Waiting(th)) && R.PostedBy(p.h, before, v).Some?
    requires HandlerSaysYes(s.server.threads, s.conns[q]) && v.verdict == R.Unreachable
    ensures var s' := Next(p, s, Reply(q, "", ""));
      && q < |s'.conns| && s'.conns[q].stage == Answered(Some(th)) && s'.gate == s.gate
      && Outcome(p, s'.conns[q]) == R.Sent(Approve(""))
  {
    hide LC.ReportAfter, SB.Next, G.Next;
    assert R.Collects(v);
  }

  lemma ApprovalIsRead(p: Params, s: System, q: nat)
    requires q < |s.conns| && s.conns[q].stage.Answered? && Outcome(p, s.conns[q]) == R.Sent(Approve(""))
    ensures G.Approves(ExchangeOf(p, s, q, 14))
  {
    hide Outcome, SaysTrue, NulIndex, ResponseIsValid;
    var text := Print(Approve(""));
    assert |text| >= 14 by { ApprovalLength(); }
    hide Print;
    assert R.Text(R.Sent(Approve(""))) == text;
    TextHasNoNul(R.Sent(Approve("")), 14);
    DecodersAgree(Approve(""), 14);
  }

  lemma ApprovalLength()
    ensures |Print(Approve(""))| >= 14
  {
    Heads(APPROVE_FRONT);
    Fronts();
  }

  lemma GateRegisters(g: G.Gate, callback: nat, x: G.Exchange)
    requires G.Approves(x) && |G.Request(g.playerId, "")| < G.SHIM_BUF_SIZE
    ensures G.Next(g, G.AddNotify(Some(callback), x, true)).trace
         == g.trace + [G.Probed(G.Request(g.playerId, ""), true), G.Registered]
  {
    hide G.Approves, G.Request;
  }

  lemma NotifyGate(p: Params, s: System, q: nat, callback: nat)
    ensures Next(p, s, AddNotify(Some(callback), q, 14, true)).gate
         == G.Next(s.gate, G.AddNotify(Some(callback), ExchangeOf(p, s, q, 14), true))
  {
    hide G.Next, ExchangeOf, Readable;
  }

  lemma HandlerAccepts(o: Oracles, pol: Policy, s: SB.State, r: Report, now: Instant)
    requires Handle(o, pol, s.db, Attest(r, now)).1
    ensures var th := |s.threads|;
      var s' := SB.After(o, pol, SB.Next(o, pol, s, SB.BeginAttest(r)), SB.Closing(th, now));
      |s'.threads| == th + 1 && s'.threads[th].phase.Done? && s'.threads[th].phase.ok
  {
    hide SB.After, SB.Closing, Verified, SB.Moments;
    SB.ClosingRun(o, pol, SB.Next(o, pol, s, SB.BeginAttest(r)), |s.threads|, now);
  }

  lemma ReplyStepsRun(p: Params, s: System, q: nat, callback: nat)
    ensures After(p, s, ReplySteps(q, callback))
         == Next(p, Next(p, s, Reply(q, "", "")), AddNotify(Some(callback), q, 14, true))
  {
    hide Next, After;
    AfterNone(p, s);
    AfterOne(p, s, [], Reply(q, "", ""));
    assert [] + [Reply(q, "", "")] == [Reply(q, "", "")];
    AfterOne(p, s, [Reply(q, "", "")], AddNotify(Some(callback), q, 14, true));
  }

  lemma DeliveryStepsRun(p: Params, s: System, v: R.Visit, th: nat, now: Instant, callback: nat)
    ensures var q := |s.conns|; var s1 := Opened(p, s, v);
      var s2 := s1.(server := SB.After(p.o, p.pol, s1.server, SB.Closing(th, now)));
      After(p, s, DeliverySteps(q, v, th, now, callback))
      == Next(p, Next(p, s2, Reply(q, "", "")), AddNotify(Some(callback), q, 14, true))
  {
    hide Next, After, Opened, OpenSteps, Lift, ReplySteps, SB.Closing, SB.After;
    var q := |s.conns|;
    AfterAppend(p, s, OpenSteps(q, v), Lift(SB.Closing(th, now)));
    AfterAppend(p, s, OpenSteps(q, v) + Lift(SB.Closing(th, now)), ReplySteps(q, callback));
    OpenStepsRun(p, s, v);
    Lifted(p, Opened(p, s, v), SB.Closing(th, now));
    ReplyStepsRun(p, After(p, s, OpenSteps(q, v) + Lift(SB.Closing(th, now))), q, callback);
  }

  // From any state of the system: a connection that collects a report the server would
  // accept ends with its callback handed to the runtime.
  lemma DeliveryFollows(p: Params, s: System, v: R.Visit, now: Instant, callback: nat)
    requires v.verdict == R.Unreachable && R.PostedBy(p.h, s.cache, v).Some?
    requires Handle(p.o, p.pol, s.server.db, Attest(R.PostedBy(p.h, s.cache, v).value, now)).1
    requires |G.Request(s.gate.playerId, "")| < G.SHIM_BUF_SIZE
    ensures After(p, s, DeliverySteps(|s.conns|, v, |s.server.threads|, now, callback)).gate.trace
         == s.gate.trace + [G.Probed(G.Request(s.gate.playerId, ""), true), G.Registered]
  {
    hide Next, After, Opened, Handle, SB.After, SB.Next, SB.Closing, DeliverySteps, R.PostedBy, R.CacheOf, G.Next,
         G.Approves, G.Request, Outcome, ExchangeOf, EndsAs;
    var q, th := |s.conns|, |s.server.threads|;
    var s1 := Opened(p, s, v);
    OpenedIs(p, s, v);
    OpenedGate(p, s, v);
    var s2 := s1.(server := SB.After(p.o, p.pol, s1.server, SB.Closing(th, now)));
    HandlerAccepts(p.o, p.pol, s.server, R.PostedBy(p.h, s.cache, v).value, now);
    ReplyIsYes(p, s2, q, s.cache, v, th);
    var s3 := Next(p, s2, Reply(q, "", ""));
    ApprovalIsRead(p, s3, q);
    NotifyGate(p, s3, q, callback);
    GateRegisters(s3.gate, callback, ExchangeOf(p, s3, q, 14));
    DeliveryStepsRun(p, s, v, th, now, callback);
  }

  // ---- the run of HonestExample, step by step ------------------------------------------------------

  function Visited(nonce: string, world: LC.World): R.Visit
  {
    R.Visit(R.JsonObject, R.Nonce(nonce), world, false, R.Unreachable)
  }

  function WorldAfter(h: Hash, events: seq<LC.Event>, nonce: string): LC.World
  {
    LC.WorldOf(LC.After(h, events), X.Collection(nonce))
  }

  // What a connection posts and leaves behind is what the collection of the cache run makes.
  lemma SameCollection(h: Hash, events: seq<LC.Event>, nonce: string)
    requires |nonce| == 64
    ensures var c, v := LC.After(h, events).cache, Visited(nonce, WorldAfter(h, events, nonce));
      && R.PostedBy(h, c, v) == H.Collected(h, events, X.Collection(nonce))
      && R.CacheOf(h, c, v) == LC.After(h, events + [X.Collection(nonce)]).cache
  {
    LC.AfterLast(h, events, X.Collection(nonce));
    hide LC.After, LC.CacheAfter, LC.ReportAfter;
  }

  // The server's tables after a handler's own blocks.
  lemma HandlerDb(p: Params, s: System, call: Call)
    ensures var s' := After(p, s, Lift(SB.BlocksFrom(s.server, call)));
      && s' == s.(server := s'.server) && s'.server.db == Handle(p.o, p.pol, s.server.db, call).0
  {
    hide After, SB.After, SB.BlocksFrom, Handle;
    Lifted(p, s, SB.BlocksFrom(s.server, call));
    SB.UninterruptedIsHandle(p.o, p.pol, s.server, call);
  }

  // Registration and first challenge.
  lemma FirstPart(p: Params, n0: string) returns (steps: seq<Step>)
    ensures var s := After(p, START, steps);
      s == START.(server := s.server) && s.server.db == Run(p.o, p.pol, X.FirstCalls(n0))
  {
    hide After, SB.After, SB.SerialBlocks, Run;
    steps := Lift(SB.SerialBlocks(p.o, p.pol, X.FirstCalls(n0)));
    Lifted(p, START, SB.SerialBlocks(p.o, p.pol, X.FirstCalls(n0)));
    SB.SerialRunIsBlocks(p.o, p.pol, X.FirstCalls(n0));
  }

  // A first connection collects the report r; posted, it is never looked at.
  lemma SecondPart(p: Params, line: string, n0: string, front: seq<Step>, r: Report) returns (steps: seq<Step>)
    requires |n0| == 64 && H.Collected(p.h, X.FirstEvents(line), X.Collection(n0)) == Some(r)
    requires var s := After(p, START, front); s == START.(server := s.server)
    ensures var s, s' := After(p, START, front), After(p, START, steps);
      && s'.gate == G.START && s'.server.db == s.server.db
      && s'.cache == LC.After(p.h, X.SecondEvents(line, n0)).cache
  {
    hide After, Opened, LC.After, H.Collected, R.PostedBy, R.CacheOf, EndsAs;
    var s := After(p, START, front);
    var v := Visited(n0, WorldAfter(p.h, X.FirstEvents(line), n0));
    X.AfterBoot(p.h, line, n0);
    SameCollection(p.h, X.FirstEvents(line), n0);
    steps := front + OpenSteps(|s.conns|, v);
    AfterAppend(p, START, front, OpenSteps(|s.conns|, v));
    OpenStepsRun(p, s, v);
    OpenedIs(p, s, v);
    OpenedGate(p, s, v);
    BeginKeepsDb(p, s.server, r);
  }

  lemma BeginKeepsDb(p: Params, s: SB.State, r: Report)
    ensures SB.Next(p.o, p.pol, s, SB.BeginAttest(r)).db == s.db
  {}

  // The report is enrolled, and a second challenge issued.
  lemma ThirdPart(p: Params, n0: string, n1: string, r: Report, front: seq<Step>) returns (steps: seq<Step>)
    requires After(p, START, front).server.db == Run(p.o, p.pol, X.FirstCalls(n0))
    ensures var s, s' := After(p, START, front), After(p, START, steps);
      s' == s.(server := s'.server) && s'.server.db == Run(p.o, p.pol, X.SecondCalls(n0, n1, r))
  {
    hide After, Handle, Run, SB.BlocksFrom;
    var s := After(p, START, front);
    var enrolment := Lift(SB.BlocksFrom(s.server, Enroll(r, 0)));
    HandlerDb(p, s, Enroll(r, 0));
    AfterAppend(p, START, front, enrolment);
    X.RunOneMore(p.o, p.pol, X.FirstCalls(n0), Enroll(r, 0));
    var s1 := After(p, s, enrolment);
    var challenge := Lift(SB.BlocksFrom(s1.server, Challenge(n1, 0)));
    HandlerDb(p, s1, Challenge(n1, 0));
    AfterAppend(p, START, front + enrolment, challenge);
    X.RunOneMore(p.o, p.pol, X.FirstCalls(n0) + [Enroll(r, 0)], Challenge(n1, 0));
    steps := front + enrolment + challenge;
  }

  // A second connection collects a report that is accepted.
  lemma LastPart(p: Params, n0: string, n1: string, r: Report, front: seq<Step>) returns (steps: seq<Step>)
    requires |n1| == 64
    requires var s := After(p, START, front);
      && s.gate == G.START && s.server.db == Run(p.o, p.pol, X.SecondCalls(n0, n1, r))
      && s.cache == LC.After(p.h, X.SecondEvents(PrintEntry(LC.FILE), n0)).cache
    requires var posted := H.Collected(p.h, X.SecondEvents(PrintEntry(LC.FILE), n0), X.Collection(n1));
      posted.Some? && Handle(p.o, p.pol, Run(p.o, p.pol, X.SecondCalls(n0, n1, r)), Attest(posted.value, 0)).1
    ensures front <= steps
    ensures After(p, START, steps).gate.trace == [G.Probed(G.Request("unknown", ""), true), G.Registered]
  {
    hide After, Handle, Run, LC.After, H.Collected, X.SecondCalls, X.SecondEvents, DeliverySteps, G.Request, R.PostedBy,
         R.CacheOf, PrintEntry;
    var s := After(p, START, front);
    var events := X.SecondEvents(PrintEntry(LC.FILE), n0);
    var v := Visited(n1, WorldAfter(p.h, events, n1));
    SameCollection(p.h, events, n1);
    G.ShortProbe();
    var last := DeliverySteps(|s.conns|, v, |s.server.threads|, 0, 7);
    DeliveryFollows(p, s, v, 0, 7);
    AfterAppend(p, START, front, last);
    steps := front + last;
  }

  lemma EnrolledRows(o: Oracles, pol: Policy, calls: seq<Call>)
    requires SR.PinAfter(o, pol, calls).Some?
    ensures Run(o, pol, calls).baselines != []
  {
    hide Run, SR.PinAfter;
    SR.BaselinesRefinePin(o, pol, calls);
  }

  // The conclusions about deliveries are not empty: under strict policy, with a baseline
  // enrolled before, and for any two nonces of 64 characters, this run delivers a
  // registration.
  lemma DeliveryOccurs(h: Hash, n0: string, n1: string) returns (p: Params, front: seq<Step>, steps: seq<Step>)
    requires |n0| == |n1| == 64 && n0 != n1
    ensures p.h == h && p.pol.strictEk && p.pol.requirePcr7
    ensures front <= steps && After(p, START, front).server.db.baselines != []
    ensures After(p, START, steps).gate.trace == [G.Probed(G.Request("unknown", ""), true), G.Registered]
  {
    var o := X.AgreeableOracles(n0, n1);
    p := Params(h, o, X.STRICT);
    X.StrictPolicy();
    hide After, Handle, Run, LC.After, H.Collected, X.FirstCalls, X.SecondCalls, X.FirstEvents, X.SecondEvents,
         X.Agreeable, H.HonestSetting, SR.PinAfter, G.Request, PrintEntry, Hex, RootOf, X.Collection;
    var r := X.FirstEnrolled(h, o, n0, n1);
    X.SecondAccepted(h, o, n0, n1, r);
    EnrolledRows(o, X.STRICT, X.SecondCalls(n0, n1, r));
    var first := FirstPart(p, n0);
    var second := SecondPart(p, PrintEntry(LC.FILE), n0, first, r);
    front := ThirdPart(p, n0, n1, r, second);
    steps := LastPart(p, n0, n1, r, front);
  }
}
