// The verification server with requests side by side: each database block is one
// atomic step, and any number of handlers may stand between two of their blocks.

module ServerBlocks {
  import opened Wrappers
  import opened Text
  import opened Merkle
  import opened ImaLog
  import opened Reports
  import opened IsoTime
  import opened ServerSpec
  import opened ServerRuns
  import N = Nonces
  import H = HonestRuns

  // An enrolment keeps the active root its first block read.
  datatype Kind = Attesting | Enrolling(current: Option<string>)

  // Where a handler stands: `at` is the index of its nonce block, `seen` the moments of
  // the five reads its checks make.
  datatype Phase = Begun | Cleared
                 | Checking(answer: N.Answer, at: nat, seen: seq<nat>)
                 | Done(ok: bool, at: nat, seen: seq<nat>)

  datatype Thread = Thread(kind: Kind, report: Report, phase: Phase)

  // past[m] was the database at moment m; moment |past| is now.
  datatype State = State(db: Db, past: seq<Db>, blocks: seq<N.Block>, threads: seq<Thread>)

  function At(s: State, m: nat): Db { if m < |s.past| then s.past[m] else s.db }

  datatype Step = Challenge(nonce: string, at: Instant)
                | Register(req: RegisterRequest)
                | BeginAttest(report: Report)
                | BeginEnroll(report: Report)          // reads the active root
                | Clear(q: nat)                        // /enroll switches every row off
                | Burn(q: nat, now: Instant)           // the nonce block
                | Look(q: nat)                         // one read of the checks
                | Close(q: nat)                        // the verdict; /enroll pins or restores

  const START := State(EMPTY_DB, [], [], [])

  function ViewsOf(s: State, seen: seq<nat>): Views
    requires |seen| == 5
  {
    Views(At(s, seen[0]), At(s, seen[1]), At(s, seen[2]), At(s, seen[3]), At(s, seen[4]))
  }

  predicate Passes(o: Oracles, pol: Policy, s: State, r: Report, answer: N.Answer, seen: seq<nat>)
    requires |seen| == 5
  {
    answer == N.Recognised && ChecksAt(o, pol, ViewsOf(s, seen), r).None?
  }

  predicate CanClear(s: State, q: nat)
  {
    q < |s.threads| && s.threads[q].kind.Enrolling? && s.threads[q].phase == Begun
  }

  predicate CanBurn(s: State, q: nat)
  {
    q < |s.threads| && s.threads[q].phase == if s.threads[q].kind.Enrolling? then Cleared else Begun
  }

  predicate CanLook(s: State, q: nat)
  {
    q < |s.threads| && s.threads[q].phase.Checking? && |s.threads[q].phase.seen| < 5
  }

  predicate CanClose(s: State, q: nat)
  {
    q < |s.threads| && s.threads[q].phase.Checking? && |s.threads[q].phase.seen| == 5
  }

  function Moved(s: State, q: nat, phase: Phase): State
    requires q < |s.threads|
  {
    s.(threads := s.threads[q := s.threads[q].(phase := phase)])
  }

  function Looked(phase: Phase, moment: nat): Phase
    requires phase.Checking?
  {
    match phase case Checking(answer, at, seen) => Checking(answer, at, seen + [moment])
  }

  // What the closing block writes.
  function ClosedRows(rows: seq<Baseline>, kind: Kind, r: Report, ok: bool): seq<Baseline>
  {
    match kind
    case Attesting => rows
    case Enrolling(current) =>
      if ok then Pinned(rows, r.merkleRoot, r.pcrs)
      else if Truthy(current) then Restored(rows, current.value)
      else rows
  }

  predicate Verdict(o: Oracles, pol: Policy, s: State, q: nat)
    requires CanClose(s, q)
  {
    Passes(o, pol, s, s.threads[q].report, s.threads[q].phase.answer, s.threads[q].phase.seen)
  }

  function Closed(o: Oracles, pol: Policy, s: State, q: nat): State
    requires CanClose(s, q)
  {
    var t, ok := s.threads[q], Verdict(o, pol, s, q);
    Moved(s, q, Done(ok, t.phase.at, t.phase.seen))
      .(db := s.db.(baselines := ClosedRows(s.db.baselines, t.kind, t.report, ok)))
  }

  // A step that is not enabled changes nothing; reads a handler skips would change nothing.
  function Stepped(o: Oracles, pol: Policy, s: State, step: Step): State
  {
    match step
    case Challenge(nonce, at) => s.(db := Challenged(s.db, nonce, at).0, blocks := s.blocks + [N.Issue(nonce, at)])
    case Register(req) => s.(db := Registered(o, pol, s.db, req).0)
    case BeginAttest(r) => s.(threads := s.threads + [Thread(Attesting, r, Begun)])
    case BeginEnroll(r) => s.(threads := s.threads + [Thread(Enrolling(ActiveRoot(s.db.baselines)), r, Begun)])
    case Clear(q) =>
      if CanClear(s, q) then Moved(s, q, Cleared).(db := s.db.(baselines := Deactivated(s.db.baselines))) else s
    case Burn(q, now) =>
      if !CanBurn(s, q) then s
      else
        var nonce := s.threads[q].report.nonce;
        Moved(s, q, Checking(N.AnswerTo(s.db.nonces, nonce, now), |s.blocks|, []))
          .(db := Burned(s.db, nonce, now), blocks := s.blocks + [N.Consume(nonce, now)])
    case Look(q) => if CanLook(s, q) then Moved(s, q, Looked(s.threads[q].phase, |s.past|)) else s
    case Close(q) => if CanClose(s, q) then Closed(o, pol, s, q) else s
  }

  function Next(o: Oracles, pol: Policy, s: State, step: Step): State
  {
    Stepped(o, pol, s, step).(past := s.past + [s.db])
  }

  function After(o: Oracles, pol: Policy, s: State, steps: seq<Step>): State
  {
    if steps == [] then s else Next(o, pol, After(o, pol, s, steps[..|steps| - 1]), steps[|steps| - 1])
  }

  lemma AfterOne(o: Oracles, pol: Policy, s: State, a: seq<Step>, step: Step)
    ensures After(o, pol, s, a + [step]) == Next(o, pol, After(o, pol, s, a), step)
  {
    hide Next;
    assert (a + [step])[..|a|] == a;
  }

  lemma AfterNone(o: Oracles, pol: Policy, s: State)
    ensures After(o, pol, s, []) == s
  {}

  lemma {:induction false} AfterAppend(o: Oracles, pol: Policy, s: State, a: seq<Step>, b: seq<Step>)
    ensures After(o, pol, s, a + b) == After(o, pol, After(o, pol, s, a), b)
  {
    hide Next, After;
    if b == [] {
      assert a + b == a;
      AfterNone(o, pol, After(o, pol, s, a));
    } else {
      var front, step := b[..|b| - 1], b[|b| - 1];
      AfterAppend(o, pol, s, a, front);
      AfterOne(o, pol, s, a + front, step);
      AfterOne(o, pol, After(o, pol, s, a), front, step);
      assert b == front + [step] && a + b == a + front + [step];
    }
  }

  // ---- what every interleaving keeps ------------------------------------------------

  predicate NonceAnswer(blocks: seq<N.Block>, at: nat, nonce: string, answer: N.Answer)
  {
    && at < |blocks| && blocks[at].Consume? && blocks[at].nonce == nonce
    && answer == N.AnswerTo(N.After(blocks[..at]), nonce, blocks[at].now)
  }

  predicate Ascending(s: State, seen: seq<nat>)
  {
    && (forall i, j | 0 <= i < j < |seen| :: seen[i] < seen[j])
    && (forall i | 0 <= i < |seen| :: seen[i] < |s.past|)
  }

  // A finished handler's verdict is what its own nonce block and its own reads say.
  predicate Evidence(o: Oracles, pol: Policy, s: State, t: Thread)
  {
    match t.phase
    case Begun => true
    case Cleared => t.kind.Enrolling?
    case Checking(answer, at, seen) =>
      NonceAnswer(s.blocks, at, t.report.nonce, answer) && |seen| <= 5 && Ascending(s, seen)
    case Done(ok, at, seen) =>
      && at < |s.blocks| && s.blocks[at].Consume? && s.blocks[at].nonce == t.report.nonce
      && |seen| == 5 && Ascending(s, seen)
      && (ok <==> N.Accepted(s.blocks, at) && ChecksAt(o, pol, ViewsOf(s, seen), t.report).None?)
  }

  predicate Burnt(t: Thread) { t.phase.Checking? || t.phase.Done? }

  function BlockOf(t: Thread): nat
    requires Burnt(t)
  {
    t.phase.at
  }

  predicate DistinctBlocks(threads: seq<Thread>)
  {
    forall p, q | 0 <= p < q < |threads| && Burnt(threads[p]) && Burnt(threads[q]) ::
      BlockOf(threads[p]) != BlockOf(threads[q])
  }

  predicate HasRoot(rows: seq<Baseline>, root: string) { exists i :: 0 <= i < |rows| && rows[i].root == root }

  predicate KnowsRoot(rows: seq<Baseline>, t: Thread)
  {
    t.kind.Enrolling? && t.kind.current.Some? ==> HasRoot(rows, t.kind.current.value)
  }

  predicate Good(o: Oracles, pol: Policy, s: State)
  {
    && s.db.nonces == N.After(s.blocks)
    && Ordered(s.db.baselines)
    && (forall q | 0 <= q < |s.threads| :: Evidence(o, pol, s, s.threads[q]) && KnowsRoot(s.db.baselines, s.threads[q]))
    && DistinctBlocks(s.threads)
  }

  // Rows are only added, and a row's root never changes.
  predicate SameRoots(rows: seq<Baseline>, rows': seq<Baseline>)
  {
    |rows| <= |rows'| && forall i | 0 <= i < |rows| :: rows'[i].root == rows[i].root
  }

  predicate Extends(s: State, s': State)
  {
    && s.blocks <= s'.blocks && s.past + [s.db] == s'.past
    && SameRoots(s.db.baselines, s'.db.baselines)
  }

  lemma ThreadStays(o: Oracles, pol: Policy, s: State, s': State, t: Thread)
    requires Extends(s, s') && Evidence(o, pol, s, t) && KnowsRoot(s.db.baselines, t)
    ensures Evidence(o, pol, s', t) && KnowsRoot(s'.db.baselines, t)
  {
    hide ChecksAt, N.AnswerTo, N.After;
    if Burnt(t) {
      assert s'.blocks[..BlockOf(t)] == s.blocks[..BlockOf(t)];
    }
    if t.phase.Done? {
      assert ViewsOf(s', t.phase.seen) == ViewsOf(s, t.phase.seen);
    }
    if t.kind.Enrolling? && t.kind.current.Some? {
      var i :| 0 <= i < |s.db.baselines| && s.db.baselines[i].root == t.kind.current.value;
      assert s'.db.baselines[i].root == t.kind.current.value;
    }
  }

  predicate TablesGood(s: State) { s.db.nonces == N.After(s.blocks) && Ordered(s.db.baselines) }

  lemma SameThreads(o: Oracles, pol: Policy, s: State, s': State)
    requires Good(o, pol, s) && Extends(s, s') && TablesGood(s') && s'.threads == s.threads
    ensures Good(o, pol, s')
  {
    hide Evidence, KnowsRoot, Ordered, Extends;
    forall q | 0 <= q < |s.threads|
      ensures Evidence(o, pol, s', s.threads[q]) && KnowsRoot(s'.db.baselines, s.threads[q])
    {
      ThreadStays(o, pol, s, s', s.threads[q]);
    }
  }

  lemma NewThread(o: Oracles, pol: Policy, s: State, s': State, t: Thread)
    requires Good(o, pol, s) && Extends(s, s') && TablesGood(s') && s'.threads == s.threads + [t]
    requires t.phase == Begun && KnowsRoot(s'.db.baselines, t)
    ensures Good(o, pol, s')
  {
    hide KnowsRoot, Ordered, Extends;
    forall q | 0 <= q < |s'.threads|
      ensures Evidence(o, pol, s', s'.threads[q]) && KnowsRoot(s'.db.baselines, s'.threads[q])
    {
      if q < |s.threads| {
        ThreadStays(o, pol, s, s', s.threads[q]);
      }
    }
  }

  lemma OldBlocks(o: Oracles, pol: Policy, s: State, q: nat)
    requires Good(o, pol, s) && q < |s.threads| && Burnt(s.threads[q])
    ensures BlockOf(s.threads[q]) < |s.blocks|
  {
    assert Evidence(o, pol, s, s.threads[q]);
  }

  // Handler q moves on, keeping its nonce block or taking the new one.
  lemma MoveKeeps(o: Oracles, pol: Policy, s: State, s': State, q: nat, t: Thread)
    requires Good(o, pol, s) && Extends(s, s') && TablesGood(s')
    requires q < |s.threads| && s'.threads == s.threads[q := t]
    requires Evidence(o, pol, s', t) && t.kind == s.threads[q].kind
    requires Burnt(t) ==> BlockOf(t) == if Burnt(s.threads[q]) then BlockOf(s.threads[q]) else |s.blocks|
    ensures Good(o, pol, s')
  {
    hide Evidence, Ordered, Extends;
    forall p | 0 <= p < |s.threads|
      ensures Evidence(o, pol, s', s'.threads[p]) && KnowsRoot(s'.db.baselines, s'.threads[p])
    {
      ThreadStays(o, pol, s, s', s.threads[p]);
    }
    hide KnowsRoot;
    forall p | 0 <= p < |s.threads| && Burnt(s.threads[p]) ensures BlockOf(s.threads[p]) < |s.blocks| {
      OldBlocks(o, pol, s, p);
    }
  }

  lemma RowsStayOrdered(rows: seq<Baseline>, root: string)
    requires Ordered(rows)
    ensures Ordered(Deactivated(rows)) && SameRoots(rows, Deactivated(rows))
    ensures Ordered(Restored(rows, root)) && SameRoots(rows, Restored(rows, root))
    ensures Pin(Deactivated(rows)) == Pin(rows) && Pin(Restored(rows, root)) == Pin(rows)
  {
    hide MaxId, WithRoot, Lower;
  }

  lemma PinnedRows(rows: seq<Baseline>, root: string, pcrs: Pcrs)
    requires Ordered(rows) && |root| == 64
    ensures Ordered(Pinned(rows, root, pcrs)) && SameRoots(rows, Pinned(rows, root, pcrs))
    ensures OneActive(Pinned(rows, root, pcrs)) && Pin(Pinned(rows, root, pcrs)) == Some((Lower(root), pcrs))
  {
    PinKeepsOneActive(rows, root, pcrs);
    hide MaxId, Lower, Ordered;
  }

  lemma PassedRootLength(o: Oracles, pol: Policy, v: Views, r: Report)
    requires ChecksAt(o, pol, v, r).None?
    ensures |r.merkleRoot| == 64
  {
    hide QuoteFailure, StrictFailure, PcrFailure, PinFailure, ParsesBase16;
  }

  // The abstract pin moves exactly when an enrolment closes with success.
  predicate Pins(o: Oracles, pol: Policy, s: State, step: Step)
  {
    step.Close? && CanClose(s, step.q) && s.threads[step.q].kind.Enrolling? && Verdict(o, pol, s, step.q)
  }

  function MovedPin(o: Oracles, pol: Policy, s: State, step: Step, pin: Option<(string, Pcrs)>): Option<(string, Pcrs)>
  {
    if Pins(o, pol, s, step) then Some((Lower(s.threads[step.q].report.merkleRoot), s.threads[step.q].report.pcrs))
    else pin
  }

  lemma RowsAfter(o: Oracles, pol: Policy, s: State, step: Step)
    requires Ordered(s.db.baselines)
    ensures var rows := Next(o, pol, s, step).db.baselines;
      Ordered(rows) && SameRoots(s.db.baselines, rows)
      && Pin(rows) == MovedPin(o, pol, s, step, Pin(s.db.baselines))
  {
    hide Ordered, Pin, SameRoots, Pinned, Restored, Deactivated, ChecksAt, N.AnswerTo, N.Next, Lower, ActiveRow;
    var rows := s.db.baselines;
    assert SameRoots(rows, rows) by { RootsOfSame(rows); }
    match step
    case Clear(q) => RowsStayOrdered(rows, "");
    case Close(q) =>
      if CanClose(s, q) {
        var t := s.threads[q];
        if t.kind.Enrolling? {
          if Verdict(o, pol, s, q) {
            PassedRootLength(o, pol, ViewsOf(s, t.phase.seen), t.report);
            PinnedRows(rows, t.report.merkleRoot, t.report.pcrs);
          } else if Truthy(t.kind.current) {
            RowsStayOrdered(rows, t.kind.current.value);
          }
        }
      }
    case _ =>
  }

  lemma RootsOfSame(rows: seq<Baseline>)
    ensures SameRoots(rows, rows)
  {}

  lemma {:induction false} ActiveIsRow(rows: seq<Baseline>)
    ensures ActiveRoot(rows).Some? ==> HasRoot(rows, ActiveRoot(rows).value)
  {
    if rows != [] {
      var last := |rows| - 1;
      ActiveIsRow(rows[..last]);
      assert rows[last].root == rows[last].root;
      if ActiveRoot(rows[..last]).Some? && HasRoot(rows[..last], ActiveRoot(rows[..last]).value) {
        var i :| 0 <= i < last && rows[..last][i].root == ActiveRoot(rows[..last]).value;
        assert rows[i].root == ActiveRoot(rows[..last]).value;
      }
    }
  }

  lemma BlocksAfter(o: Oracles, pol: Policy, s: State, step: Step)
    requires s.db.nonces == N.After(s.blocks)
    ensures var s' := Next(o, pol, s, step);
      s.blocks <= s'.blocks && s.past + [s.db] == s'.past && s'.db.nonces == N.After(s'.blocks)
  {
    hide ClosedRows, Deactivated, Passes, N.AnswerTo, N.Next, ActiveRow;
    var blocks := Next(o, pol, s, step).blocks;
    if blocks != s.blocks {
      assert blocks[..|s.blocks|] == s.blocks;
    }
  }

  lemma TablesAfter(o: Oracles, pol: Policy, s: State, step: Step)
    requires TablesGood(s)
    ensures Extends(s, Next(o, pol, s, step)) && TablesGood(Next(o, pol, s, step))
  {
    hide Next, Ordered, SameRoots, N.After, MovedPin, Pin;
    RowsAfter(o, pol, s, step);
    BlocksAfter(o, pol, s, step);
  }

  lemma EvidenceOf(o: Oracles, pol: Policy, s: State, q: nat)
    requires Good(o, pol, s) && q < |s.threads|
    ensures Evidence(o, pol, s, s.threads[q]) && s.db.nonces == N.After(s.blocks)
  {}

  lemma BurnKeeps(o: Oracles, pol: Policy, s: State, q: nat, now: Instant)
    requires Good(o, pol, s) && Extends(s, Next(o, pol, s, Burn(q, now))) && TablesGood(Next(o, pol, s, Burn(q, now)))
    requires CanBurn(s, q)
    ensures Good(o, pol, Next(o, pol, s, Burn(q, now)))
  {
    var s' := Next(o, pol, s, Burn(q, now));
    hide Good, Extends, TablesGood, ChecksAt, N.AnswerTo, N.Next, N.After;
    EvidenceOf(o, pol, s, q);
    assert s'.blocks[..|s.blocks|] == s.blocks;
    MoveKeeps(o, pol, s, s', q, s'.threads[q]);
  }

  lemma LookKeeps(o: Oracles, pol: Policy, s: State, q: nat)
    requires Good(o, pol, s) && Extends(s, Next(o, pol, s, Look(q))) && TablesGood(Next(o, pol, s, Look(q)))
    requires CanLook(s, q)
    ensures Good(o, pol, Next(o, pol, s, Look(q)))
  {
    var s' := Next(o, pol, s, Look(q));
    hide Good, Extends, TablesGood, ChecksAt, N.AnswerTo, N.Next, N.After;
    EvidenceOf(o, pol, s, q);
    MoveKeeps(o, pol, s, s', q, s'.threads[q]);
  }

  lemma CloseKeeps(o: Oracles, pol: Policy, s: State, q: nat)
    requires Good(o, pol, s) && Extends(s, Next(o, pol, s, Close(q))) && TablesGood(Next(o, pol, s, Close(q)))
    requires CanClose(s, q)
    ensures Good(o, pol, Next(o, pol, s, Close(q)))
  {
    var s', seen := Next(o, pol, s, Close(q)), s.threads[q].phase.seen;
    hide Good, Extends, TablesGood, ChecksAt, N.AnswerTo, N.Next, N.After, ClosedRows;
    EvidenceOf(o, pol, s, q);
    assert ViewsOf(s', seen) == ViewsOf(s, seen);
    MoveKeeps(o, pol, s, s', q, s'.threads[q]);
  }

  // No step, in any interleaving, breaks any of it.
  lemma NextKeepsGood(o: Oracles, pol: Policy, s: State, step: Step)
    requires Good(o, pol, s)
    ensures Good(o, pol, Next(o, pol, s, step))
  {
    var s' := Next(o, pol, s, step);
    TablesAfter(o, pol, s, step);
    hide Good, Extends, TablesGood, ChecksAt, N.AnswerTo, N.Next, N.After, ActiveRow, ClosedRows, Challenged,
         Registered;
    match step
    case BeginAttest(r) => NewThread(o, pol, s, s', Thread(Attesting, r, Begun));
    case BeginEnroll(r) =>
      BegunKnowsRoot(s.db.baselines, r);
      NewThread(o, pol, s, s', Thread(Enrolling(ActiveRoot(s.db.baselines)), r, Begun));
    case Clear(q) =>
      if CanClear(s, q) {
        MoveKeeps(o, pol, s, s', q, s'.threads[q]);
      } else {
        SameThreads(o, pol, s, s');
      }
    case Burn(q, now) =>
      if CanBurn(s, q) {
        BurnKeeps(o, pol, s, q, now);
      } else {
        SameThreads(o, pol, s, s');
      }
    case Look(q) =>
      if CanLook(s, q) {
        LookKeeps(o, pol, s, q);
      } else {
        SameThreads(o, pol, s, s');
      }
    case Close(q) =>
      if CanClose(s, q) {
        CloseKeeps(o, pol, s, q);
      } else {
        SameThreads(o, pol, s, s');
      }
    case _ => SameThreads(o, pol, s, s');
  }

  lemma BegunKnowsRoot(rows: seq<Baseline>, r: Report)
    ensures KnowsRoot(rows, Thread(Enrolling(ActiveRoot(rows)), r, Begun))
  {
    ActiveIsRow(rows);
  }

  lemma StartIsGood(o: Oracles, pol: Policy)
    ensures Good(o, pol, START)
  {}

  lemma {:induction false} RunIsGood(o: Oracles, pol: Policy, steps: seq<Step>)
    ensures Good(o, pol, After(o, pol, START, steps))
  {
    if steps == [] {
      StartIsGood(o, pol);
    } else {
      hide Good, Next;
      var last := |steps| - 1;
      RunIsGood(o, pol, steps[..last]);
      NextKeepsGood(o, pol, After(o, pol, START, steps[..last]), steps[last]);
    }
  }

  // A handler that answered status 200 has a recognised nonce of its own, and the checks
  // passed on the tables as they were at its five reads.
  predicate Succeeded(o: Oracles, pol: Policy, s: State, q: nat)
  {
    && q < |s.threads| && s.threads[q].phase.Done? && s.threads[q].phase.ok
    && |s.threads[q].phase.seen| == 5
    && ChecksAt(o, pol, ViewsOf(s, s.threads[q].phase.seen), s.threads[q].report).None?
    && var at := s.threads[q].phase.at;
    && at < |s.blocks| && N.Accepted(s.blocks, at) && s.blocks[at].nonce == s.threads[q].report.nonce
  }

  // Main result: every status 200 is such a one, and different ones have different nonce
  // blocks and different issues, each at most 120 seconds before.
  lemma SuccessesHaveOwnIssues(o: Oracles, pol: Policy, s: State, p: nat, q: nat)
    requires Good(o, pol, s) && p < |s.threads| && q < |s.threads|
    requires s.threads[p].phase.Done? && s.threads[p].phase.ok && s.threads[q].phase.Done? && s.threads[q].phase.ok
    ensures Succeeded(o, pol, s, p) && Succeeded(o, pol, s, q)
    ensures var i, j := s.threads[p].phase.at, s.threads[q].phase.at;
      && N.Backs(s.blocks, N.Source(s.blocks, i), i) && N.Backs(s.blocks, N.Source(s.blocks, j), j)
      && (p != q ==> i != j && N.Source(s.blocks, i) != N.Source(s.blocks, j))
  {
    EvidenceOf(o, pol, s, p);
    EvidenceOf(o, pol, s, q);
    DistinctOf(o, pol, s, p, q);
    hide Good, ChecksAt, N.Accepted, N.Backs;
    var i, j := s.threads[p].phase.at, s.threads[q].phase.at;
    if p != q && N.Source(s.blocks, i) == N.Source(s.blocks, j) {
      N.OneAcceptancePerIssue(s.blocks, N.Source(s.blocks, i), i, j);
    }
  }

  lemma DistinctOf(o: Oracles, pol: Policy, s: State, p: nat, q: nat)
    requires Good(o, pol, s) && p < |s.threads| && q < |s.threads|
    requires s.threads[p].phase.Done? && s.threads[q].phase.Done?
    ensures p != q ==> s.threads[p].phase.at != s.threads[q].phase.at
  {
    assert Burnt(s.threads[p]) && Burnt(s.threads[q]);
  }

  function PinTrace(o: Oracles, pol: Policy, steps: seq<Step>): Option<(string, Pcrs)>
  {
    if steps == [] then None
    else
      var front := steps[..|steps| - 1];
      MovedPin(o, pol, After(o, pol, START, front), steps[|steps| - 1], PinTrace(o, pol, front))
  }

  // In every interleaving the last row is the last successful enrolment; what others can
  // spoil is only which rows are active.
  lemma {:induction false} LastRowIsLastEnrolment(o: Oracles, pol: Policy, steps: seq<Step>)
    ensures Pin(After(o, pol, START, steps).db.baselines) == PinTrace(o, pol, steps)
  {
    if steps == [] {
      assert START.db.baselines == [];
    } else {
      hide Good, Next, Pin, MovedPin, Ordered;
      var last := |steps| - 1;
      var s := After(o, pol, START, steps[..last]);
      RunIsGood(o, pol, steps[..last]);
      LastRowIsLastEnrolment(o, pol, steps[..last]);
      RowsAfter(o, pol, s, steps[last]) by { GoodRows(o, pol, s); }
    }
  }

  lemma GoodRows(o: Oracles, pol: Policy, s: State)
    requires Good(o, pol, s)
    ensures Ordered(s.db.baselines)
  {}

  function PinnedRoot(pin: Option<(string, Pcrs)>): Option<string>
  {
    match pin case None => None case Some(p) => Some(p.0)
  }

  // ---- which row a failing enrolment switches on -----------------------------------------

  // Index of the last row with this root, -1 for none.
  function LastWith(rows: seq<Baseline>, root: string): (t: int)
    ensures -1 <= t < |rows|
    ensures t >= 0 ==> rows[t].root == root
    ensures forall i | t < i < |rows| :: rows[i].root != root
  {
    if rows == [] then -1
    else if rows[|rows| - 1].root == root then |rows| - 1
    else LastWith(rows[..|rows| - 1], root)
  }

  lemma {:induction false} MaxIdWithRoot(rows: seq<Baseline>, root: string)
    requires Ordered(rows) && LastWith(rows, root) >= 0
    ensures MaxId(WithRoot(rows, root)) == rows[LastWith(rows, root)].id
  {
    hide Lower;
    var last := |rows| - 1;
    var front, row := rows[..last], rows[last];
    if row.root == root {
      var w := WithRoot(front, root);
      assert WithRoot(rows, root) == w + [row] && (w + [row])[..|w|] == w;
      WithRootBelow(front, root, row.id);
      MaxIdLeast(w, row.id);
    } else {
      MaxIdWithRoot(front, root);
      assert WithRoot(rows, root) == WithRoot(front, root);
    }
  }

  lemma RestoredIsOneRow(rows: seq<Baseline>, root: string)
    requires Ordered(rows) && LastWith(rows, root) >= 0
    ensures var t := LastWith(rows, root); Restored(rows, root) == rows[t := rows[t].(active := true)]
  {
    MaxIdWithRoot(rows, root);
    hide MaxId, WithRoot, LastWith, Lower;
    var t := LastWith(rows, root);
    assert forall i | 0 <= i < |rows| && i != t :: rows[i].id != rows[t].id;
  }

  predicate OnlyActive(rows: seq<Baseline>, t: nat)
  {
    t < |rows| && forall i | 0 <= i < |rows| :: rows[i].active <==> i == t
  }

  predicate OthersOff(rows: seq<Baseline>, t: int) { forall i | 0 <= i < |rows| && i != t :: !rows[i].active }

  // Restoring leaves a single active row exactly when no row but its target is active
  // when it fires, and a sound table exactly when the target is also the last row.
  lemma RestoreLeavesOneActiveIff(rows: seq<Baseline>, root: string)
    requires Ordered(rows) && HasRoot(rows, root)
    ensures (exists k: nat :: OnlyActive(Restored(rows, root), k)) <==> OthersOff(rows, LastWith(rows, root))
    ensures OneActive(Restored(rows, root))
      <==> OthersOff(rows, LastWith(rows, root)) && rows[|rows| - 1].root == root
  {
    var t := LastWith(rows, root);
    RestoredIsOneRow(rows, root);
    RowsStayOrdered(rows, root);
    hide Restored, Ordered;
    var after := Restored(rows, root);
    assert after[t].active;
    if OthersOff(rows, t) {
      assert OnlyActive(after, t);
    }
    forall k: nat | OnlyActive(after, k) ensures OthersOff(rows, t) {
      assert k == t;
      forall i | 0 <= i < |rows| && i != t ensures !rows[i].active {
        assert after[i] == rows[i];
      }
    }
  }

  // The closing block of an enrolment leaves a sound table exactly when it pins, or puts
  // back the last row with all others off, or had nothing to put back in a sound table.
  lemma CloseLeavesOneActiveIff(o: Oracles, pol: Policy, s: State, q: nat)
    requires Good(o, pol, s) && CanClose(s, q) && s.threads[q].kind.Enrolling?
    ensures var rows, current := s.db.baselines, s.threads[q].kind.current;
      OneActive(Next(o, pol, s, Close(q)).db.baselines) <==>
        || Verdict(o, pol, s, q)
        || (current.Some? && OthersOff(rows, LastWith(rows, current.value)) && current == PinnedRoot(Pin(rows)))
        || (current.None? && OneActive(rows))
  {
    hide Good, Next, Verdict, Restored, Pinned, OneActive, Ordered, OthersOff, LastWith, Pin, HasRoot;
    var rows, current := s.db.baselines, s.threads[q].kind.current;
    GoodRows(o, pol, s);
    CurrentKnown(o, pol, s, q);
    RowsAfterClose(o, pol, s, q);
    if Verdict(o, pol, s, q) {
      PassedAtClose(o, pol, s, q);
    } else if current.Some? {
      RestoreLeavesOneActiveIff(rows, current.value);
      KnownPin(rows, current.value);
    }
  }

  lemma KnownPin(rows: seq<Baseline>, root: string)
    requires HasRoot(rows, root)
    ensures rows != [] && (Some(root) == PinnedRoot(Pin(rows)) <==> rows[|rows| - 1].root == root)
  {}

  lemma PassedAtClose(o: Oracles, pol: Policy, s: State, q: nat)
    requires CanClose(s, q) && Verdict(o, pol, s, q) && Ordered(s.db.baselines)
    ensures OneActive(Pinned(s.db.baselines, s.threads[q].report.merkleRoot, s.threads[q].report.pcrs))
  {
    hide ChecksAt, Ordered, OneActive, Pinned, Pin;
    var r := s.threads[q].report;
    PassedRootLength(o, pol, ViewsOf(s, s.threads[q].phase.seen), r);
    PinnedRows(s.db.baselines, r.merkleRoot, r.pcrs);
  }

  lemma RowsAfterClose(o: Oracles, pol: Policy, s: State, q: nat)
    requires CanClose(s, q)
    ensures var t := s.threads[q];
      Next(o, pol, s, Close(q)).db.baselines == ClosedRows(s.db.baselines, t.kind, t.report, Verdict(o, pol, s, q))
  {
    hide Passes, ClosedRows;
  }

  predicate LastActive(rows: seq<Baseline>) { rows != [] && rows[|rows| - 1].active }

  // Every reader of the active row reads the last one.
  predicate LastIsRead(rows: seq<Baseline>) { rows != [] && ActiveRow(rows) == Some(rows[|rows| - 1]) }

  lemma LastIsReadIff(rows: seq<Baseline>)
    requires Ordered(rows)
    ensures LastIsRead(rows) <==> LastActive(rows)
  {
    hide Lower;
    if rows != [] {
      ActiveIdBelow(rows[..|rows| - 1], rows[|rows| - 1].id);
    }
  }

  lemma {:induction false} ActiveIdBelow(rows: seq<Baseline>, id: nat)
    requires forall i | 0 <= i < |rows| :: rows[i].id < id
    ensures ActiveRow(rows).Some? ==> ActiveRow(rows).value.id < id && ActiveRow(rows).value.active
  {
    if rows != [] {
      ActiveIdBelow(rows[..|rows| - 1], id);
    }
  }

  // After a failing enrolment readers read the last enrolled row exactly when they did
  // before, or it has the root the enrolment read at its start.
  lemma FailingCloseKeepsLastIff(o: Oracles, pol: Policy, s: State, q: nat)
    requires Good(o, pol, s) && CanClose(s, q) && s.threads[q].kind.Enrolling? && !Verdict(o, pol, s, q)
    ensures LastIsRead(Next(o, pol, s, Close(q)).db.baselines)
      <==> LastIsRead(s.db.baselines)
           || (s.db.baselines != [] && s.threads[q].kind.current == PinnedRoot(Pin(s.db.baselines)))
  {
    hide Good, Next, Verdict, Restored, LastActive, LastIsRead, Ordered, Pin, LastWith;
    var rows, current := s.db.baselines, s.threads[q].kind.current;
    GoodRows(o, pol, s);
    CurrentKnown(o, pol, s, q);
    RowsAfterClose(o, pol, s, q);
    RowsAfter(o, pol, s, Close(q));
    LastIsReadIff(rows);
    LastIsReadIff(Next(o, pol, s, Close(q)).db.baselines);
    if current.Some? {
      RestoreAndLast(rows, current.value);
    } else {
      PinOfRows(rows);
    }
  }

  lemma PinOfRows(rows: seq<Baseline>)
    ensures Pin(rows).Some? <==> rows != []
  {}

  lemma RestoreAndLast(rows: seq<Baseline>, root: string)
    requires Ordered(rows) && LastWith(rows, root) >= 0
    ensures rows != [] && Pin(rows).Some?
    ensures LastActive(Restored(rows, root)) <==> LastActive(rows) || Some(root) == PinnedRoot(Pin(rows))
  {
    RestoredIsOneRow(rows, root);
    hide Restored, Ordered;
  }

  lemma CurrentKnown(o: Oracles, pol: Policy, s: State, q: nat)
    requires Good(o, pol, s) && q < |s.threads| && s.threads[q].kind.Enrolling?
    ensures var current := s.threads[q].kind.current;
      current.Some? ==> Truthy(current) && HasRoot(s.db.baselines, current.value)
                        && LastWith(s.db.baselines, current.value) >= 0
  {
    assert KnowsRoot(s.db.baselines, s.threads[q]);
  }

  // ---- the same along a trace --------------------------------------------------------------

  lemma ThreadKept(o: Oracles, pol: Policy, s: State, step: Step, q: nat)
    requires q < |s.threads|
    ensures var s' := Next(o, pol, s, step);
      q < |s'.threads| && s'.threads[q].kind == s.threads[q].kind && s'.threads[q].report == s.threads[q].report
  {
    hide ChecksAt, N.AnswerTo, N.Next, Pinned, Restored, Deactivated, ActiveRow;
  }

  lemma {:induction false} KindKept(o: Oracles, pol: Policy, steps: seq<Step>, i: nat, j: nat, q: nat)
    requires i <= j <= |steps| && q < |After(o, pol, START, steps[..i]).threads|
    ensures var s, s' := After(o, pol, START, steps[..i]), After(o, pol, START, steps[..j]);
      q < |s'.threads| && s'.threads[q].kind == s.threads[q].kind && s'.threads[q].report == s.threads[q].report
    decreases j
  {
    hide Next;
    if i < j {
      KindKept(o, pol, steps, i, j - 1, q);
      assert steps[..j][..j - 1] == steps[..j - 1];
      ThreadKept(o, pol, After(o, pol, START, steps[..j - 1]), steps[j - 1], q);
    }
  }

  lemma TraceNext(o: Oracles, pol: Policy, steps: seq<Step>, k: nat)
    requires k < |steps|
    ensures var s := After(o, pol, START, steps[..k]);
      && After(o, pol, START, steps[..k + 1]) == Next(o, pol, s, steps[k])
      && PinTrace(o, pol, steps[..k + 1]) == MovedPin(o, pol, s, steps[k], PinTrace(o, pol, steps[..k]))
  {
    hide Next, MovedPin;
    assert steps[..k + 1][..k] == steps[..k];
  }

  // Step j closes, with failure, the enrolment begun at step i.
  predicate FailsAt(o: Oracles, pol: Policy, steps: seq<Step>, i: nat, j: nat)
  {
    && i < j < |steps| && steps[i].BeginEnroll?
    && var q, s := |After(o, pol, START, steps[..i]).threads|, After(o, pol, START, steps[..j]);
    && steps[j] == Close(q) && CanClose(s, q) && !Verdict(o, pol, s, q)
  }

  predicate PinsAt(o: Oracles, pol: Policy, steps: seq<Step>, k: nat)
    requires k < |steps|
  {
    Pins(o, pol, After(o, pol, START, steps[..k]), steps[k])
  }

  // Main result, in every interleaving.  After a failing enrolment readers read the last
  // enrolled baseline exactly when another handler had already switched it on, or its own
  // first read saw the root of that baseline.  With no enrolment pinned in between, that
  // is the baseline of the moment of the read.
  lemma FailingEnrolmentKeepsPinIff(o: Oracles, pol: Policy, steps: seq<Step>, i: nat, j: nat)
    requires FailsAt(o, pol, steps, i, j)
    ensures var pin := PinTrace(o, pol, steps[..j]);
      LastIsRead(After(o, pol, START, steps[..j + 1]).db.baselines)
      <==> LastIsRead(After(o, pol, START, steps[..j]).db.baselines)
           || (pin.Some? && ActiveRoot(After(o, pol, START, steps[..i]).db.baselines) == Some(pin.value.0))
    ensures Pin(After(o, pol, START, steps[..j + 1]).db.baselines) == PinTrace(o, pol, steps[..j])
    ensures (forall k | i < k < j :: !PinsAt(o, pol, steps, k)) ==>
      PinTrace(o, pol, steps[..j]) == PinTrace(o, pol, steps[..i])
  {
    hide Next, Stepped, MovedPin, Good, Verdict, LastIsRead, ActiveRow;
    LastRowIsLastEnrolment(o, pol, steps[..j + 1]);
    var s := After(o, pol, START, steps[..i]);
    BeginReads(o, pol, s, steps[i]);
    TraceNext(o, pol, steps, i);
    TraceNext(o, pol, steps, j);
    KindKept(o, pol, steps, i + 1, j, |s.threads|);
    RunIsGood(o, pol, steps[..j]);
    LastRowIsLastEnrolment(o, pol, steps[..j]);
    FailingCloseKeepsLastIff(o, pol, After(o, pol, START, steps[..j]), |s.threads|);
    FailureMovesNoPin(o, pol, After(o, pol, START, steps[..j]), steps[j], PinTrace(o, pol, steps[..j]));
    if forall k | i < k < j :: !PinsAt(o, pol, steps, k) {
      PinTraceStays(o, pol, steps, i + 1, j);
      PinTraceAtBegin(o, pol, s, steps[i], PinTrace(o, pol, steps[..i]));
    }
  }

  lemma FailureMovesNoPin(o: Oracles, pol: Policy, s: State, step: Step, pin: Option<(string, Pcrs)>)
    requires step.Close? && CanClose(s, step.q) && !Verdict(o, pol, s, step.q)
    ensures MovedPin(o, pol, s, step, pin) == pin
  {
    hide Verdict;
  }

  lemma BeginReads(o: Oracles, pol: Policy, s: State, step: Step)
    requires step.BeginEnroll?
    ensures var s' := Next(o, pol, s, step);
      |s'.threads| == |s.threads| + 1 && s'.threads[|s.threads|].kind == Enrolling(ActiveRoot(s.db.baselines))
  {
    hide ActiveRow;
  }

  lemma PinTraceAtBegin(o: Oracles, pol: Policy, s: State, step: Step, pin: Option<(string, Pcrs)>)
    requires step.BeginEnroll?
    ensures MovedPin(o, pol, s, step, pin) == pin
  {}

  lemma {:induction false} PinTraceStays(o: Oracles, pol: Policy, steps: seq<Step>, i: nat, j: nat)
    requires i <= j <= |steps| && forall k | i <= k < j :: !PinsAt(o, pol, steps, k)
    ensures PinTrace(o, pol, steps[..j]) == PinTrace(o, pol, steps[..i])
    decreases j
  {
    hide Pins, PinTrace, After;
    if i < j {
      PinTraceStays(o, pol, steps, i, j - 1);
      TraceNext(o, pol, steps, j - 1);
      assert !PinsAt(o, pol, steps, j - 1);
    }
  }

  // ---- one enrolment at a time ---------------------------------------------------------------

  predicate Open(t: Thread) { t.kind.Enrolling? && !t.phase.Done? }

  predicate Clearing(t: Thread) { t.kind.Enrolling? && (t.phase.Cleared? || t.phase.Checking?) }

  predicate AllClosed(s: State) { forall q | 0 <= q < |s.threads| :: !Open(s.threads[q]) }

  predicate NoneClearing(s: State) { forall q | 0 <= q < |s.threads| :: !Clearing(s.threads[q]) }

  // Attestations, challenges and registrations may still run at any time.
  predicate OneAtATime(o: Oracles, pol: Policy, steps: seq<Step>)
  {
    forall k | 0 <= k < |steps| && steps[k].BeginEnroll? :: AllClosed(After(o, pol, START, steps[..k]))
  }

  predicate AllOff(rows: seq<Baseline>) { forall i | 0 <= i < |rows| :: !rows[i].active }

  predicate OpenSound(rows: seq<Baseline>, t: Thread)
  {
    && t.kind.Enrolling? && t.kind.current == PinnedRoot(Pin(rows))
    && (if Clearing(t) then Ordered(rows) && AllOff(rows) else OneActive(rows))
  }

  predicate Orderly(s: State)
  {
    && (forall p, q | 0 <= p < q < |s.threads| && Open(s.threads[p]) :: !Open(s.threads[q]))
    && (AllClosed(s) ==> OneActive(s.db.baselines))
    && (forall q | 0 <= q < |s.threads| && Open(s.threads[q]) :: OpenSound(s.db.baselines, s.threads[q]))
  }

  lemma ClearSound(rows: seq<Baseline>, t: Thread)
    requires t.phase == Begun && OpenSound(rows, t)
    ensures OpenSound(Deactivated(rows), t.(phase := Cleared))
  {
    RowsStayOrdered(rows, "");
    hide Pin, Ordered;
  }

  lemma CloseSound(rows: seq<Baseline>, t: Thread, ok: bool)
    requires Clearing(t) && OpenSound(rows, t) && (ok ==> |t.report.merkleRoot| == 64)
    ensures OneActive(ClosedRows(rows, t.kind, t.report, ok))
  {
    if ok {
      PinnedRows(rows, t.report.merkleRoot, t.report.pcrs);
    } else if rows != [] {
      var last := |rows| - 1;
      var root := rows[last].root;
      RestoredIsOneRow(rows, root);
      RowsStayOrdered(rows, root);
      hide Restored, MaxId, WithRoot;
      assert LastWith(rows, root) == last;
    }
  }

  // Only handler q moved, and the rows are as they were.
  lemma OrderlyMove(s: State, s': State, q: nat)
    requires Orderly(s) && q < |s.threads| == |s'.threads| && s'.threads == s.threads[q := s'.threads[q]]
    requires s'.db.baselines == s.db.baselines
    requires var t, t' := s.threads[q], s'.threads[q];
      t'.kind == t.kind && (Open(t') <==> Open(t)) && (Clearing(t') <==> Clearing(t))
    ensures Orderly(s')
  {
    hide OneActive, Ordered, AllOff, Pin;
    if AllClosed(s') {
      forall p | 0 <= p < |s.threads| ensures !Open(s.threads[p]) {
        assert !Open(s'.threads[p]);
      }
    }
  }

  lemma NextKeepsOrderly(o: Oracles, pol: Policy, s: State, step: Step)
    requires Orderly(s) && (step.BeginEnroll? ==> AllClosed(s))
    ensures Orderly(Next(o, pol, s, step))
  {
    var s' := Next(o, pol, s, step);
    hide Orderly, ChecksAt, N.AnswerTo, N.Next, Pinned, Restored, Deactivated, ActiveRow, OneActive, Ordered, AllOff,
         Pin;
    match step
    case Clear(q) =>
      if CanClear(s, q) {
        OrderlyClear(o, pol, s, q);
      } else {
        OrderlyRows(s, s');
      }
    case Close(q) =>
      if CanClose(s, q) {
        OrderlyClose(o, pol, s, q);
      } else {
        OrderlyRows(s, s');
      }
    case Burn(q, _) =>
      if CanBurn(s, q) {
        OrderlyMove(s, s', q);
      } else {
        OrderlyRows(s, s');
      }
    case Look(q) =>
      if CanLook(s, q) {
        OrderlyMove(s, s', q);
      } else {
        OrderlyRows(s, s');
      }
    case BeginAttest(_) => OrderlyBegin(s, s');
    case BeginEnroll(_) => OrderlyBegin(s, s');
    case _ => OrderlyRows(s, s');
  }

  lemma OrderlyRows(s: State, s': State)
    requires Orderly(s) && s'.threads == s.threads && s'.db.baselines == s.db.baselines
    ensures Orderly(s')
  {}

  lemma OrderlyBegin(s: State, s': State)
    requires Orderly(s) && s'.db.baselines == s.db.baselines
    requires |s'.threads| == |s.threads| + 1 && s'.threads[..|s.threads|] == s.threads
    requires var t := s'.threads[|s.threads|];
      t.phase == Begun && (t.kind.Enrolling? ==> AllClosed(s) && t.kind.current == ActiveRoot(s.db.baselines))
    ensures Orderly(s')
  {
    var n := |s.threads|;
    forall q | 0 <= q < n ensures s'.threads[q] == s.threads[q] {
      assert s'.threads[..n][q] == s.threads[q];
    }
    if Open(s'.threads[n]) {
      LastIsActiveRow(s.db.baselines);
    } else if AllClosed(s') {
      assert AllClosed(s);
    }
  }

  lemma OrderlyClear(o: Oracles, pol: Policy, s: State, q: nat)
    requires Orderly(s) && CanClear(s, q)
    ensures Orderly(Next(o, pol, s, Clear(q)))
  {
    assert Open(s.threads[q]);
    ClearSound(s.db.baselines, s.threads[q]);
    hide OpenSound, OneActive, Ordered, AllOff, Pin, Deactivated;
    var s' := Next(o, pol, s, Clear(q));
    assert Open(s'.threads[q]);
  }

  lemma OrderlyClose(o: Oracles, pol: Policy, s: State, q: nat)
    requires Orderly(s) && CanClose(s, q)
    ensures Orderly(Next(o, pol, s, Close(q)))
  {
    var s', t := Next(o, pol, s, Close(q)), s.threads[q];
    if t.kind.Attesting? {
      hide ChecksAt;
      OrderlyMove(s, s', q);
    } else {
      assert Open(t);
      if Verdict(o, pol, s, q) {
        PassedRootLength(o, pol, ViewsOf(s, t.phase.seen), t.report);
      }
      CloseSound(s.db.baselines, t, Verdict(o, pol, s, q));
      hide OpenSound, OneActive, Ordered, AllOff, Pin, ClosedRows, ChecksAt;
    }
  }

  lemma {:induction false} RunIsOrderly(o: Oracles, pol: Policy, steps: seq<Step>)
    requires OneAtATime(o, pol, steps)
    ensures Orderly(After(o, pol, START, steps))
  {
    if steps == [] {
      assert START.threads == [];
    } else {
      hide Orderly, Next, AllClosed;
      var last := |steps| - 1;
      forall k | 0 <= k < last && steps[..last][k].BeginEnroll?
        ensures AllClosed(After(o, pol, START, steps[..last][..k]))
      {
        assert steps[..last][..k] == steps[..k];
      }
      RunIsOrderly(o, pol, steps[..last]);
      NextKeepsOrderly(o, pol, After(o, pol, START, steps[..last]), steps[last]);
    }
  }

  // Main result.  With one enrolment at a time and anything else in between, the table is
  // sound whenever none stands between clearing and closing, and a reader sees the last
  // enrolled root exactly then, or when nothing was ever enrolled.
  lemma OneAtATimeKeepsPin(o: Oracles, pol: Policy, steps: seq<Step>)
    requires OneAtATime(o, pol, steps)
    ensures var s, pin := After(o, pol, START, steps), PinTrace(o, pol, steps);
      && (NoneClearing(s) ==> OneActive(s.db.baselines)) && Pin(s.db.baselines) == pin
      && (ActiveRoot(s.db.baselines) == PinnedRoot(pin) <==> pin.None? || NoneClearing(s))
  {
    var s := After(o, pol, START, steps);
    RunIsOrderly(o, pol, steps);
    LastRowIsLastEnrolment(o, pol, steps);
    hide After, PinTrace;
    OrderlyReaders(s);
  }

  lemma OrderlyReaders(s: State)
    requires Orderly(s)
    ensures NoneClearing(s) ==> OneActive(s.db.baselines)
    ensures var pin := Pin(s.db.baselines);
      ActiveRoot(s.db.baselines) == PinnedRoot(pin) <==> pin.None? || NoneClearing(s)
  {
    var rows := s.db.baselines;
    if NoneClearing(s) {
      if AllClosed(s) {
        LastIsActiveRow(rows);
      } else {
        var q :| 0 <= q < |s.threads| && Open(s.threads[q]);
        LastIsActiveRow(rows);
      }
    } else {
      var q :| 0 <= q < |s.threads| && Clearing(s.threads[q]);
      assert Open(s.threads[q]);
      NoneActive(rows);
    }
  }

  // ---- registration, read twice ------------------------------------------------------------------

  // The moments of a run are the lengths of its prefixes.
  lemma {:induction false} MomentIsPrefix(o: Oracles, pol: Policy, steps: seq<Step>, m: nat)
    requires m <= |steps|
    ensures |After(o, pol, START, steps).past| == |steps|
    ensures At(After(o, pol, START, steps), m) == After(o, pol, START, steps[..m]).db
  {
    hide Stepped;
    var last := |steps| - 1;
    if m == |steps| {
      assert steps[..m] == steps;
    }
    if steps != [] {
      assert steps[..last][..last] == steps[..last];
      MomentIsPrefix(o, pol, steps[..last], if m < |steps| then m else last);
      if m < |steps| {
        assert steps[..last][..m] == steps[..m];
      }
    }
  }

  predicate Vouched(o: Oracles, pol: Policy, machines: map<string, Machine>)
  {
    forall id | id in machines && machines[id].ekVerified ::
      Truthy(machines[id].ekCert) && EkVerdict(o, pol, machines[id].ekCert.value)
  }

  // A registration of this machine that the endpoint does not reject.
  predicate Registers(o: Oracles, pol: Policy, step: Step, id: string)
  {
    && step.Register? && step.req.machineId == id
    && (Truthy(step.req.ekCert) ==> EkVerdict(o, pol, step.req.ekCert.value))
  }

  lemma MachinesAfter(o: Oracles, pol: Policy, s: State, step: Step, id: string)
    requires Vouched(o, pol, s.db.machines)
    ensures var machines := Next(o, pol, s, step).db.machines;
      && Vouched(o, pol, machines)
      && (if Registers(o, pol, step, id)
          then id in machines && machines[id].akPub == step.req.akPub
          else (id in machines <==> id in s.db.machines) && (id in machines ==> machines[id] == s.db.machines[id]))
  {
    hide EkVerdict, ChecksAt, N.AnswerTo, N.Next, ClosedRows, Deactivated, ActiveRow;
  }

  lemma {:induction false} RunIsVouched(o: Oracles, pol: Policy, steps: seq<Step>)
    ensures Vouched(o, pol, After(o, pol, START, steps).db.machines)
  {
    if steps != [] {
      hide Vouched, Next;
      RunIsVouched(o, pol, steps[..|steps| - 1]);
      MachinesAfter(o, pol, After(o, pol, START, steps[..|steps| - 1]), steps[|steps| - 1], "");
    } else {
      assert START.db.machines == map[];
    }
  }

  // The last of these steps that registers the machine, -1 for none.
  function LastRegisters(o: Oracles, pol: Policy, steps: seq<Step>, a: nat, b: nat, id: string): (m: int)
    requires a <= b <= |steps|
    ensures m == -1 || (a <= m < b && Registers(o, pol, steps[m], id))
    ensures forall k | a <= k < b && m < k :: !Registers(o, pol, steps[k], id)
    decreases b
  {
    if a == b then -1
    else if Registers(o, pol, steps[b - 1], id) then b - 1
    else LastRegisters(o, pol, steps, a, b - 1, id)
  }

  predicate SameRow(a: Db, b: Db, id: string)
  {
    (id in a.machines <==> id in b.machines) && (id in a.machines ==> a.machines[id] == b.machines[id])
  }

  // The row is as it was, or has the AK of the last registration since.
  lemma {:induction false} RowSince(o: Oracles, pol: Policy, steps: seq<Step>, a: nat, b: nat, id: string)
    requires a <= b <= |steps|
    ensures var m := LastRegisters(o, pol, steps, a, b, id);
      var first, second := After(o, pol, START, steps[..a]).db, After(o, pol, START, steps[..b]).db;
      if m == -1 then SameRow(first, second, id)
      else id in second.machines && second.machines[id].akPub == steps[m].req.akPub
    decreases b
  {
    hide Next, Vouched, Registers;
    if a < b {
      RowSince(o, pol, steps, a, b - 1, id);
      RunIsVouched(o, pol, steps[..b - 1]);
      MachinesAfter(o, pol, After(o, pol, START, steps[..b - 1]), steps[b - 1], id);
      TraceNext(o, pol, steps, b - 1);
    }
  }

  lemma StrictViews(o: Oracles, pol: Policy, v: Views, r: Report)
    requires pol.strictEk && ChecksAt(o, pol, v, r).None?
    ensures Truthy(r.machineId) && r.machineId.value in v.strict.machines
    ensures v.strict.machines[r.machineId.value].ekVerified && QuoteFailure(o, v.quote, r).None?
  {
    hide QuoteFailure, PcrFailure, RootFailure, PinFailure;
  }

  // Main result on registration, in every interleaving.  Under strict policy a report
  // answered with status 200 names a machine that had an X.509 EK certificate at the
  // second read, and its quote verified under the key found at the first.  That is the AK
  // of the row of the second read if and only if the last registration of the machine in
  // between, if any, brought this very key.
  lemma StrictSuccess(o: Oracles, pol: Policy, steps: seq<Step>, q: nat)
    requires pol.strictEk && q < |After(o, pol, START, steps).threads|
    requires var phase := After(o, pol, START, steps).threads[q].phase; phase.Done? && phase.ok
    ensures var t := After(o, pol, START, steps).threads[q];
      && |t.phase.seen| == 5 && t.phase.seen[0] < t.phase.seen[1] < |steps| && Truthy(t.report.machineId)
      && var a, b, id := t.phase.seen[0], t.phase.seen[1], t.report.machineId.value;
      && var first, second := After(o, pol, START, steps[..a]).db, After(o, pol, START, steps[..b]).db;
      && var key, m := QuoteKey(o, first, t.report.machineId), LastRegisters(o, pol, steps, a, b, id);
      && id in second.machines && Truthy(second.machines[id].ekCert)
      && o.b64(second.machines[id].ekCert.value).Some? && o.isX509(o.b64(second.machines[id].ekCert.value).value)
      && key.Some? && QuotedWith(o, key.value, t.report)
      && (o.b64(second.machines[id].akPub) == key <==> m == -1 || o.b64(steps[m].req.akPub) == key)
      && (id in first.machines ==> QuotedBy(o, first.machines[id].akPub, t.report))
      && (m == -1 || o.b64(steps[m].req.akPub) == key ==> QuotedBy(o, second.machines[id].akPub, t.report))
  {
    var s := After(o, pol, START, steps);
    RunIsGood(o, pol, steps);
    SuccessesHaveOwnIssues(o, pol, s, q, q);
    SeenMoments(o, pol, steps, q);
    hide Good, After, ChecksAt, Vouched, N.Accepted, N.Backs, QuotedWith, Registers, LastRegisters;
    var t := s.threads[q];
    var a, b := t.phase.seen[0], t.phase.seen[1];
    StrictViews(o, pol, ViewsOf(s, t.phase.seen), t.report);
    var id := t.report.machineId.value;
    MomentIsPrefix(o, pol, steps, a);
    MomentIsPrefix(o, pol, steps, b);
    RunIsVouched(o, pol, steps[..b]);
    VouchedRow(o, pol, At(s, b).machines, id);
    QuoteOfRow(o, At(s, a), t.report);
    RowSince(o, pol, steps, a, b, id);
  }

  lemma SeenMoments(o: Oracles, pol: Policy, steps: seq<Step>, q: nat)
    requires Good(o, pol, After(o, pol, START, steps)) && q < |After(o, pol, START, steps).threads|
    requires After(o, pol, START, steps).threads[q].phase.Done?
    ensures var seen := After(o, pol, START, steps).threads[q].phase.seen;
      |seen| == 5 && seen[0] < seen[1] < |steps| && seen[3] < seen[4] < |steps|
  {
    EvidenceOf(o, pol, After(o, pol, START, steps), q);
    MomentIsPrefix(o, pol, steps, 0);
    hide Good, After, ChecksAt, N.Accepted;
  }

  lemma VouchedRow(o: Oracles, pol: Policy, machines: map<string, Machine>, id: string)
    requires pol.strictEk && Vouched(o, pol, machines) && id in machines && machines[id].ekVerified
    ensures Truthy(machines[id].ekCert) && o.b64(machines[id].ekCert.value).Some?
    ensures o.isX509(o.b64(machines[id].ekCert.value).value)
  {}

  lemma QuoteOfRow(o: Oracles, db: Db, r: Report)
    requires QuoteFailure(o, db, r).None?
    ensures QuoteKey(o, db, r.machineId).Some? && QuotedWith(o, QuoteKey(o, db, r.machineId).value, r)
  {}

  // ---- what an accepted report agrees with -------------------------------------------------------

  lemma PinnedViews(o: Oracles, pol: Policy, v: Views, r: Report)
    requires ChecksAt(o, pol, v, r).None?
    ensures PinFailure(pol, v.root.baselines, v.pcr7.baselines, r).None?
  {
    hide QuoteFailure, StrictFailure, PcrFailure, RootFailure, PinFailure;
  }

  lemma OneAtATimePrefix(o: Oracles, pol: Policy, steps: seq<Step>, m: nat)
    requires OneAtATime(o, pol, steps) && m <= |steps|
    ensures OneAtATime(o, pol, steps[..m])
  {
    hide AllClosed;
    forall k | 0 <= k < m && steps[..m][k].BeginEnroll?
      ensures AllClosed(After(o, pol, START, steps[..m][..k]))
    {
      assert steps[..m][..k] == steps[..k];
    }
  }

  // The moment is between no enrolment's clearing and close, and something is enrolled.
  predicate PinVisible(o: Oracles, pol: Policy, steps: seq<Step>, m: nat)
    requires m <= |steps|
  {
    NoneClearing(After(o, pol, START, steps[..m])) && PinTrace(o, pol, steps[..m]).Some?
  }

  lemma VisibleRows(o: Oracles, pol: Policy, steps: seq<Step>, m: nat)
    requires OneAtATime(o, pol, steps) && m <= |steps| && PinVisible(o, pol, steps, m)
    ensures var rows, pin := At(After(o, pol, START, steps), m).baselines, PinTrace(o, pol, steps[..m]).value;
      ActiveRoot(rows) == Some(pin.0) && PinnedPcr(rows, "7") == Lookup(pin.1, "7")
  {
    hide After, PinTrace, NoneClearing, OneActive, ActiveRow;
    OneAtATimePrefix(o, pol, steps, m);
    OneAtATimeKeepsPin(o, pol, steps[..m]);
    MomentIsPrefix(o, pol, steps, m);
    ReadersReadPin(At(After(o, pol, START, steps), m).baselines, "7");
  }

  // Main result.  With one enrolment at a time, a report answered with status 200 has the
  // root, and where required the PCR 7, that was enrolled last when its handler read them,
  // unless that read fell between an enrolment's clearing and its close.
  lemma AcceptedMatchesPin(o: Oracles, pol: Policy, steps: seq<Step>, q: nat)
    requires OneAtATime(o, pol, steps) && q < |After(o, pol, START, steps).threads|
    requires var phase := After(o, pol, START, steps).threads[q].phase; phase.Done? && phase.ok
    ensures var t := After(o, pol, START, steps).threads[q];
      && |t.phase.seen| == 5 && t.phase.seen[3] < t.phase.seen[4] < |steps|
      && var m, n := t.phase.seen[3], t.phase.seen[4];
      && (PinVisible(o, pol, steps, m) ==>
            SameUpToCase(t.report.merkleRoot, PinTrace(o, pol, steps[..m]).value.0))
      && (pol.requirePcr7 && PinVisible(o, pol, steps, n) ==>
            forall v :: Maps(PinTrace(o, pol, steps[..n]).value.1, "7", v) ==> Shows(t.report, "7", v))
  {
    var s := After(o, pol, START, steps);
    RunIsGood(o, pol, steps);
    SuccessesHaveOwnIssues(o, pol, s, q, q);
    SeenMoments(o, pol, steps, q);
    hide Good, After, PinTrace, PinVisible, ChecksAt, N.Accepted, N.Backs, Lower, ActiveRow, Lookup, Maps, Shows,
         Reported;
    var seen := s.threads[q].phase.seen;
    PinnedViews(o, pol, ViewsOf(s, seen), s.threads[q].report);
    if PinVisible(o, pol, steps, seen[3]) {
      VisibleRows(o, pol, steps, seen[3]);
    }
    if PinVisible(o, pol, steps, seen[4]) {
      VisibleRows(o, pol, steps, seen[4]);
      forall v | pol.requirePcr7 && Maps(PinTrace(o, pol, steps[..seen[4]]).value.1, "7", v)
        ensures Shows(s.threads[q].report, "7", v)
      {
        LookupIff(PinTrace(o, pol, steps[..seen[4]]).value.1, "7", v);
        ReportedIff(s.threads[q].report, "7", v);
      }
    }
  }

  // ---- blocks of one handler in a row are the handler of ServerSpec ---------------------------

  function Looks(q: nat, k: nat): seq<Step> { if k == 0 then [] else Looks(q, k - 1) + [Look(q)] }

  function Copies(db: Db, k: nat): seq<Db> { if k == 0 then [] else Copies(db, k - 1) + [db] }

  function Moments(m: nat, k: nat): seq<nat> { if k == 0 then [] else Moments(m, k - 1) + [m + k - 1] }

  lemma {:induction false} CopiesAt(db: Db, m: nat, k: nat)
    ensures |Copies(db, k)| == |Moments(m, k)| == k
    ensures forall i | 0 <= i < k :: Copies(db, k)[i] == db && Moments(m, k)[i] == m + i
  {
    if k > 0 {
      CopiesAt(db, m, k - 1);
    }
  }

  lemma {:induction false} LooksRun(o: Oracles, pol: Policy, s: State, q: nat, k: nat)
    requires q < |s.threads| && s.threads[q].phase.Checking? && |s.threads[q].phase.seen| + k <= 5
    ensures var t := s.threads[q]; var seen := t.phase.seen + Moments(|s.past|, k);
      After(o, pol, s, Looks(q, k)) == s.(past := s.past + Copies(s.db, k),
        threads := s.threads[q := t.(phase := Checking(t.phase.answer, t.phase.at, seen))])
  {
    if k == 0 {
      LookedNever(s, q);
    } else {
      hide After, Looks, Copies, Moments, Next;
      LooksRun(o, pol, s, q, k - 1);
      CopiesAt(s.db, |s.past|, k - 1);
      CopiesNext(s.db, |s.past|, q, k);
      AfterOne(o, pol, s, Looks(q, k - 1), Look(q));
      LookOnce(o, pol, s, q, k - 1, Copies(s.db, k - 1), Moments(|s.past|, k - 1));
    }
  }

  lemma LookedNever(s: State, q: nat)
    requires q < |s.threads| && s.threads[q].phase.Checking?
    ensures var t := s.threads[q];
      s == s.(past := s.past + Copies(s.db, 0), threads := s.threads[q :=
        t.(phase := Checking(t.phase.answer, t.phase.at, t.phase.seen + Moments(|s.past|, 0)))])
  {
    assert s.past + [] == s.past && s.threads[q].phase.seen + [] == s.threads[q].phase.seen;
    assert s.threads[q := s.threads[q]] == s.threads;
  }

  lemma CopiesNext(db: Db, m: nat, q: nat, k: nat)
    requires k > 0
    ensures Looks(q, k) == Looks(q, k - 1) + [Look(q)]
    ensures Copies(db, k) == Copies(db, k - 1) + [db] && Moments(m, k) == Moments(m, k - 1) + [m + k - 1]
  {}

  lemma LookOnce(o: Oracles, pol: Policy, s: State, q: nat, k: nat, copies: seq<Db>, moments: seq<nat>)
    requires q < |s.threads| && s.threads[q].phase.Checking? && |copies| == |moments| == k
    requires |s.threads[q].phase.seen| + k < 5
    ensures var t := s.threads[q]; var seen := t.phase.seen + moments;
      Next(o, pol, s.(past := s.past + copies,
                      threads := s.threads[q := t.(phase := Checking(t.phase.answer, t.phase.at, seen))]), Look(q))
      == s.(past := s.past + (copies + [s.db]),
            threads := s.threads[q :=
              t.(phase := Checking(t.phase.answer, t.phase.at, t.phase.seen + (moments + [|s.past| + k])))])
  {
    var t := s.threads[q];
    assert t.phase.seen + (moments + [|s.past| + k]) == (t.phase.seen + moments) + [|s.past| + k];
    assert s.past + (copies + [s.db]) == (s.past + copies) + [s.db];
  }

  // What is left of a handler after its reads and clears.
  function Closing(q: nat, now: Instant): seq<Step> { [Burn(q, now)] + Looks(q, 5) + [Close(q)] }

  lemma ClosingRun(o: Oracles, pol: Policy, s: State, q: nat, now: Instant)
    requires CanBurn(s, q)
    ensures var s', t := After(o, pol, s, Closing(q, now)), s.threads[q];
      var (db', failure) := Verified(o, pol, s.db, t.report, now);
      && s'.db == db'.(baselines := ClosedRows(s.db.baselines, t.kind, t.report, failure.None?))
      && s'.threads == s.threads[q := t.(phase := Done(failure.None?, |s.blocks|, Moments(|s.past| + 1, 5)))]
  {
    var s1 := Next(o, pol, s, Burn(q, now));
    ClosingSteps(o, pol, s, q, now);
    LooksRun(o, pol, s1, q, 5);
    assert [] + Moments(|s1.past|, 5) == Moments(|s1.past|, 5);
    CopiesAt(s1.db, |s1.past|, 5);
    hide After, Looks, Copies, Moments, ChecksAt, N.AnswerTo, N.Next, ClosedRows, Verified;
    assert |s1.past| == |s.past| + 1;
    CloseOnce(o, pol, s, s1, q, now, Copies(s1.db, 5), Moments(|s1.past|, 5));
  }

  lemma ClosingSteps(o: Oracles, pol: Policy, s: State, q: nat, now: Instant)
    ensures var s1 := Next(o, pol, s, Burn(q, now));
      After(o, pol, s, Closing(q, now)) == Next(o, pol, After(o, pol, s1, Looks(q, 5)), Close(q))
  {
    hide Next, Looks;
    One(o, pol, s, Burn(q, now));
    AfterAppend(o, pol, s, [Burn(q, now)], Looks(q, 5));
    AfterAppend(o, pol, s, [Burn(q, now)] + Looks(q, 5), [Close(q)]);
    One(o, pol, After(o, pol, s, [Burn(q, now)] + Looks(q, 5)), Close(q));
  }

  lemma CloseOnce(o: Oracles, pol: Policy, s: State, s1: State, q: nat, now: Instant, copies: seq<Db>,
                  moments: seq<nat>)
    requires CanBurn(s, q) && s1 == Next(o, pol, s, Burn(q, now)) && |copies| == |moments| == 5
    requires forall i | 0 <= i < 5 :: copies[i] == s1.db && moments[i] == |s1.past| + i
    ensures var t := s1.threads[q];
      var s2 := s1.(past := s1.past + copies,
                    threads := s1.threads[q := t.(phase := Checking(t.phase.answer, t.phase.at, moments))]);
      var (db', failure) := Verified(o, pol, s.db, t.report, now);
      var s' := Next(o, pol, s2, Close(q));
      && s'.db == db'.(baselines := ClosedRows(s.db.baselines, t.kind, t.report, failure.None?))
      && s'.threads == s.threads[q := t.(phase := Done(failure.None?, |s.blocks|, moments))]
  {
    hide ChecksAt, N.AnswerTo, N.Next, ClosedRows;
    var t := s1.threads[q];
    var s2 := s1.(past := s1.past + copies,
                  threads := s1.threads[q := t.(phase := Checking(t.phase.answer, t.phase.at, moments))]);
    StillViews(s2, s1, copies, moments);
    SameChecks(o, pol, s1.db, s.db, t.report);
  }

  lemma SameChecks(o: Oracles, pol: Policy, a: Db, b: Db, r: Report)
    requires a.machines == b.machines && a.baselines == b.baselines
    ensures ChecksAt(o, pol, Still(a), r) == Checks(o, pol, b, r)
  {
    ChecksIgnoreNonces(o, pol, a, b, r);
  }

  lemma StillViews(s2: State, s1: State, copies: seq<Db>, moments: seq<nat>)
    requires |copies| == |moments| == 5 && s2.past == s1.past + copies
    requires forall i | 0 <= i < 5 :: copies[i] == s1.db && moments[i] == |s1.past| + i
    ensures ViewsOf(s2, moments) == Still(s1.db)
  {}

  lemma One(o: Oracles, pol: Policy, s: State, step: Step)
    ensures After(o, pol, s, [step]) == Next(o, pol, s, step)
  {
    hide Next;
    assert [step][..0] == [];
  }

  function BlocksFrom(s: State, call: Call): seq<Step>
  {
    var q := |s.threads|;
    match call
    case Challenge(nonce, at) => [Step.Challenge(nonce, at)]
    case Register(req) => [Step.Register(req)]
    case Attest(r, now) => [BeginAttest(r)] + Closing(q, now)
    case Enroll(r, now) => [BeginEnroll(r), Clear(q)] + Closing(q, now)
  }

  lemma Two(o: Oracles, pol: Policy, s: State, a: Step, b: Step)
    ensures After(o, pol, s, [a, b]) == Next(o, pol, Next(o, pol, s, a), b)
  {
    hide Next;
    assert [a, b][..1] == [a];
    One(o, pol, s, a);
  }

  // From any state, other handlers waiting in any phase: a handler whose blocks are not
  // interrupted does to the tables what ServerSpec.Handle says, with the same verdict.
  lemma UninterruptedIsHandle(o: Oracles, pol: Policy, s: State, call: Call)
    ensures var s' := After(o, pol, s, BlocksFrom(s, call)); var (db', ok) := Handle(o, pol, s.db, call);
      && s'.db == db'
      && (call.Challenge? || call.Register? ==> s'.threads == s.threads)
      && (call.Attest? || call.Enroll? ==>
            && |s'.threads| == |s.threads| + 1 && s'.threads[..|s.threads|] == s.threads
            && s'.threads[|s.threads|].phase.Done? && s'.threads[|s.threads|].phase.ok == ok)
  {
    hide After, Closing, Moments, Verified, ActiveRow, Deactivated, Pinned, Restored, N.Next, N.Inserts;
    var q := |s.threads|;
    match call
    case Challenge(nonce, at) => One(o, pol, s, Step.Challenge(nonce, at));
    case Register(req) => One(o, pol, s, Step.Register(req));
    case Attest(r, now) =>
      var s1 := Next(o, pol, s, BeginAttest(r));
      One(o, pol, s, BeginAttest(r));
      AfterAppend(o, pol, s, [BeginAttest(r)], Closing(q, now));
      ClosingRun(o, pol, s1, q, now);
      VerifiedKeeps(o, pol, s.db, r, now);
    case Enroll(r, now) =>
      var s2 := Next(o, pol, Next(o, pol, s, BeginEnroll(r)), Clear(q));
      Two(o, pol, s, BeginEnroll(r), Clear(q));
      AfterAppend(o, pol, s, [BeginEnroll(r), Clear(q)], Closing(q, now));
      ClosingRun(o, pol, s2, q, now);
      VerifiedKeeps(o, pol, s2.db, r, now);
  }

  function SerialBlocks(o: Oracles, pol: Policy, calls: seq<Call>): seq<Step>
  {
    if calls == [] then []
    else
      var front := SerialBlocks(o, pol, calls[..|calls| - 1]);
      front + BlocksFrom(After(o, pol, START, front), calls[|calls| - 1])
  }

  // So every serial run is a run of blocks, and all of the above holds of it.
  lemma {:induction false} SerialRunIsBlocks(o: Oracles, pol: Policy, calls: seq<Call>)
    ensures After(o, pol, START, SerialBlocks(o, pol, calls)).db == Run(o, pol, calls)
  {
    if calls != [] {
      hide Handle, BlocksFrom, After;
      var last := |calls| - 1;
      var front := SerialBlocks(o, pol, calls[..last]);
      SerialRunIsBlocks(o, pol, calls[..last]);
      AfterAppend(o, pol, START, front, BlocksFrom(After(o, pol, START, front), calls[last]));
      UninterruptedIsHandle(o, pol, After(o, pol, START, front), calls[last]);
    }
  }

  // ---- a registration between the two reads ------------------------------------------------------

  // An attestation whose machine is registered after its quote was checked.
  function LateRegistration(q: nat, r: Report, now: Instant, req: RegisterRequest): seq<Step>
  {
    [BeginAttest(r), Burn(q, now)] + [Look(q), Step.Register(req)] + (Looks(q, 4) + [Close(q)])
  }

  lemma LateStart(o: Oracles, pol: Policy, s: State, r: Report, now: Instant)
    ensures var s' := After(o, pol, s, [BeginAttest(r), Burn(|s.threads|, now)]);
      var answer := N.AnswerTo(s.db.nonces, r.nonce, now);
      && s'.db == Burned(s.db, r.nonce, now)
      && s'.threads == s.threads + [Thread(Attesting, r, Checking(answer, |s.blocks|, []))]
  {
    Two(o, pol, s, BeginAttest(r), Burn(|s.threads|, now));
    hide After, N.AnswerTo, N.Next;
  }

  lemma LateRegister(o: Oracles, pol: Policy, s: State, q: nat, req: RegisterRequest)
    requires q < |s.threads| && s.threads[q].phase.Checking? && s.threads[q].phase.seen == []
    ensures var s' := After(o, pol, s, [Look(q), Step.Register(req)]); var t := s.threads[q];
      && s'.db == Registered(o, pol, s.db, req).0 && s'.past == s.past + [s.db, s.db]
      && s'.threads == s.threads[q := t.(phase := Checking(t.phase.answer, t.phase.at, [|s.past|]))]
  {
    Two(o, pol, s, Look(q), Step.Register(req));
    hide After, Registered;
    assert [] + [|s.past|] == [|s.past|] && s.past + [s.db] + [s.db] == s.past + [s.db, s.db];
  }

  lemma LateViews(s: State, before: seq<Db>, first: Db, copies: seq<Db>, moments: seq<nat>)
    requires s.past == before + [first, first] + copies && |copies| == |moments| == 4
    requires forall i | 0 <= i < 4 :: copies[i] == s.db && moments[i] == |before| + 2 + i
    ensures ViewsOf(s, [|before|] + moments) == Views(first, s.db, s.db, s.db, s.db)
  {}

  lemma LateClose(o: Oracles, pol: Policy, s: State, q: nat, first: Db)
    requires q < |s.threads| && s.threads[q].phase.Checking? && s.threads[q].kind.Attesting?
    requires |s.past| >= 2 && s.threads[q].phase.seen == [|s.past| - 2]
    requires s.past == s.past[..|s.past| - 2] + [first, first]
    ensures var s', t := After(o, pol, s, Looks(q, 4) + [Close(q)]), s.threads[q];
      && s'.db == s.db && |s'.threads| == |s.threads| && s'.threads[q].phase.Done? && s'.threads[q].report == t.report
      && (s'.threads[q].phase.ok <==>
            t.phase.answer == N.Recognised
            && ChecksAt(o, pol, Views(first, s.db, s.db, s.db, s.db), t.report).None?)
  {
    var n := |s.past|;
    var copies, moments := Copies(s.db, 4), Moments(n, 4);
    AfterOne(o, pol, s, Looks(q, 4), Close(q));
    LooksRun(o, pol, s, q, 4);
    CopiesAt(s.db, n, 4);
    hide After, Looks, Copies, Moments, ChecksAt;
    LateViews(After(o, pol, s, Looks(q, 4)), s.past[..n - 2], first, copies, moments);
  }

  // From any state: the checks see the tables without the registration at their first
  // read, and with it at the others.
  lemma LateRegistrationRun(o: Oracles, pol: Policy, s: State, r: Report, now: Instant, req: RegisterRequest)
    ensures var q := |s.threads|; var s' := After(o, pol, s, LateRegistration(q, r, now, req));
      var first := Burned(s.db, r.nonce, now); var later := Registered(o, pol, first, req).0;
      && s'.db == later && |s'.threads| == q + 1 && s'.threads[q].phase.Done? && s'.threads[q].report == r
      && (s'.threads[q].phase.ok <==>
            N.AnswerTo(s.db.nonces, r.nonce, now) == N.Recognised
            && ChecksAt(o, pol, Views(first, later, later, later, later), r).None?)
  {
    hide After, Looks, ChecksAt, N.AnswerTo, N.Next, Registered, Burned;
    var q := |s.threads|;
    var x1, x2, x3 := [BeginAttest(r), Burn(q, now)], [Look(q), Step.Register(req)], Looks(q, 4) + [Close(q)];
    AfterAppend(o, pol, s, x1, x2);
    AfterAppend(o, pol, s, x1 + x2, x3);
    LateStart(o, pol, s, r, now);
    var s1 := After(o, pol, s, x1);
    LateRegister(o, pol, s1, q, req);
    var s2 := After(o, pol, s1, x2);
    assert s2.past[..|s2.past| - 2] == s1.past;
    LateClose(o, pol, s2, q, s1.db);
  }

  function Attested(n: string, root: string): Report
  {
    Report(n, Some("id"), [("0", "0x1")], Summary(1, 1, true, 0), root, 0, 1, true, Some("m"), Some("s"))
  }

  const LATE: RegisterRequest := RegisterRequest("id", "ak2", Some("ek"))

  // Oracles under which the quote verifies under this host's own key but not under "ak2".
  predicate OwnKeyOnly(o: Oracles, n: string)
  {
    && o.b64("ak2") == Some([1]) && o.b64("ek") == o.b64("m") == o.b64("s") == Some([]) && o.isX509([])
    && o.localAk == Some([]) && o.checkQuote([], [], [], n) && !o.checkQuote([1], [], [], n)
  }

  lemma LateChecks(o: Oracles, first: Db, d: Digest, n: string)
    requires OwnKeyOnly(o, n) && first.machines == map[] && first.baselines == []
    ensures var later := Registered(o, Policy(true, false, 0), first, LATE).0;
      && later == first.(machines := map["id" := Machine("ak2", Some("ek"), true)])
      && ChecksAt(o, Policy(true, false, 0), Views(first, later, later, later, later), Attested(n, Hex(d))).None?
  {
    H.HexDigestParses(o, d);
    hide ParsesBase16, Hex;
    assert |Lower("0x1")| == 3 && |ZERO_DIGEST| == 66;
  }

  // So strict binding can fail.  In this run the only registration there ever is comes
  // after the quote was checked with this host's own key; the report is answered with
  // status 200, and its quote does not verify under the registered AK.
  lemma StrictBindingCanFail(d: Digest, n: string) returns (o: Oracles, pol: Policy)
    ensures pol.strictEk
    ensures var r := Attested(n, Hex(d));
      var s := After(o, pol, START, [Step.Challenge(n, 0)] + LateRegistration(0, r, 0, LATE));
      && |s.threads| == 1 && s.threads[0].phase.Done? && s.threads[0].phase.ok && s.threads[0].report == r
      && s.db.machines == map["id" := Machine("ak2", Some("ek"), true)] && !QuotedBy(o, "ak2", r)
  {
    o := Oracles((s: string) => if s == "ak2" then Some([1]) else Some([]), (c: bytes) => true,
                 (k: bytes, m: bytes, s: bytes, n: string) => k == [], Some([]), (c: char) => false);
    pol := Policy(true, false, 0);
    assert OwnKeyOnly(o, n);
    var r := Attested(n, Hex(d));
    var s := After(o, pol, START, [Step.Challenge(n, 0)]);
    AfterAppend(o, pol, START, [Step.Challenge(n, 0)], LateRegistration(0, r, 0, LATE));
    ChallengeAtStart(o, pol, n);
    hide After, ChecksAt, N.AnswerTo, N.Next, Registered, LateRegistration, OwnKeyOnly;
    LateRegistrationRun(o, pol, s, r, 0, LATE);
    LateChecks(o, Burned(s.db, n, 0), d, n);
    NotUnderLateKey(o, r);
  }

  lemma NotUnderLateKey(o: Oracles, r: Report)
    requires OwnKeyOnly(o, r.nonce) && r.quoteMsg == Some("m") && r.quoteSig == Some("s")
    ensures !QuotedBy(o, "ak2", r)
  {}

  lemma ChallengeAtStart(o: Oracles, pol: Policy, n: string)
    ensures var s := After(o, pol, START, [Step.Challenge(n, 0)]);
      && s.threads == [] && s.db.machines == map[] && s.db.baselines == []
      && N.AnswerTo(s.db.nonces, n, 0) == N.Recognised
  {
    One(o, pol, START, Step.Challenge(n, 0));
    hide After, N.AnswerTo, N.Next;
    JustIssued(n);
  }

  lemma JustIssued(n: string)
    ensures N.AnswerTo(N.Next(map[], N.Issue(n, 0)), n, 0) == N.Recognised
  {
    hide N.After, N.Next, N.AnswerTo, N.LiveAndInTime;
    var blocks := [N.Issue(n, 0)];
    LiveAtOnce(blocks, n);
    AfterIssue(blocks[0]);
    N.RecognisedIff(blocks, n, 0);
  }

  lemma AfterIssue(b: N.Block)
    ensures N.After([b]) == N.Next(map[], b)
  {
    hide N.Next;
    assert [b][..0] == [];
  }

  lemma LiveAtOnce(blocks: seq<N.Block>, n: string)
    requires blocks == [N.Issue(n, 0)]
    ensures N.LiveAndInTime(blocks, n, 0, 0)
  {
    assert blocks[..0] == [];
  }

  // ---- runs in which overlapping handlers break the table ---------------------------------------

  lemma BeginAndClear(o: Oracles, pol: Policy, s: State, r: Report)
    ensures var s' := After(o, pol, s, [BeginEnroll(r), Clear(|s.threads|)]);
      && s'.db == s.db.(baselines := Deactivated(s.db.baselines)) && s'.blocks == s.blocks
      && s'.threads == s.threads + [Thread(Enrolling(ActiveRoot(s.db.baselines)), r, Cleared)]
  {
    Two(o, pol, s, BeginEnroll(r), Clear(|s.threads|));
    hide After, ActiveRow, Deactivated;
  }

  lemma OffIsOff(rows: seq<Baseline>)
    ensures Deactivated(Deactivated(rows)) == Deactivated(rows) && ActiveRow(Deactivated(rows)) == None
  {
    NoneActive(Deactivated(rows));
  }

  lemma UnknownNonceFails(o: Oracles, pol: Policy, db: Db, r: Report, now: Instant)
    requires r.nonce !in db.nonces
    ensures Verified(o, pol, db, r, now).1.Some?
    ensures forall n | n !in db.nonces :: n !in Verified(o, pol, db, r, now).0.nonces
  {
    hide ChecksAt;
  }

  // One row was added and is active, and so is the last old one unless their roots agree.
  predicate TwoActiveIff(before: seq<Baseline>, after: seq<Baseline>, root: string)
    requires before != []
  {
    var last := |before| - 1;
    && |after| == |before| + 1 && after[last + 1].active
    && (after[last].active <==> Lower(root) != before[last].root)
    && (OneActive(after) <==> Lower(root) == before[last].root)
  }

  // Two enrolments overlap; the second, on its own a success, pins while the first is
  // verifying, and the first then fails.  Two rows end up active exactly when the second
  // brought another root than the one enrolled before.
  lemma OverlappingEnrolmentsLeaveTwoActive(o: Oracles, pol: Policy, s: State, a: Report, b: Report, nowA: Instant,
                                            nowB: Instant)
    requires OneActive(s.db.baselines) && s.db.baselines != []
    requires a.nonce !in s.db.nonces && Handle(o, pol, s.db, Enroll(b, nowB)).1
    ensures var q := |s.threads|;
      var steps := [BeginEnroll(a), Clear(q)] + [BeginEnroll(b), Clear(q + 1)] + Closing(q + 1, nowB)
                   + Closing(q, nowA);
      TwoActiveIff(s.db.baselines, After(o, pol, s, steps).db.baselines, b.merkleRoot)
  {
    hide After, Closing, Handle, Verified, OneActive, Deactivated, Pinned, Restored, Lower, ActiveRow;
    PassedAlone(o, pol, s.db, b, nowB);
    TruthyRoot(s.db.baselines);
    OverlapRun(o, pol, s, a, b, nowA, nowB);
    OverlapRows(o, pol, s, a, b, nowA, nowB);
    LastIsActiveRow(s.db.baselines);
    TwoActiveRows(s.db.baselines, b.merkleRoot, b.pcrs);
  }

  lemma PassedAlone(o: Oracles, pol: Policy, db: Db, r: Report, now: Instant)
    requires Handle(o, pol, db, Enroll(r, now)).1
    ensures Verified(o, pol, db.(baselines := Deactivated(db.baselines)), r, now).1.None? && |r.merkleRoot| == 64
  {
    hide Verified, ActiveRow, Deactivated, Pinned, Restored;
    AcceptedRootLength(o, pol, db.(baselines := Deactivated(db.baselines)), r, now);
  }

  lemma TwoActiveRows(rows: seq<Baseline>, root: string, pcrs: Pcrs)
    requires OneActive(rows) && rows != [] && |root| == 64
    ensures var last := |rows| - 1;
      TwoActiveIff(rows, Restored(Pinned(Deactivated(rows), root, pcrs), rows[last].root), root)
  {
    RowsStayOrdered(rows, "");
    hide Ordered, OneActive, Restored, MaxId, Lower;
    PinnedRows(Deactivated(rows), root, pcrs);
    RestoreBesideNew(rows, Pinned(Deactivated(rows), root, pcrs), root);
  }

  lemma RestoreBesideNew(before: seq<Baseline>, p: seq<Baseline>, root: string)
    requires before != [] && OneActive(p) && |p| == |before| + 1 && p[|before|].root == Lower(root)
    requires p[|before| - 1].root == before[|before| - 1].root
    ensures TwoActiveIff(before, Restored(p, before[|before| - 1].root), root)
  {
    var first, last := before[|before| - 1].root, |before| - 1;
    assert LastWith(p, first) == if Lower(root) == first then last + 1 else last;
    hide Restored, Lower, LastWith;
    RestoredIsOneRow(p, first);
    RowsStayOrdered(p, first);
    hide Ordered;
  }

  // A handler that goes on from Cleared to its end.
  lemma CloseFailing(o: Oracles, pol: Policy, s: State, q: nat, now: Instant)
    requires CanBurn(s, q) && s.threads[q].report.nonce !in s.db.nonces
    ensures var s', t := After(o, pol, s, Closing(q, now)), s.threads[q];
      && s'.db.baselines == ClosedRows(s.db.baselines, t.kind, t.report, false)
      && (forall n | n !in s.db.nonces :: n !in s'.db.nonces)
      && |s'.threads| == |s.threads| && (forall p | 0 <= p < |s.threads| && p != q :: s'.threads[p] == s.threads[p])
  {
    ClosingRun(o, pol, s, q, now);
    hide After, Closing, Verified, Moments, ClosedRows;
    UnknownNonceFails(o, pol, s.db, s.threads[q].report, now);
  }

  lemma ClosePassing(o: Oracles, pol: Policy, s: State, q: nat, now: Instant)
    requires CanBurn(s, q) && Verified(o, pol, s.db, s.threads[q].report, now).1.None?
    ensures var s', t := After(o, pol, s, Closing(q, now)), s.threads[q];
      && s'.db.baselines == ClosedRows(s.db.baselines, t.kind, t.report, true)
      && (forall n | n !in s.db.nonces :: n !in s'.db.nonces)
      && |s'.threads| == |s.threads| && (forall p | 0 <= p < |s.threads| && p != q :: s'.threads[p] == s.threads[p])
  {
    ClosingRun(o, pol, s, q, now);
    hide After, Closing, Moments, ClosedRows, ChecksAt;
  }

  lemma OverlapRows(o: Oracles, pol: Policy, s: State, a: Report, b: Report, nowA: Instant, nowB: Instant)
    requires Truthy(ActiveRoot(s.db.baselines)) && a.nonce !in s.db.nonces
    requires Verified(o, pol, s.db.(baselines := Deactivated(s.db.baselines)), b, nowB).1.None?
    ensures var q := |s.threads|;
      var s2 := After(o, pol, After(o, pol, s, [BeginEnroll(a), Clear(q)]), [BeginEnroll(b), Clear(q + 1)]);
      After(o, pol, After(o, pol, s2, Closing(q + 1, nowB)), Closing(q, nowA)).db.baselines
      == Restored(Pinned(Deactivated(s.db.baselines), b.merkleRoot, b.pcrs), ActiveRoot(s.db.baselines).value)
  {
    hide After, Closing, Verified, Deactivated, Pinned, Restored, ActiveRow;
    var q := |s.threads|;
    var s1 := After(o, pol, s, [BeginEnroll(a), Clear(q)]);
    BeginAndClear(o, pol, s, a);
    BeginAndClear(o, pol, s1, b);
    OffIsOff(s.db.baselines);
    var s2 := After(o, pol, s1, [BeginEnroll(b), Clear(q + 1)]);
    ClosePassing(o, pol, s2, q + 1, nowB);
    CloseFailing(o, pol, After(o, pol, s2, Closing(q + 1, nowB)), q, nowA);
  }

  lemma OverlapRun(o: Oracles, pol: Policy, s: State, a: Report, b: Report, nowA: Instant, nowB: Instant)
    ensures var q := |s.threads|;
      var steps := [BeginEnroll(a), Clear(q)] + [BeginEnroll(b), Clear(q + 1)] + Closing(q + 1, nowB)
                   + Closing(q, nowA);
      var s2 := After(o, pol, After(o, pol, s, [BeginEnroll(a), Clear(q)]), [BeginEnroll(b), Clear(q + 1)]);
      After(o, pol, s, steps) == After(o, pol, After(o, pol, s2, Closing(q + 1, nowB)), Closing(q, nowA))
  {
    hide After, Closing;
    var q := |s.threads|;
    AfterAppend(o, pol, s, [BeginEnroll(a), Clear(q)], [BeginEnroll(b), Clear(q + 1)]);
    AfterAppend(o, pol, s, [BeginEnroll(a), Clear(q)] + [BeginEnroll(b), Clear(q + 1)], Closing(q + 1, nowB));
    AfterAppend(o, pol, s, [BeginEnroll(a), Clear(q)] + [BeginEnroll(b), Clear(q + 1)] + Closing(q + 1, nowB),
                Closing(q, nowA));
  }

  // The pin is lost although nothing was enrolled: the second enrolment reads the table
  // while the first has it cleared, clears it again after the first has restored it, and
  // has nothing to restore when it fails too.
  lemma TwoFailuresLoseThePin(o: Oracles, pol: Policy, s: State, a: Report, b: Report, nowA: Instant, nowB: Instant)
    requires OneActive(s.db.baselines) && a.nonce !in s.db.nonces && b.nonce !in s.db.nonces
    ensures var q := |s.threads|;
      var steps := [BeginEnroll(a), Clear(q)] + [BeginEnroll(b)] + Closing(q, nowA) + [Clear(q + 1)]
                   + Closing(q + 1, nowB);
      var rows := After(o, pol, s, steps).db.baselines;
      rows == Deactivated(s.db.baselines) && ActiveRow(rows) == None
  {
    var q, before := |s.threads|, s.db.baselines;
    hide After, Closing, ClosedRows, Deactivated, OneActive, ActiveRow;
    LossRun(o, pol, s, a, b, nowA, nowB);
    BeginAndClear(o, pol, s, a);
    OffIsOff(before);
    RestoredByClose(before, a);
    var s1 := After(o, pol, s, [BeginEnroll(a), Clear(q)]);
    var s2 := Next(o, pol, s1, BeginEnroll(b));
    CloseFailing(o, pol, s2, q, nowA);
    var s3 := After(o, pol, s2, Closing(q, nowA));
    var s4 := Next(o, pol, s3, Clear(q + 1));
    CloseFailing(o, pol, s4, q + 1, nowB);
    NothingToRestore(s4.db.baselines, b);
  }

  lemma RestoredByClose(rows: seq<Baseline>, r: Report)
    requires OneActive(rows)
    ensures ClosedRows(Deactivated(rows), Enrolling(ActiveRoot(rows)), r, false) == rows
  {
    hide Restored, ActiveRow, Deactivated, OneActive;
    RestoreAfterOff(rows);
  }

  lemma NothingToRestore(rows: seq<Baseline>, r: Report)
    ensures ClosedRows(rows, Enrolling(None), r, false) == rows
  {}

  lemma LossRun(o: Oracles, pol: Policy, s: State, a: Report, b: Report, nowA: Instant, nowB: Instant)
    ensures var q := |s.threads|;
      var steps := [BeginEnroll(a), Clear(q)] + [BeginEnroll(b)] + Closing(q, nowA) + [Clear(q + 1)]
                   + Closing(q + 1, nowB);
      var s2 := Next(o, pol, After(o, pol, s, [BeginEnroll(a), Clear(q)]), BeginEnroll(b));
      var s4 := Next(o, pol, After(o, pol, s2, Closing(q, nowA)), Clear(q + 1));
      After(o, pol, s, steps) == After(o, pol, s4, Closing(q + 1, nowB))
  {
    hide After, Closing, Next;
    var q := |s.threads|;
    var x1, x2, x3 := [BeginEnroll(a), Clear(q)], [BeginEnroll(b)], Closing(q, nowA);
    var x4, x5 := [Clear(q + 1)], Closing(q + 1, nowB);
    AfterAppend(o, pol, s, x1, x2);
    One(o, pol, After(o, pol, s, x1), BeginEnroll(b));
    AfterAppend(o, pol, s, x1 + x2, x3);
    AfterAppend(o, pol, s, x1 + x2 + x3, x4);
    One(o, pol, After(o, pol, s, x1 + x2 + x3), Clear(q + 1));
    AfterAppend(o, pol, s, x1 + x2 + x3 + x4, x5);
  }

  // An attestation whose blocks fall between an enrolment's clearing and its close is
  // judged as if nothing had ever been enrolled.
  lemma AttestDuringEnrolmentSeesNoPin(o: Oracles, pol: Policy, s: State, e: Report, r: Report, now: Instant)
    ensures var q := |s.threads|;
      var s' := After(o, pol, s, [BeginEnroll(e), Clear(q)] + [BeginAttest(r)] + Closing(q + 1, now));
      && |s'.threads| == q + 2 && s'.threads[q + 1].kind.Attesting? && s'.threads[q + 1].phase.Done?
      && (s'.threads[q + 1].phase.ok <==>
            N.AnswerTo(s.db.nonces, r.nonce, now) == N.Recognised && H.Acceptable(o, pol, s.db, None, r))
  {
    var q := |s.threads|;
    var s1 := After(o, pol, s, [BeginEnroll(e), Clear(q)]);
    var s2 := Next(o, pol, s1, BeginAttest(r));
    AfterAppend(o, pol, s, [BeginEnroll(e), Clear(q)], [BeginAttest(r)]);
    One(o, pol, s1, BeginAttest(r));
    AfterAppend(o, pol, s, [BeginEnroll(e), Clear(q)] + [BeginAttest(r)], Closing(q + 1, now));
    BeginAndClear(o, pol, s, e);
    OffIsOff(s.db.baselines);
    hide After, Closing, Deactivated, ActiveRow, Checks, H.Acceptable, Moments, N.AnswerTo, N.Next;
    ClosingRun(o, pol, s2, q + 1, now);
    H.ChecksIfRead(o, pol, s2.db, None, r);
    H.AcceptableReadsMachines(o, pol, s.db, s2.db, None, r);
  }
}
