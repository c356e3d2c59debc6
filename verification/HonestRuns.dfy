// From the kernel log to the verdict: what the shim collects, what the server
// pinned, and what an accepted report says about the log.

module HonestRuns {
  import opened Wrappers
  import opened Text
  import opened Merkle
  import opened ImaLog
  import opened ImaTree
  import opened ImaBinding
  import opened Reports
  import opened IsoTime
  import opened Nonces
  import opened ServerSpec
  import opened ServerRuns
  import LC = LeafCache

  // ---- printed digests pass the structural check ---------------------------------------

  predicate AllLowerHex(s: string) { forall i | 0 <= i < |s| :: IsLowerHex(s[i]) }

  lemma {:induction false} HexDigitsRun(s: string)
    requires s != "" && AllLowerHex(s)
    ensures HexRun(s)
  {
    if |s| > 1 {
      HexDigitsRun(s[1..]);
    }
  }

  lemma HexIsPlain(o: Oracles, s: string)
    requires AllLowerHex(s)
    ensures PlainText(o, s) == s
  {}

  lemma HexNeedsNoTrim(s: string)
    requires s != "" && AllLowerHex(s)
    ensures TrimRight(TrimLeft(s)) == s
  {
    assert IsLowerHex(s[0]) && IsLowerHex(s[|s| - 1]);
  }

  lemma HexDigestParses(o: Oracles, d: Digest)
    ensures |Hex(d)| == 64 && ParsesBase16(o, Hex(d)) && Lower(Hex(d)) == Hex(d)
  {
    var s := Hex(d);
    LowerOfHex(d);
    HexIsPlain(o, s);
    HexNeedsNoTrim(s);
    HexDigitsRun(s);
    hide HexRun, TrimLeft, TrimRight, Hex, PlainText;
    assert IsLowerHex(s[0]) && IsLowerHex(s[1]);
  }

  // ---- the nonce survives a serial run ---------------------------------------------------

  // Since call i issued nonce n at time `at`, nobody submitted it, and no clock read
  // exceeded `now`.
  predicate Waiting(o: Oracles, pol: Policy, calls: seq<Call>, i: nat, n: string, at: Instant, now: Instant)
  {
    && i < |calls| && calls[i] == Challenge(n, at) && Succeeds(o, pol, calls, i)
    && forall k | i < k < |calls| && (calls[k].Attest? || calls[k].Enroll?) ::
         calls[k].report.nonce != n && calls[k].now <= now
  }

  lemma WaitingInFront(o: Oracles, pol: Policy, calls: seq<Call>, i: nat, n: string, at: Instant, now: Instant)
    requires Waiting(o, pol, calls, i, n, at, now) && i < |calls| - 1
    ensures Waiting(o, pol, calls[..|calls| - 1], i, n, at, now)
  {
    var front := calls[..|calls| - 1];
    assert front[..i] == calls[..i];
  }

  // The block of that call is live in the trace of the run.
  lemma {:induction false} WaitingIsLive(o: Oracles, pol: Policy, calls: seq<Call>, i: nat, n: string,
                                         at: Instant, now: Instant) returns (b: nat)
    requires Waiting(o, pol, calls, i, n, at, now) && InTime(at, now)
    ensures b < |AllBlocks(calls)| && AllBlocks(calls)[b] == Issue(n, at) && Live(AllBlocks(calls), n, b)
  {
    var last := |calls| - 1;
    var front, blocks := AllBlocks(calls[..last]), AllBlocks(calls);
    if i == last {
      b := |front|;
      RunIsBlocks(o, pol, calls[..last]);
      assert blocks == front + [Issue(n, at)] && blocks[..b] == front;
      hide After, Run, Deadline, Fits;
    } else {
      WaitingInFront(o, pol, calls, i, n, at, now);
      b := WaitingIsLive(o, pol, calls[..last], i, n, at, now);
      hide Live, Waiting, AllBlocks;
      if calls[last].Register? {
        assert blocks == front by { RegisterAddsNothing(calls); }
      } else {
        OneBlockMore(calls);
        assert blocks[..|front|] == front;
        assert Spares(blocks[|front|], n, at) by { LaterCallSpares(o, pol, calls, i, n, at, now); }
        LiveInFront(blocks, n, b);
      }
    }
  }

  lemma RegisterAddsNothing(calls: seq<Call>)
    requires calls != [] && calls[|calls| - 1].Register?
    ensures AllBlocks(calls) == AllBlocks(calls[..|calls| - 1])
  {}

  lemma OneBlockMore(calls: seq<Call>)
    requires calls != [] && !calls[|calls| - 1].Register?
    ensures var last := |calls| - 1; AllBlocks(calls) == AllBlocks(calls[..last]) + [BlocksOf(calls[last])[0]]
  {}

  lemma LaterCallSpares(o: Oracles, pol: Policy, calls: seq<Call>, i: nat, n: string, at: Instant, now: Instant)
    requires Waiting(o, pol, calls, i, n, at, now) && InTime(at, now) && i < |calls| - 1
    requires !calls[|calls| - 1].Register?
    ensures Spares(BlocksOf(calls[|calls| - 1])[0], n, at)
  {}

  lemma WaitingNonceRecognised(o: Oracles, pol: Policy, calls: seq<Call>, i: nat, n: string, at: Instant, now: Instant)
    requires Waiting(o, pol, calls, i, n, at, now) && InTime(at, now)
    ensures AnswerTo(Run(o, pol, calls).nonces, n, now) == Recognised
  {
    hide Waiting, Run, AllBlocks, Live, AnswerTo, After;
    var b := WaitingIsLive(o, pol, calls, i, n, at, now);
    assert LiveAndInTime(AllBlocks(calls), n, b, now);
    RunIsBlocks(o, pol, calls);
    RecognisedIff(AllBlocks(calls), n, now);
  }

  // ---- the checks, as one condition --------------------------------------------------------

  predicate NoZeroPcr(pcrs: Pcrs, enrolled: bool) { forall i | 0 <= i < |pcrs| :: !ZeroPcr(pcrs[i], enrolled) }

  lemma {:induction false} PcrFailureIff(pcrs: Pcrs, enrolled: bool)
    ensures PcrFailure(pcrs, enrolled).None? <==> NoZeroPcr(pcrs, enrolled)
  {
    hide ZeroPcr;
    if pcrs != [] {
      PcrFailureIff(pcrs[1..], enrolled);
      assert NoZeroPcr(pcrs, enrolled) <==> !ZeroPcr(pcrs[0], enrolled) && NoZeroPcr(pcrs[1..], enrolled) by {
        assert forall i | 1 <= i < |pcrs| :: pcrs[i] == pcrs[1..][i - 1];
      }
    }
  }

  predicate StrictlyEnrolled(db: Db, id: Option<string>)
  {
    Enrolled(db, id) && db.machines[id.value].ekVerified
  }

  // The pinned root and PCR 7, where they apply, are the reported ones.
  ghost predicate MatchesPin(pol: Policy, pin: Option<(string, Pcrs)>, r: Report)
  {
    pin.Some? ==>
      && SameUpToCase(r.merkleRoot, pin.value.0)
      && (pol.requirePcr7 ==> forall v :: Maps(pin.value.1, "7", v) ==> Shows(r, "7", v))
  }

  ghost predicate Acceptable(o: Oracles, pol: Policy, db: Db, pin: Option<(string, Pcrs)>, r: Report)
  {
    && r.quoteAvailable && QuoteFailure(o, db, r).None?
    && (pol.strictEk ==> StrictlyEnrolled(db, r.machineId))
    && r.pcrs != [] && NoZeroPcr(r.pcrs, Enrolled(db, r.machineId))
    && (Enrolled(db, r.machineId) || r.summary.hasBootAggregate)
    && |r.merkleRoot| == 64 && ParsesBase16(o, r.merkleRoot) && r.leafCount > 0
    && MatchesPin(pol, pin, r)
    && (pol.minEntries > 0 ==> r.leafCount >= pol.minEntries)
  }

  // What the two readers of the table return.
  predicate Reads(rows: seq<Baseline>, pin: Option<(string, Pcrs)>)
  {
    && ActiveRoot(rows) == (match pin case None => None case Some(p) => Some(p.0))
    && PinnedPcr(rows, "7") == (match pin case None => None case Some(p) => Lookup(p.1, "7"))
  }

  lemma ChecksIfRead(o: Oracles, pol: Policy, db: Db, pin: Option<(string, Pcrs)>, r: Report)
    requires Reads(db.baselines, pin)
    ensures Checks(o, pol, db, r).None? <==> Acceptable(o, pol, db, pin, r)
  {
    PcrFailureIff(r.pcrs, Enrolled(db, r.machineId));
    MatchesIfRead(pol, db.baselines, pin, r);
    hide QuoteFailure, PcrFailure, PinFailure, MatchesPin, ParsesBase16, NoZeroPcr, Reads;
  }

  lemma MatchesIfRead(pol: Policy, rows: seq<Baseline>, pin: Option<(string, Pcrs)>, r: Report)
    requires Reads(rows, pin)
    ensures PinFailure(pol, rows, rows, r).None? <==>
      MatchesPin(pol, pin, r) && (pol.minEntries > 0 ==> r.leafCount >= pol.minEntries)
  {
    hide ActiveRoot, PinnedPcr, Lower, Lookup, Reported, Maps, Shows;
    if pin.Some? {
      forall v ensures Lookup(pin.value.1, "7") == Some(v) <==> Maps(pin.value.1, "7", v) {
        LookupIff(pin.value.1, "7", v);
      }
      forall v ensures Lower(Reported(r, "7")) == Lower(v) <==> Shows(r, "7", v) {
        ReportedIff(r, "7", v);
      }
    }
  }

  lemma AcceptableReadsMachines(o: Oracles, pol: Policy, a: Db, b: Db, pin: Option<(string, Pcrs)>, r: Report)
    requires a.machines == b.machines
    ensures Acceptable(o, pol, a, pin, r) <==> Acceptable(o, pol, b, pin, r)
  {}

  lemma ChecksIff(o: Oracles, pol: Policy, db: Db, r: Report)
    requires OneActive(db.baselines)
    ensures Checks(o, pol, db, r).None? <==> Acceptable(o, pol, db, Pin(db.baselines), r)
  {
    ReadersReadPin(db.baselines, "7");
    hide Checks, Acceptable, OneActive, Pin;
    ChecksIfRead(o, pol, db, Pin(db.baselines), r);
  }

  // The verdict of /attest in any serial run, in terms of the abstract pin.
  lemma AttestIff(o: Oracles, pol: Policy, calls: seq<Call>, r: Report, now: Instant)
    ensures Handle(o, pol, Run(o, pol, calls), Attest(r, now)).1
      <==> AnswerTo(Run(o, pol, calls).nonces, r.nonce, now) == Recognised
           && Acceptable(o, pol, Run(o, pol, calls), PinAfter(o, pol, calls), r)
  {
    BaselinesRefinePin(o, pol, calls);
    hide AnswerTo, Next, Run, PinAfter, Checks, Acceptable, OneActive;
    var db := Run(o, pol, calls);
    ChecksIgnoreNonces(o, pol, db, Burned(db, r.nonce, now), r);
    ChecksIff(o, pol, db, r);
  }

  // The verdict of /enroll: the same, as if nothing had been enrolled before.
  lemma EnrollIff(o: Oracles, pol: Policy, calls: seq<Call>, r: Report, now: Instant)
    ensures Handle(o, pol, Run(o, pol, calls), Enroll(r, now)).1
      <==> AnswerTo(Run(o, pol, calls).nonces, r.nonce, now) == Recognised
           && Acceptable(o, pol, Run(o, pol, calls), None, r)
  {
    hide AnswerTo, Next, Run, Checks, Acceptable, Deactivated, Pinned, Restored, ActiveRow;
    var db := Run(o, pol, calls);
    var off := db.(baselines := Deactivated(db.baselines));
    NoneActive(off.baselines) by { AllDeactivated(db.baselines); }
    ChecksIfRead(o, pol, off, None, r);
    AcceptableReadsMachines(o, pol, db, off, None, r);
  }

  lemma AllDeactivated(rows: seq<Baseline>)
    ensures forall i | 0 <= i < |Deactivated(rows)| :: !Deactivated(rows)[i].active
  {}

  // ---- honest completeness -----------------------------------------------------------------

  // The report the shim makes in the last collection of a cache run.
  function Collected(h: Hash, events: seq<LC.Event>, e: LC.Event): Option<Report>
    requires e.Collect?
  {
    var s := LC.After(h, events);
    LC.ReportAfter(h, s.cache, LC.WorldOf(s, e), e.nonce)
  }

  // The log its third read saw.
  function LogRead(h: Hash, events: seq<LC.Event>, e: LC.Event): Log
    requires e.Collect?
  {
    LC.Apply(LC.Apply(LC.After(h, events).log, e.change1), e.change2)
  }

  predicate HonestCollection(h: Hash, events: seq<LC.Event>, e: LC.Event)
  {
    LC.Admissible(h, events + [e]) && e.Collect? && Collected(h, events, e).Some?
  }

  lemma CollectedFields(h: Hash, events: seq<LC.Event>, e: LC.Event)
    requires HonestCollection(h, events, e)
    ensures e.Collect? && Collected(h, events, e).Some?
    ensures var r := Collected(h, events, e).value; var entries := Entries(LogRead(h, events, e));
      && r.nonce == e.nonce && r.quoteAvailable && r.pcrs == e.pcrs.value && e.pcrs.Some?
      && r.machineId == Some(e.machineId) && e.quote.Some?
      && r.quoteMsg == Some(e.quote.value.0) && r.quoteSig == Some(e.quote.value.1)
      && r.summary == Summarise(LC.After(h, events).log)
      && r.merkleRoot == Hex(RootOf(h, entries)) && r.leafCount == |entries|
  {
    hide Summarise, Root, Depth, Hex, HexAll, Entries, Leaves, LC.CacheAfter, LC.Admissible, LC.After;
    LC.CacheRefinesRebuild(h, events, e);
  }

  // An honest report answering a waiting nonce: the quote verifies, no PCR is zero, the
  // log holds boot_aggregate, and the policies in force and the last enrolled baseline
  // agree with the report.
  ghost predicate HonestSetting(h: Hash, o: Oracles, pol: Policy, calls: seq<Call>, i: nat, at: Instant, now: Instant,
                          events: seq<LC.Event>, e: LC.Event)
  {
    && HonestCollection(h, events, e)
    && Waiting(o, pol, calls, i, e.nonce, at, now) && InTime(at, now)
    && var db, r, entries := Run(o, pol, calls), Collected(h, events, e).value, Entries(LogRead(h, events, e));
    && QuoteFailure(o, db, r).None?
    && r.pcrs != [] && NoZeroPcr(r.pcrs, false)
    && Summarise(LC.After(h, events).log).hasBootAggregate
    && entries != [] && pol.minEntries <= |entries|
    && (pol.strictEk ==> StrictlyEnrolled(db, Some(e.machineId)))
    && PinAgrees(pol, PinAfter(o, pol, calls), Hex(RootOf(h, entries)), r.pcrs)
  }

  ghost predicate PinAgrees(pol: Policy, pin: Option<(string, Pcrs)>, root: string, pcrs: Pcrs)
  {
    pin.Some? ==>
      && pin.value.0 == root
      && (pol.requirePcr7 ==> forall v :: Maps(pin.value.1, "7", v) ==> Maps(pcrs, "7", v))
  }

  // Main result: in that setting the report is accepted.
  lemma HonestReportAccepted(h: Hash, o: Oracles, pol: Policy, calls: seq<Call>, i: nat, at: Instant, now: Instant,
                             events: seq<LC.Event>, e: LC.Event)
    requires HonestSetting(h, o, pol, calls, i, at, now, events, e)
    ensures Handle(o, pol, Run(o, pol, calls), Attest(Collected(h, events, e).value, now)).1
  {
    hide Run, PinAfter, Handle, Collected, LogRead, Entries, QuoteFailure, RootOf, Lower, ParsesBase16, Summarise,
         Waiting, Hex, AnswerTo, LC.After, LC.Admissible;
    var r, db := Collected(h, events, e).value, Run(o, pol, calls);
    CollectedFields(h, events, e);
    WaitingNonceRecognised(o, pol, calls, i, e.nonce, at, now);
    HexDigestParses(o, RootOf(h, Entries(LogRead(h, events, e))));
    AttestIff(o, pol, calls, r, now);
    MoreEnrolledFewerZeros(r.pcrs, Enrolled(db, r.machineId));
  }

  lemma MoreEnrolledFewerZeros(pcrs: Pcrs, enrolled: bool)
    requires NoZeroPcr(pcrs, false)
    ensures NoZeroPcr(pcrs, enrolled)
  {
    forall i | 0 <= i < |pcrs| ensures !ZeroPcr(pcrs[i], enrolled) {
      assert !ZeroPcr(pcrs[i], false);
    }
  }

  // An empty log is never accepted, by either endpoint.
  lemma EmptyLogRejected(h: Hash, o: Oracles, pol: Policy, db: Db, now: Instant, events: seq<LC.Event>, e: LC.Event)
    requires HonestCollection(h, events, e) && Entries(LogRead(h, events, e)) == []
    ensures var r := Collected(h, events, e).value;
      !Handle(o, pol, db, Attest(r, now)).1 && !Handle(o, pol, db, Enroll(r, now)).1
  {
    hide Collected, Entries, LogRead, Summarise, LC.Admissible;
    CollectedFields(h, events, e);
    NoLeavesRejected(o, pol, db, Collected(h, events, e).value, now);
  }

  lemma NoLeavesRejected(o: Oracles, pol: Policy, db: Db, r: Report, now: Instant)
    requires r.leafCount == 0
    ensures !Handle(o, pol, db, Attest(r, now)).1 && !Handle(o, pol, db, Enroll(r, now)).1
  {
    hide AnswerTo, QuoteFailure, StrictFailure, PcrFailure, PinFailure, ParsesBase16, Next, Pinned, Restored, ActiveRow;
  }

  // ---- what acceptance says about the log ------------------------------------------------------

  // Main result.  Once a log has been enrolled, an accepted report whose root is that of
  // some log is about the very log that was enrolled if and only if both hold equally
  // many colons entry by entry, unless two hashed strings collide or a node is used as leaf.
  lemma AcceptedLogIsEnrolledLog(h: Hash, o: Oracles, pol: Policy, calls: seq<Call>, r: Report, now: Instant,
                                 enrolled: seq<Entry>, reported: seq<Entry>, pcrs: Pcrs)
    requires PinAfter(o, pol, calls) == Some((Hex(RootOf(h, enrolled)), pcrs))
    requires Lower(r.merkleRoot) == Hex(RootOf(h, reported))
    requires Handle(o, pol, Run(o, pol, calls), Attest(r, now)).1
    ensures (SameMeasurements(enrolled, reported) <==> SameShape(enrolled, reported))
      || LogsCollide(h, enrolled, reported) || NodeAsLeaf(h, enrolled, reported)
    ensures !NodeSized(enrolled) && !NodeSized(reported) ==> !NodeAsLeaf(h, enrolled, reported)
  {
    hide Run, PinAfter, Handle, AnswerTo, QuoteFailure, ParsesBase16, Lower, Hex, SameMeasurements, SameShape,
         LogsCollide, NodeAsLeaf, NodeSized, RootOf;
    AttestIff(o, pol, calls, r, now);
    LowerOfHex(RootOf(h, enrolled));
    assert Hex(RootOf(h, enrolled)) == Hex(RootOf(h, reported));
    RootsOfTrees(h, enrolled);
    RootsOfTrees(h, reported);
    RootBindsLog(h, enrolled, reported);
  }

  lemma RootsOfTrees(h: Hash, entries: seq<Entry>)
    ensures TreeOf(h, Leaves(h, entries, 0)).root == Hex(RootOf(h, entries))
  {}
}
