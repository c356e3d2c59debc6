// The hypotheses of honest completeness, of strict registration and of the pinned
// baseline can be met by one run: a machine registers, its log is enrolled, and a later
// report from the same log is accepted, under strict policy.

module HonestExample {
  import opened Wrappers
  import opened Text
  import opened Merkle
  import opened ImaLog
  import opened ImaTree
  import opened ImaBinding
  import opened Reports
  import opened IsoTime
  import opened Nonces
  import opened ServerSpec
  import opened ServerRuns
  import opened HonestRuns
  import LC = LeafCache

  // ---- the log ---------------------------------------------------------------------------

  lemma BootLog(line: string)
    requires Entries([line]) == [LC.FILE] && NonBlank([line]) == [line]
    ensures AllParse(NonBlank([line])) && Summarise([line]).hasBootAggregate
  {
    hide ParseLine, NonBlank;
    KeepFull(ParseLine, [line]);
    assert Entries([line])[0].filename == "boot_aggregate";
  }

  lemma FileLine()
    ensures var line := PrintEntry(LC.FILE); Entries([line]) == [LC.FILE] && NonBlank([line]) == [line]
  {
    LC.FilesArePrintable();
    PrintParse(LC.FILE);
    hide PrintEntry, Printable, ParseLine;
    var line := PrintEntry(LC.FILE);
    LC.OneLine(line, LC.FILE);
  }

  // ---- the collections --------------------------------------------------------------------

  const PCRS: Pcrs := [("0", "0x1"), ("7", "0x2")]

  function Boot(line: string): LC.Event { LC.Kernel(LC.Grow([line])) }

  function Collection(nonce: string): LC.Event
  {
    LC.Collect(Some(PCRS), true, LC.Grow([]), true, LC.Grow([]), true, Some(("m", "s")), "id", nonce)
  }

  function FirstEvents(line: string): seq<LC.Event> { [Boot(line)] }

  function SecondEvents(line: string, nonce: string): seq<LC.Event> { [Boot(line)] + [Collection(nonce)] }

  lemma AfterBoot(h: Hash, line: string, nonce: string)
    ensures LC.After(h, FirstEvents(line)) == LC.State(LC.Cache([], 0), [line], [])
    ensures var s := LC.After(h, SecondEvents(line, nonce)); s.log == [line] && s.synced == [line]
  {
    assert [Boot(line)][..0] == [] && [] + [line] == [line] && [line] + [] == [line];
    LC.AfterLast(h, [Boot(line)], Collection(nonce));
  }

  lemma Admissible(h: Hash, line: string, n0: string, n1: string)
    requires AllParse(NonBlank([line]))
    ensures LC.Admissible(h, FirstEvents(line) + [Collection(n0)])
    ensures LC.Admissible(h, SecondEvents(line, n0) + [Collection(n1)])
  {
    hide LC.After, LC.Next, LC.Harmless, LC.Invariant, NonBlank, AllParse;
    AfterBoot(h, line, n0);
    var first := FirstEvents(line) + [Collection(n0)];
    HarmlessBoot(LC.After(h, []), line);
    LC.StartIsGood(h);
    assert [line] + [] == [line];
    LC.GrowthIsHarmless(h, LC.After(h, FirstEvents(line)), Collection(n0)) by { BootState(h, line); }
    assert first[..0] == [] && first[..1] == FirstEvents(line);
    assert LC.Admissible(h, first);
    LC.RunKeepsInvariant(h, first);
    assert first == SecondEvents(line, n0);
    LC.GrowthIsHarmless(h, LC.After(h, first), Collection(n1));
    var second := first + [Collection(n1)];
    assert second[..0] == [] && second[..1] == FirstEvents(line) && second[..2] == first;
  }

  lemma BootState(h: Hash, line: string)
    ensures LC.Invariant(h, LC.After(h, FirstEvents(line)))
  {
    AfterBoot(h, line, "");
    LC.FlushedIsRight(h);
  }

  lemma HarmlessBoot(s: LC.State, line: string)
    ensures LC.Harmless(s, Boot(line))
  {}

  lemma Honest(h: Hash, line: string, n0: string, n1: string)
    requires AllParse(NonBlank([line]))
    ensures HonestCollection(h, FirstEvents(line), Collection(n0))
    ensures LogRead(h, FirstEvents(line), Collection(n0)) == [line]
    ensures HonestCollection(h, SecondEvents(line, n0), Collection(n1))
    ensures LogRead(h, SecondEvents(line, n0), Collection(n1)) == [line]
  {
    hide LC.After, LC.Next, LC.CacheAfter, TreeOf, Summarise, LC.Admissible, NonBlank, AllParse;
    Admissible(h, line, n0, n1);
    AfterBoot(h, line, n0);
    assert [line] + [] == [line];
    assert LC.Refreshes(LC.WorldOf(LC.After(h, FirstEvents(line)), Collection(n0)));
    assert LC.Refreshes(LC.WorldOf(LC.After(h, SecondEvents(line, n0)), Collection(n1)));
  }

  // ---- the server -----------------------------------------------------------------------------

  const REGISTRATION: Call := Register(RegisterRequest("id", "ak", Some("ek")))

  function FirstCalls(n0: string): seq<Call> { [REGISTRATION] + [Challenge(n0, 0)] }

  function SecondCalls(n0: string, n1: string, r: Report): seq<Call>
  {
    (FirstCalls(n0) + [Enroll(r, 0)]) + [Challenge(n1, 0)]
  }

  predicate Agreeable(o: Oracles, n0: string, n1: string)
  {
    && o.b64("ak") == o.b64("ek") == o.b64("m") == o.b64("s") == Some([]) && o.isX509([])
    && o.checkQuote([], [], [], n0) && o.checkQuote([], [], [], n1)
  }

  lemma RunOneMore(o: Oracles, pol: Policy, calls: seq<Call>, call: Call)
    ensures var db := Run(o, pol, calls);
      && Run(o, pol, calls + [call]) == Handle(o, pol, db, call).0
      && Succeeds(o, pol, calls + [call], |calls|) == Handle(o, pol, db, call).1
      && PinAfter(o, pol, calls + [call]) == NextPin(PinAfter(o, pol, calls), call, Handle(o, pol, db, call).1)
  {
    hide Handle;
    assert (calls + [call])[..|calls|] == calls;
  }

  lemma RegistrationWorks(o: Oracles, pol: Policy, n0: string, n1: string)
    requires Agreeable(o, n0, n1)
    ensures Handle(o, pol, EMPTY_DB, REGISTRATION)
      == (Db(map[], map["id" := Machine("ak", Some("ek"), true)], []), true)
  {}

  predicate OnlyNonceAdded(db: Db, db': Db, n: string)
  {
    db'.machines == db.machines && db'.baselines == db.baselines && db'.nonces.Keys == db.nonces.Keys + {n}
  }

  lemma ChallengeWorks(o: Oracles, pol: Policy, db: Db, n: string)
    requires n !in db.nonces
    ensures Handle(o, pol, db, Challenge(n, 0)).1
    ensures OnlyNonceAdded(db, Handle(o, pol, db, Challenge(n, 0)).0, n)
  {
    hide Deadline;
  }

  predicate MachineKnown(db: Db)
  {
    "id" in db.machines && db.machines["id"].akPub == "ak" && db.machines["id"].ekVerified
  }

  lemma FirstRun(o: Oracles, pol: Policy, n0: string, n1: string)
    requires Agreeable(o, n0, n1)
    ensures Waiting(o, pol, FirstCalls(n0), 1, n0, 0, 0) && PinAfter(o, pol, FirstCalls(n0)) == None
    ensures var db := Run(o, pol, FirstCalls(n0)); MachineKnown(db) && db.baselines == [] && db.nonces.Keys == {n0}
  {
    hide Handle, Run, PinAfter, Succeeds, Fits, InTime;
    RegistrationRun(o, pol, n0, n1);
    RunOneMore(o, pol, [REGISTRATION], Challenge(n0, 0));
    ChallengeWorks(o, pol, Run(o, pol, [REGISTRATION]), n0);
    LastIsWaiting(o, pol, [REGISTRATION], n0);
  }

  lemma RegistrationRun(o: Oracles, pol: Policy, n0: string, n1: string)
    requires Agreeable(o, n0, n1)
    ensures var db := Run(o, pol, [REGISTRATION]); MachineKnown(db) && db.baselines == [] && db.nonces == map[]
    ensures PinAfter(o, pol, [REGISTRATION]) == None
  {
    assert [REGISTRATION] == [] + [REGISTRATION];
    EmptyRun(o, pol);
    RegistrationWorks(o, pol, n0, n1);
    hide Handle, Run, PinAfter, Succeeds;
    RunOneMore(o, pol, [], REGISTRATION);
  }

  // A nonce just issued is waiting.
  lemma LastIsWaiting(o: Oracles, pol: Policy, calls: seq<Call>, n: string)
    requires Succeeds(o, pol, calls + [Challenge(n, 0)], |calls|)
    ensures Waiting(o, pol, calls + [Challenge(n, 0)], |calls|, n, 0, 0)
  {
    hide Succeeds;
  }

  lemma EmptyRun(o: Oracles, pol: Policy)
    ensures Run(o, pol, []) == EMPTY_DB && PinAfter(o, pol, []) == None
  {}

  // With nothing enrolled, /enroll takes what /attest takes.
  lemma FirstEnrolment(o: Oracles, pol: Policy, db: Db, r: Report, now: Instant)
    requires db.baselines == []
    ensures Handle(o, pol, db, Enroll(r, now)).1 == Handle(o, pol, db, Attest(r, now)).1
  {
    hide AnswerTo, Checks, Next, Pinned, Restored;
    assert db.(baselines := Deactivated(db.baselines)) == db;
  }

  lemma EnrollKeeps(o: Oracles, pol: Policy, db: Db, r: Report, now: Instant)
    ensures var db' := Handle(o, pol, db, Enroll(r, now)).0;
      db'.machines == db.machines && db'.nonces.Keys <= db.nonces.Keys
  {
    hide AnswerTo, Checks, Pinned, Restored, ActiveRow;
  }

  lemma SecondRun(o: Oracles, pol: Policy, n0: string, n1: string, r: Report)
    requires Agreeable(o, n0, n1) && n0 != n1
    requires Handle(o, pol, Run(o, pol, FirstCalls(n0)), Attest(r, 0)).1
    ensures var calls := SecondCalls(n0, n1, r);
      && Waiting(o, pol, calls, 3, n1, 0, 0) && MachineKnown(Run(o, pol, calls))
      && PinAfter(o, pol, calls) == Some((Lower(r.merkleRoot), r.pcrs))
  {
    hide Handle, Run, PinAfter, Succeeds, Lower, FirstCalls, Waiting;
    var front := FirstCalls(n0) + [Enroll(r, 0)];
    FirstRun(o, pol, n0, n1);
    FirstCallsAre(n0);
    RunOneMore(o, pol, FirstCalls(n0), Enroll(r, 0));
    FirstEnrolment(o, pol, Run(o, pol, FirstCalls(n0)), r, 0);
    EnrollKeeps(o, pol, Run(o, pol, FirstCalls(n0)), r, 0);
    ChallengeWorks(o, pol, Run(o, pol, front), n1);
    RunOneMore(o, pol, front, Challenge(n1, 0));
    LastIsWaiting(o, pol, front, n1);
  }

  lemma FirstCallsAre(n0: string)
    ensures |FirstCalls(n0)| == 2
  {}

  lemma QuoteWorks(o: Oracles, db: Db, r: Report, n0: string, n1: string)
    requires Agreeable(o, n0, n1) && r.quoteMsg == Some("m") && r.quoteSig == Some("s")
    requires (r.nonce == n0 || r.nonce == n1) && r.machineId == Some("id") && MachineKnown(db)
    ensures QuoteFailure(o, db, r).None? && StrictlyEnrolled(db, Some("id"))
  {}

  lemma PcrWorks()
    ensures NoZeroPcr(PCRS, false)
  {
    assert |Lower("0x1")| == 3 && |Lower("0x2")| == 3 && |ZERO_DIGEST| == 66;
  }

  // ---- both settings ----------------------------------------------------------------------------

  const STRICT: Policy := Policy(true, true, 1)

  lemma FirstSetting(h: Hash, o: Oracles, line: string, n0: string, n1: string)
    requires Entries([line]) == [LC.FILE] && NonBlank([line]) == [line] && Agreeable(o, n0, n1)
    ensures HonestSetting(h, o, STRICT, FirstCalls(n0), 1, 0, 0, FirstEvents(line), Collection(n0))
  {
    hide Entries, NonBlank, AllParse, LogRead, LC.After, HonestCollection, Waiting, Run, PinAfter, QuoteFailure,
         NoZeroPcr, Summarise, Collected, RootOf, Hex, StrictlyEnrolled, Agreeable, MachineKnown;
    BootLog(line);
    AfterBoot(h, line, n0);
    Honest(h, line, n0, n1);
    CollectedFields(h, FirstEvents(line), Collection(n0));
    FirstRun(o, STRICT, n0, n1);
    PcrWorks();
    QuoteWorks(o, Run(o, STRICT, FirstCalls(n0)), Collected(h, FirstEvents(line), Collection(n0)).value, n0, n1);
  }

  lemma SecondSetting(h: Hash, o: Oracles, line: string, n0: string, n1: string, r: Report)
    requires Entries([line]) == [LC.FILE] && NonBlank([line]) == [line] && Agreeable(o, n0, n1) && n0 != n1
    requires r.merkleRoot == Hex(RootOf(h, [LC.FILE])) && r.pcrs == PCRS
    requires Handle(o, STRICT, Run(o, STRICT, FirstCalls(n0)), Attest(r, 0)).1
    ensures HonestSetting(h, o, STRICT, SecondCalls(n0, n1, r), 3, 0, 0, SecondEvents(line, n0), Collection(n1))
    ensures PinAfter(o, STRICT, SecondCalls(n0, n1, r)).Some?
  {
    hide Entries, NonBlank, AllParse, LogRead, LC.After, HonestCollection, Waiting, Run, Handle, PinAfter, QuoteFailure,
         NoZeroPcr, Summarise, Collected, RootOf, Hex, Lower, Lookup, StrictlyEnrolled, Agreeable, MachineKnown,
         FirstCalls, SecondCalls, FirstEvents, SecondEvents;
    BootLog(line);
    AfterBoot(h, line, n0);
    Honest(h, line, n0, n1);
    CollectedFields(h, SecondEvents(line, n0), Collection(n1));
    SecondRun(o, STRICT, n0, n1, r);
    LowerOfHex(RootOf(h, [LC.FILE]));
    PcrWorks();
    QuoteWorks(o, Run(o, STRICT, SecondCalls(n0, n1, r)),
               Collected(h, SecondEvents(line, n0), Collection(n1)).value, n0, n1);
  }

  // The setting of HonestRuns.HonestReportAccepted occurs with a pinned baseline, so its
  // conclusion, and with it the premise of ServerRuns.StrictRegistrationBinding, is
  // reached by a run, for any two nonces of 64 characters.
  lemma HonestSettingOccurs(h: Hash, n0: string, n1: string)
    returns (o: Oracles, pol: Policy, calls: seq<Call>, events: seq<LC.Event>, e: LC.Event)
    requires |n0| == |n1| == 64 && n0 != n1
    ensures pol.strictEk && pol.requirePcr7 && PinAfter(o, pol, calls).Some?
    ensures HonestSetting(h, o, pol, calls, 3, 0, 0, events, e) && e.nonce == n1
    ensures Handle(o, pol, Run(o, pol, calls), Attest(Collected(h, events, e).value, 0)).1
  {
    o := AgreeableOracles(n0, n1);
    pol := STRICT;
    hide HonestSetting, Handle, Run, PinAfter, Collected, Agreeable;
    StrictPolicy();
    calls, events, e := SettingOccurs(h, o, n0, n1);
  }

  lemma AgreeableOracles(n0: string, n1: string) returns (o: Oracles)
    ensures Agreeable(o, n0, n1)
  {
    o := Oracles((s: string) => Some([]), (d: bytes) => true, (k: bytes, m: bytes, s: bytes, n: string) => true, None,
                 (c: char) => false);
  }

  lemma SettingOccurs(h: Hash, o: Oracles, n0: string, n1: string)
    returns (calls: seq<Call>, events: seq<LC.Event>, e: LC.Event)
    requires Agreeable(o, n0, n1) && n0 != n1
    ensures PinAfter(o, STRICT, calls).Some?
    ensures HonestSetting(h, o, STRICT, calls, 3, 0, 0, events, e) && e.nonce == n1
    ensures Handle(o, STRICT, Run(o, STRICT, calls), Attest(Collected(h, events, e).value, 0)).1
  {
    hide HonestSetting, Handle, Run, PinAfter, Collected, FirstCalls, SecondCalls, FirstEvents, SecondEvents,
         Collection, RootOf, Hex, Entries, NonBlank, PrintEntry, Agreeable;
    var r := FirstEnrolled(h, o, n0, n1);
    calls, events, e := SecondCalls(n0, n1, r), SecondEvents(PrintEntry(LC.FILE), n0), Collection(n1);
    SecondAccepted(h, o, n0, n1, r);
    CollectionNonce(n1);
  }

  lemma SecondAccepted(h: Hash, o: Oracles, n0: string, n1: string, r: Report)
    requires Agreeable(o, n0, n1) && n0 != n1
    requires r.merkleRoot == Hex(RootOf(h, [LC.FILE])) && r.pcrs == PCRS
    requires Handle(o, STRICT, Run(o, STRICT, FirstCalls(n0)), Attest(r, 0)).1
    ensures var calls, events := SecondCalls(n0, n1, r), SecondEvents(PrintEntry(LC.FILE), n0);
      && HonestSetting(h, o, STRICT, calls, 3, 0, 0, events, Collection(n1)) && PinAfter(o, STRICT, calls).Some?
      && Collected(h, events, Collection(n1)).Some?
      && Handle(o, STRICT, Run(o, STRICT, calls), Attest(Collected(h, events, Collection(n1)).value, 0)).1
  {
    var events := SecondEvents(PrintEntry(LC.FILE), n0);
    hide HonestSetting, Handle, Run, PinAfter, Collected, FirstCalls, SecondCalls, FirstEvents, SecondEvents,
         Collection, RootOf, Hex, Entries, NonBlank, PrintEntry, Agreeable;
    FileLine();
    SecondSetting(h, o, PrintEntry(LC.FILE), n0, n1, r);
    SettingCollects(h, o, SecondCalls(n0, n1, r), events, Collection(n1));
    HonestReportAccepted(h, o, STRICT, SecondCalls(n0, n1, r), 3, 0, 0, events, Collection(n1));
  }

  lemma SettingCollects(h: Hash, o: Oracles, calls: seq<Call>, events: seq<LC.Event>, e: LC.Event)
    requires HonestSetting(h, o, STRICT, calls, 3, 0, 0, events, e)
    ensures e.Collect? && Collected(h, events, e).Some?
  {
    hide Collected, Waiting, Run, PinAfter, QuoteFailure, NoZeroPcr, LC.Admissible;
  }

  lemma StrictPolicy()
    ensures STRICT.strictEk && STRICT.requirePcr7
  {}

  // The report that gets enrolled.
  lemma FirstEnrolled(h: Hash, o: Oracles, n0: string, n1: string) returns (r: Report)
    requires Agreeable(o, n0, n1)
    ensures Collected(h, FirstEvents(PrintEntry(LC.FILE)), Collection(n0)) == Some(r)
    ensures r.merkleRoot == Hex(RootOf(h, [LC.FILE])) && r.pcrs == PCRS
    ensures Handle(o, STRICT, Run(o, STRICT, FirstCalls(n0)), Attest(r, 0)).1
  {
    hide HonestSetting, Handle, Run, PinAfter, Collected, FirstCalls, SecondCalls, FirstEvents, SecondEvents,
         Collection, RootOf, Hex, Entries, NonBlank, PrintEntry, Agreeable;
    FileLine();
    var line := PrintEntry(LC.FILE);
    FirstSetting(h, o, line, n0, n1);
    HonestReportAccepted(h, o, STRICT, FirstCalls(n0), 1, 0, 0, FirstEvents(line), Collection(n0));
    r := FirstReport(h, o, line, n0, n1);
  }

  lemma CollectionNonce(n: string)
    ensures Collection(n).Collect? && Collection(n).nonce == n
  {}

  lemma FirstReport(h: Hash, o: Oracles, line: string, n0: string, n1: string) returns (r: Report)
    requires Entries([line]) == [LC.FILE] && NonBlank([line]) == [line]
    requires HonestSetting(h, o, STRICT, FirstCalls(n0), 1, 0, 0, FirstEvents(line), Collection(n0))
    ensures Collected(h, FirstEvents(line), Collection(n0)) == Some(r)
    ensures r.merkleRoot == Hex(RootOf(h, [LC.FILE])) && r.pcrs == PCRS
  {
    hide Entries, NonBlank, AllParse, LogRead, LC.After, Waiting, Run, PinAfter, QuoteFailure, NoZeroPcr, Summarise,
         Collected, RootOf, Hex, StrictlyEnrolled, HonestCollection;
    BootLog(line);
    Honest(h, line, n0, n1);
    CollectedFields(h, FirstEvents(line), Collection(n0));
    r := Collected(h, FirstEvents(line), Collection(n0)).value;
  }
}
