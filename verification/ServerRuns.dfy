// Properties of whole runs of the verification server.

module ServerRuns {
  import opened Wrappers
  import opened Text
  import opened Reports
  import opened IsoTime
  import opened Nonces
  import opened ServerSpec

  // ---- the baselines table is one optional variable -----------------------------------

  // Ids ascend, and every root is 64 lower-case characters.
  predicate Ordered(rows: seq<Baseline>)
  {
    && (forall i, j | 0 <= i < j < |rows| :: rows[i].id < rows[j].id)
    && (forall i | 0 <= i < |rows| :: |rows[i].root| == 64 && Lower(rows[i].root) == rows[i].root)
  }

  // Empty, or exactly the last row is active.
  predicate OneActive(rows: seq<Baseline>)
  {
    Ordered(rows) && forall i | 0 <= i < |rows| :: rows[i].active <==> i == |rows| - 1
  }

  // The abstract variable: the pinned root and its PCR map.
  function Pin(rows: seq<Baseline>): Option<(string, Pcrs)>
  {
    if rows == [] then None else Some((rows[|rows| - 1].root, rows[|rows| - 1].pcrs))
  }

  lemma {:induction false} NoneActive(rows: seq<Baseline>)
    requires forall i | 0 <= i < |rows| :: !rows[i].active
    ensures ActiveRow(rows) == None
  {
    if rows != [] {
      NoneActive(rows[..|rows| - 1]);
    }
  }

  lemma LastIsActiveRow(rows: seq<Baseline>)
    requires OneActive(rows)
    ensures ActiveRow(rows) == if rows == [] then None else Some(rows[|rows| - 1])
  {
    if rows != [] {
      NoneActive(rows[..|rows| - 1]);
    }
  }

  // Both readers of the table read the variable.
  lemma ReadersReadPin(rows: seq<Baseline>, key: string)
    requires OneActive(rows)
    ensures ActiveRoot(rows) == match Pin(rows) case None => None case Some(p) => Some(p.0)
    ensures PinnedPcr(rows, key) == match Pin(rows) case None => None case Some(p) => Lookup(p.1, key)
  {
    LastIsActiveRow(rows);
  }

  predicate Below(rows: seq<Baseline>, id: nat) { forall i | 0 <= i < |rows| :: rows[i].id <= id }

  lemma {:induction false} MaxIdBounds(rows: seq<Baseline>)
    ensures Below(rows, MaxId(rows))
  {
    if rows != [] {
      MaxIdBounds(rows[..|rows| - 1]);
      assert forall i | 0 <= i < |rows| - 1 :: rows[i] == rows[..|rows| - 1][i];
    }
  }

  lemma {:induction false} MaxIdLeast(rows: seq<Baseline>, id: nat)
    requires Below(rows, id)
    ensures MaxId(rows) <= id
  {
    if rows != [] {
      MaxIdLeast(rows[..|rows| - 1], id);
    }
  }

  lemma {:induction false} WithRootBelow(rows: seq<Baseline>, root: string, id: nat)
    requires Below(rows, id)
    ensures Below(WithRoot(rows, root), id)
  {
    if rows != [] {
      WithRootBelow(rows[..|rows| - 1], root, id);
    }
  }

  // Restoring by root finds the row that was active, and no other.
  lemma RestoreUndoes(rows: seq<Baseline>)
    requires OneActive(rows) && rows != []
    ensures Restored(Deactivated(rows), rows[|rows| - 1].root) == rows
  {
    var last := |rows| - 1;
    var d, root := Deactivated(rows), rows[last].root;
    assert Below(d, d[last].id);
    WithRootBelow(d, root, d[last].id);
    MaxIdLeast(WithRoot(d, root), d[last].id);
    assert WithRoot(d, root) == WithRoot(d[..last], root) + [d[last]];
    LastBoundsMax(WithRoot(d[..last], root), d[last]);
    assert MaxId(WithRoot(d, root)) == rows[last].id;
    hide MaxId, WithRoot;
    assert forall i | 0 <= i < |rows| :: Restored(d, root)[i] == rows[i];
  }

  lemma LastBoundsMax(front: seq<Baseline>, row: Baseline)
    ensures MaxId(front + [row]) >= row.id
  {
    assert (front + [row])[..|front|] == front;
  }

  lemma PinKeepsOneActive(rows: seq<Baseline>, root: string, pcrs: Pcrs)
    requires Ordered(rows) && |root| == 64
    ensures OneActive(Pinned(rows, root, pcrs)) && Pin(Pinned(rows, root, pcrs)) == Some((Lower(root), pcrs))
  {
    MaxIdBounds(rows);
    LowerIdempotent(root);
    hide MaxId, Lower;
  }

  lemma AcceptedRootLength(o: Oracles, pol: Policy, db: Db, r: Report, now: Instant)
    requires Verified(o, pol, db, r, now).1.None?
    ensures |r.merkleRoot| == 64
  {
    hide AnswerTo, QuoteFailure, StrictFailure, PcrFailure, PinFailure, ParsesBase16;
  }

  lemma VerifiedKeeps(o: Oracles, pol: Policy, db: Db, r: Report, now: Instant)
    ensures Verified(o, pol, db, r, now).0 == db.(nonces := Verified(o, pol, db, r, now).0.nonces)
  {}

  // The abstract machine: only a successful enrolment writes the variable.
  function NextPin(pin: Option<(string, Pcrs)>, call: Call, ok: bool): Option<(string, Pcrs)>
  {
    if call.Enroll? && ok then Some((Lower(call.report.merkleRoot), call.report.pcrs)) else pin
  }

  lemma TruthyRoot(rows: seq<Baseline>)
    requires OneActive(rows)
    ensures Truthy(ActiveRoot(rows)) <==> rows != []
  {
    LastIsActiveRow(rows);
  }

  lemma EnrollRefines(o: Oracles, pol: Policy, db: Db, r: Report, now: Instant)
    requires OneActive(db.baselines)
    ensures var (db', failure) := Enrolling(o, pol, db, r, now);
      && OneActive(db'.baselines)
      && (!failure.None? ==> db'.baselines == db.baselines)
      && (failure.None? ==> Pin(db'.baselines) == Some((Lower(r.merkleRoot), r.pcrs)))
  {
    hide Verified, Pinned, Restored, Lower, ActiveRow, OneActive, Pin;
    var rows := db.baselines;
    var off := db.(baselines := Deactivated(rows));
    VerifiedKeeps(o, pol, off, r, now);
    if Verified(o, pol, off, r, now).1.None? {
      AcceptedRootLength(o, pol, off, r, now);
      PinAfterOff(rows, r.merkleRoot, r.pcrs);
    } else {
      RestoreAfterOff(rows);
    }
  }

  lemma PinAfterOff(rows: seq<Baseline>, root: string, pcrs: Pcrs)
    requires OneActive(rows) && |root| == 64
    ensures OneActive(Pinned(Deactivated(rows), root, pcrs))
    ensures Pin(Pinned(Deactivated(rows), root, pcrs)) == Some((Lower(root), pcrs))
  {
    hide Pinned, Lower, Pin;
    PinKeepsOneActive(Deactivated(rows), root, pcrs);
  }

  lemma RestoreAfterOff(rows: seq<Baseline>)
    requires OneActive(rows)
    ensures Truthy(ActiveRoot(rows)) ==> Restored(Deactivated(rows), ActiveRoot(rows).value) == rows
    ensures !Truthy(ActiveRoot(rows)) ==> Deactivated(rows) == rows
  {
    hide Restored, ActiveRow;
    TruthyRoot(rows);
    LastIsActiveRow(rows);
    if rows != [] {
      RestoreUndoes(rows);
    } else {
      assert Deactivated(rows) == rows;
    }
  }

  // Every request, handled from any good table, moves the variable as the abstract
  // machine does and otherwise leaves the table exactly as it was.
  lemma HandleRefinesPin(o: Oracles, pol: Policy, db: Db, call: Call)
    requires OneActive(db.baselines)
    ensures var (db', ok) := Handle(o, pol, db, call);
      && OneActive(db'.baselines)
      && Pin(db'.baselines) == NextPin(Pin(db.baselines), call, ok)
      && (!(call.Enroll? && ok) ==> db'.baselines == db.baselines)
  {
    hide Verified, Enrolling, Lower;
    match call
    case Challenge(_, _) =>
    case Register(_) =>
    case Attest(r, now) => VerifiedKeeps(o, pol, db, r, now);
    case Enroll(r, now) => EnrollRefines(o, pol, db, r, now);
  }

  // The calls answered with status 200, and what the abstract machine makes of a run.
  predicate Succeeds(o: Oracles, pol: Policy, calls: seq<Call>, k: nat)
    requires k < |calls|
  {
    Handle(o, pol, Run(o, pol, calls[..k]), calls[k]).1
  }

  function PinAfter(o: Oracles, pol: Policy, calls: seq<Call>): Option<(string, Pcrs)>
  {
    if calls == [] then None
    else
      var last := |calls| - 1;
      NextPin(PinAfter(o, pol, calls[..last]), calls[last], Succeeds(o, pol, calls, last))
  }

  // Main result on baselines, for every serial run from the empty database.
  lemma {:induction false} BaselinesRefinePin(o: Oracles, pol: Policy, calls: seq<Call>)
    ensures OneActive(Run(o, pol, calls).baselines)
    ensures Pin(Run(o, pol, calls).baselines) == PinAfter(o, pol, calls)
  {
    if calls != [] {
      hide Handle, OneActive, Pin, NextPin;
      var last := |calls| - 1;
      BaselinesRefinePin(o, pol, calls[..last]);
      HandleRefinesPin(o, pol, Run(o, pol, calls[..last]), calls[last]);
    } else {
      assert Run(o, pol, calls).baselines == [];
    }
  }

  // ---- every handler is a sequence of the blocks of Nonces ---------------------------

  function BlocksOf(call: Call): seq<Block>
  {
    match call
    case Challenge(nonce, at) => [Issue(nonce, at)]
    case Register(_) => []
    case Attest(r, now) => [Consume(r.nonce, now)]
    case Enroll(r, now) => [Consume(r.nonce, now)]
  }

  function AllBlocks(calls: seq<Call>): seq<Block>
  {
    if calls == [] then [] else AllBlocks(calls[..|calls| - 1]) + BlocksOf(calls[|calls| - 1])
  }

  lemma {:induction false} RunIsBlocks(o: Oracles, pol: Policy, calls: seq<Call>)
    ensures Run(o, pol, calls).nonces == After(AllBlocks(calls))
  {
    if calls != [] {
      var last := |calls| - 1;
      var front := AllBlocks(calls[..last]);
      RunIsBlocks(o, pol, calls[..last]);
      HandleIsBlock(o, pol, Run(o, pol, calls[..last]), calls[last]);
      if calls[last].Register? {
        assert AllBlocks(calls) == front;
      } else {
        assert AllBlocks(calls)[..|front|] == front;
      }
    }
  }

  lemma HandleIsBlock(o: Oracles, pol: Policy, db: Db, call: Call)
    ensures var n := Handle(o, pol, db, call).0.nonces;
      if call.Register? then n == db.nonces else n == Next(db.nonces, BlocksOf(call)[0])
  {
    hide Next, Checks, Pinned, Restored, Deactivated;
  }

  // ---- conservation, call by call -----------------------------------------------------

  predicate ChallengedAt(o: Oracles, pol: Policy, calls: seq<Call>, k: nat, n: string)
    requires k < |calls|
  {
    calls[k].Challenge? && calls[k].nonce == n && Succeeds(o, pol, calls, k)
  }

  predicate SucceededAt(o: Oracles, pol: Policy, calls: seq<Call>, k: nat, n: string)
    requires k < |calls|
  {
    (calls[k].Attest? || calls[k].Enroll?) && calls[k].report.nonce == n && Succeeds(o, pol, calls, k)
  }

  function ChallengesFor(o: Oracles, pol: Policy, calls: seq<Call>, n: string): nat
  {
    if calls == [] then 0
    else
      var last := |calls| - 1;
      ChallengesFor(o, pol, calls[..last], n) + (if ChallengedAt(o, pol, calls, last, n) then 1 else 0)
  }

  function SuccessesFor(o: Oracles, pol: Policy, calls: seq<Call>, n: string): nat
  {
    if calls == [] then 0
    else
      var last := |calls| - 1;
      SuccessesFor(o, pol, calls[..last], n) + (if SucceededAt(o, pol, calls, last, n) then 1 else 0)
  }

  lemma CountOneMore(front: seq<Block>, b: Block, n: string)
    ensures Issues(front + [b], n) == Issues(front, n)
      + (if b.Issue? && b.nonce == n && Inserts(After(front), n, b.at) then 1 else 0)
    ensures Acceptances(front + [b], n) == Acceptances(front, n)
      + (if b.Consume? && b.nonce == n && AnswerTo(After(front), n, b.now) == Recognised then 1 else 0)
  {
    assert (front + [b])[..|front|] == front;
    hide After, AnswerTo, Inserts;
  }

  // What one call counts for, against what its block counts for.
  lemma CallAndBlock(o: Oracles, pol: Policy, db: Db, call: Call)
    ensures call.Challenge? ==> Handle(o, pol, db, call).1 == Inserts(db.nonces, call.nonce, call.at)
    ensures (call.Attest? || call.Enroll?) && Handle(o, pol, db, call).1 ==>
      AnswerTo(db.nonces, call.report.nonce, call.now) == Recognised
  {
    hide Handle, AnswerTo, Inserts;
    if call.Challenge? {
      ChallengeInserts(o, pol, db, call);
    }
    if (call.Attest? || call.Enroll?) && Handle(o, pol, db, call).1 {
      SuccessNeedsNonce(o, pol, db, call);
    }
  }

  // The same for the last call of a run.
  lemma LastCallAndBlock(o: Oracles, pol: Policy, calls: seq<Call>, n: string)
    requires calls != []
    ensures var last := |calls| - 1; var t := After(AllBlocks(calls[..last]));
      if calls[last].Register? then !ChallengedAt(o, pol, calls, last, n) && !SucceededAt(o, pol, calls, last, n)
      else
        var b := BlocksOf(calls[last])[0];
        && (ChallengedAt(o, pol, calls, last, n) <==> b.Issue? && b.nonce == n && Inserts(t, n, b.at))
        && (SucceededAt(o, pol, calls, last, n) ==>
              b.Consume? && b.nonce == n && AnswerTo(t, n, b.now) == Recognised)
  {
    hide Handle, Run, After, AnswerTo, Inserts, AllBlocks;
    var last := |calls| - 1;
    RunIsBlocks(o, pol, calls[..last]);
    CallAndBlock(o, pol, Run(o, pol, calls[..last]), calls[last]);
  }

  lemma OneCallMore(o: Oracles, pol: Policy, calls: seq<Call>, n: string)
    requires calls != []
    ensures var last := |calls| - 1; var front := calls[..last];
      && (calls[last].Register? ==> AllBlocks(calls) == AllBlocks(front))
      && (!calls[last].Register? ==> AllBlocks(calls) == AllBlocks(front) + [BlocksOf(calls[last])[0]])
      && ChallengesFor(o, pol, calls, n)
         == ChallengesFor(o, pol, front, n) + (if ChallengedAt(o, pol, calls, last, n) then 1 else 0)
      && SuccessesFor(o, pol, calls, n)
         == SuccessesFor(o, pol, front, n) + (if SucceededAt(o, pol, calls, last, n) then 1 else 0)
  {
    hide ChallengedAt, SucceededAt;
  }

  lemma {:induction false} CallsAndBlocks(o: Oracles, pol: Policy, calls: seq<Call>, n: string)
    ensures ChallengesFor(o, pol, calls, n) == Issues(AllBlocks(calls), n)
    ensures SuccessesFor(o, pol, calls, n) <= Acceptances(AllBlocks(calls), n)
  {
    if calls != [] {
      hide ChallengedAt, SucceededAt, After, AnswerTo, Inserts, Issues, Acceptances, AllBlocks, ChallengesFor,
           SuccessesFor;
      var last := |calls| - 1;
      CallsAndBlocks(o, pol, calls[..last], n);
      OneCallMore(o, pol, calls, n);
      LastCallAndBlock(o, pol, calls, n);
      if !calls[last].Register? {
        CountOneMore(AllBlocks(calls[..last]), BlocksOf(calls[last])[0], n);
      }
    } else {
      assert AllBlocks(calls) == [];
    }
  }

  lemma ChallengeInserts(o: Oracles, pol: Policy, db: Db, call: Call)
    requires call.Challenge?
    ensures Handle(o, pol, db, call).1 == Inserts(db.nonces, call.nonce, call.at)
  {}

  // In every serial run a nonce is answered with status 200 at most as often as it was
  // issued, not counting the issue that is still stored.
  lemma NoMoreSuccessesThanChallenges(o: Oracles, pol: Policy, calls: seq<Call>, n: string)
    ensures SuccessesFor(o, pol, calls, n) + Present(Run(o, pol, calls).nonces, n) <= ChallengesFor(o, pol, calls, n)
  {
    hide SuccessesFor, ChallengesFor, Issues, Acceptances, Purges, Run, AllBlocks, After;
    CallsAndBlocks(o, pol, calls, n);
    RunIsBlocks(o, pol, calls);
    Conservation(AllBlocks(calls), n);
  }

  // No verdict without a recognised nonce.
  lemma SuccessNeedsNonce(o: Oracles, pol: Policy, db: Db, call: Call)
    requires (call.Attest? || call.Enroll?) && Handle(o, pol, db, call).1
    ensures AnswerTo(db.nonces, call.report.nonce, call.now) == Recognised
  {
    hide AnswerTo, Checks, Next;
  }

  // ---- registration binding -----------------------------------------------------------

  predicate RegisteredAt(o: Oracles, pol: Policy, calls: seq<Call>, j: nat, id: string)
  {
    j < |calls| && calls[j].Register? && calls[j].req.machineId == id && Succeeds(o, pol, calls, j)
  }

  // Call j registered the machine and no later call did.
  predicate LastRegistration(o: Oracles, pol: Policy, calls: seq<Call>, j: nat, id: string)
  {
    RegisteredAt(o, pol, calls, j, id) && forall k | j < k < |calls| :: !RegisteredAt(o, pol, calls, k, id)
  }

  lemma RegisteredInFront(o: Oracles, pol: Policy, calls: seq<Call>, m: nat, j: nat, id: string)
    requires j < m <= |calls|
    ensures RegisteredAt(o, pol, calls[..m], j, id) <==> RegisteredAt(o, pol, calls, j, id)
  {
    assert calls[..m][..j] == calls[..j];
  }

  lemma OnlyRegisterWrites(o: Oracles, pol: Policy, db: Db, call: Call)
    ensures var (db', ok) := Handle(o, pol, db, call);
      db'.machines == if call.Register? && ok
                      then db.machines[call.req.machineId :=
                             Machine(call.req.akPub, call.req.ekCert, Truthy(call.req.ekCert))]
                      else db.machines
    ensures call.Register? && Handle(o, pol, db, call).1 && Truthy(call.req.ekCert) ==>
      EkVerdict(o, pol, call.req.ekCert.value)
  {
    hide Verified, EkVerdict, Pinned, Restored, ActiveRow;
    match call
    case Challenge(_, _) =>
    case Register(_) =>
    case Attest(r, now) => VerifiedKeeps(o, pol, db, r, now);
    case Enroll(r, now) => VerifiedKeeps(o, pol, db.(baselines := Deactivated(db.baselines)), r, now);
  }

  // Each row is the last successful registration of its machine, through upserts,
  // rejected registrations and everything else.
  lemma {:induction false} RowIsLastRegistration(o: Oracles, pol: Policy, calls: seq<Call>, id: string) returns (j: nat)
    requires id in Run(o, pol, calls).machines
    ensures LastRegistration(o, pol, calls, j, id)
    ensures var req := calls[j].req;
      && Run(o, pol, calls).machines[id] == Machine(req.akPub, req.ekCert, Truthy(req.ekCert))
      && (Truthy(req.ekCert) ==> EkVerdict(o, pol, req.ekCert.value))
  {
    hide Handle, EkVerdict;
    var last := |calls| - 1;
    var front, call := calls[..last], calls[last];
    OnlyRegisterWrites(o, pol, Run(o, pol, front), call);
    if call.Register? && Succeeds(o, pol, calls, last) && call.req.machineId == id {
      j := last;
    } else {
      assert !RegisteredAt(o, pol, calls, last, id);
      j := RowIsLastRegistration(o, pol, front, id);
      assert front[j] == calls[j] by { assert RegisteredAt(o, pol, front, j, id); }
      hide RegisteredAt, Run;
      RegisteredInFront(o, pol, calls, last, j, id);
      forall k | j < k < |calls| ensures !RegisteredAt(o, pol, calls, k, id) {
        if k < last {
          RegisteredInFront(o, pol, calls, last, k, id);
        }
      }
    }
  }

  // The quote verifies under this key, under this AK.
  predicate QuotedWith(o: Oracles, key: bytes, r: Report)
  {
    && r.quoteMsg.Some? && r.quoteSig.Some?
    && var msg, sig := o.b64(r.quoteMsg.value), o.b64(r.quoteSig.value);
    && msg.Some? && sig.Some? && o.checkQuote(key, msg.value, sig.value, r.nonce)
  }

  predicate QuotedBy(o: Oracles, akPub: string, r: Report)
  {
    o.b64(akPub).Some? && QuotedWith(o, o.b64(akPub).value, r)
  }

  // What strict policy has checked of an accepted report.
  lemma StrictChecks(o: Oracles, pol: Policy, db: Db, r: Report)
    requires pol.strictEk && Checks(o, pol, db, r).None?
    ensures r.machineId.Some? && r.machineId.value in db.machines && db.machines[r.machineId.value].ekVerified
    ensures QuotedBy(o, db.machines[r.machineId.value].akPub, r)
  {
    hide PcrFailure, RootFailure, PinFailure;
  }

  lemma SuccessChecks(o: Oracles, pol: Policy, db: Db, call: Call)
    requires (call.Attest? || call.Enroll?) && Handle(o, pol, db, call).1
    ensures Checks(o, pol, if call.Attest? then Burned(db, call.report.nonce, call.now)
                           else Burned(db.(baselines := Deactivated(db.baselines)), call.report.nonce, call.now),
                   call.report).None?
  {
    hide AnswerTo, Checks, Next, PinnedPcr;
    var before := if call.Attest? then db else db.(baselines := Deactivated(db.baselines));
    ChecksIgnoreNonces(o, pol, before, Burned(before, call.report.nonce, call.now), call.report);
  }

  // Main result on registration.  Under strict policy every accepted report names a
  // machine whose last successful registration carried an X.509 EK certificate, and
  // its quote was checked with the AK of that same registration.
  lemma StrictRegistrationBinding(o: Oracles, pol: Policy, calls: seq<Call>, k: nat) returns (j: nat)
    requires pol.strictEk && k < |calls| && (calls[k].Attest? || calls[k].Enroll?) && Succeeds(o, pol, calls, k)
    ensures j < k && calls[k].report.machineId.Some?
    ensures LastRegistration(o, pol, calls[..k], j, calls[k].report.machineId.value)
    ensures var req, r := calls[j].req, calls[k].report;
      && req.ekCert.Some? && o.b64(req.ekCert.value).Some? && o.isX509(o.b64(req.ekCert.value).value)
      && QuotedBy(o, req.akPub, r)
  {
    hide Run, Handle, Checks, LastRegistration, Next;
    var db, call := Run(o, pol, calls[..k]), calls[k];
    SuccessChecks(o, pol, db, call);
    var seen := if call.Attest? then Burned(db, call.report.nonce, call.now)
                else Burned(db.(baselines := Deactivated(db.baselines)), call.report.nonce, call.now);
    StrictChecks(o, pol, seen, call.report);
    j := RowIsLastRegistration(o, pol, calls[..k], call.report.machineId.value);
    LastRegistrationIndex(o, pol, calls[..k], j, call.report.machineId.value);
    assert calls[..k][j] == calls[j];
  }

  lemma LastRegistrationIndex(o: Oracles, pol: Policy, calls: seq<Call>, j: nat, id: string)
    requires LastRegistration(o, pol, calls, j, id)
    ensures j < |calls| && calls[j].Register?
  {}
}
