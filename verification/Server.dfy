// The handlers of server/main.py, statement by statement on tables that are
// updated in place, each proved to do what ServerSpec says.

module Server {
  import opened Wrappers
  import opened Text
  import opened Reports
  import opened IsoTime
  import opened Nonces
  import opened ServerSpec
  import opened ServerRuns

  class AttestServer {
    const oracles: Oracles
    const policy: Policy
    var activeNonces: Table
    var enrolledMachines: map<string, Machine>
    var baselines: seq<Baseline>

    function Tables(): Db
      reads this
    {
      Db(activeNonces, enrolledMachines, baselines)
    }

    constructor (oracles: Oracles, policy: Policy)
      ensures this.oracles == oracles && this.policy == policy && Tables() == EMPTY_DB
    {
      this.oracles, this.policy := oracles, policy;
      activeNonces, enrolledMachines, baselines := map[], map[], [];
    }

    // `nonce` is what secrets.token_hex(32) returned.
    method IssueNonce(nonce: string, now: Instant) returns (ok: bool)
      modifies this`activeNonces
      ensures activeNonces == Next(old(activeNonces), Issue(nonce, now))
      ensures ok == Inserts(old(activeNonces), nonce, now)
    {
      hide Late, Deadline, Fits;
      ok := Fits(now) && nonce !in activeNonces;
      if ok {
        activeNonces := activeNonces[nonce := Deadline(now)];
      }
    }

    method ConsumeNonce(nonce: string, now: Instant) returns (answer: Answer)
      modifies this`activeNonces
      ensures activeNonces == Next(old(activeNonces), Consume(nonce, now))
      ensures answer == AnswerTo(old(activeNonces), nonce, now)
    {
      hide Late, FromIso;
      activeNonces := map n | n in activeNonces && !Late(activeNonces[n], now) :: activeNonces[n];
      if nonce !in activeNonces {
        return NotRecognised;
      }
      var expiresAt := activeNonces[nonce];
      activeNonces := activeNonces - {nonce};
      match FromIso(expiresAt) {
        case None => answer := Unreadable;
        case Some(expiry) => answer := if now > expiry then Expired else Recognised;
      }
    }

    method RegisterMachine(machineId: string, akPub: string, ekCert: Option<string>, ekVerified: bool)
      modifies this`enrolledMachines
      ensures enrolledMachines == old(enrolledMachines)[machineId := Machine(akPub, ekCert, ekVerified)]
    {
      enrolledMachines := enrolledMachines[machineId := Machine(akPub, ekCert, ekVerified)];
    }

    method DeactivateAll()
      modifies this`baselines
      ensures baselines == Deactivated(old(baselines))
    {
      var rows := [];
      for i := 0 to |baselines|
        invariant |rows| == i
        invariant forall k | 0 <= k < i :: rows[k] == baselines[k].(active := false)
      {
        rows := rows + [baselines[i].(active := false)];
      }
      baselines := rows;
    }

    method PinBaseline(root: string, pcrs: Pcrs)
      modifies this`baselines
      ensures baselines == Pinned(old(baselines), root, pcrs)
    {
      var id := MaxId(baselines) + 1;
      DeactivateAll();
      baselines := baselines + [Baseline(id, Lower(root), pcrs, true)];
    }

    method VerifyEkCert(ek: string) returns (valid: bool)
      ensures valid == EkVerdict(oracles, policy, ek)
    {
      var decoded := oracles.b64(ek);
      if decoded.None? {
        return false;
      }
      if oracles.isX509(decoded.value) {
        return true;
      }
      if |decoded.value| >= 4 {
        if policy.strictEk {
          return false;
        }
        return true;
      }
      return false;
    }

    method VerifyQuoteSignature(r: Report) returns (failure: Option<Reason>)
      ensures failure == QuoteFailure(oracles, Tables(), r)
    {
      if !Truthy(r.quoteMsg) || !Truthy(r.quoteSig) {
        return Some(QuoteBlobsMissing);
      }
      var msg, sig := oracles.b64(r.quoteMsg.value), oracles.b64(r.quoteSig.value);
      if msg.None? || sig.None? {
        return Some(QuoteSignatureFailed);
      }
      var enrolled: Option<string> := None;
      if Truthy(r.machineId) && r.machineId.value in enrolledMachines {
        enrolled := Some(enrolledMachines[r.machineId.value].akPub);
      }
      var ak := if enrolled.Some? then oracles.b64(enrolled.value) else oracles.localAk;
      if ak.None? || !oracles.checkQuote(ak.value, msg.value, sig.value, r.nonce) {
        return Some(QuoteSignatureFailed);
      }
      return None;
    }

    method CheckPcrs(pcrs: Pcrs, isEnrolled: bool) returns (failure: Option<Reason>)
      ensures failure == PcrFailure(pcrs, isEnrolled)
    {
      for i := 0 to |pcrs|
        invariant PcrFailure(pcrs, isEnrolled) == PcrFailure(pcrs[i..], isEnrolled)
      {
        var (index, digest) := pcrs[i];
        if Lower(digest) == ZERO_DIGEST {
          if !(isEnrolled && index == "10") {
            return Some(PcrZero(index));
          }
        }
      }
      return None;
    }

    method VerifyReport(r: Report, now: Instant) returns (failure: Option<Reason>)
      modifies this`activeNonces
      ensures (Tables(), failure) == Verified(oracles, policy, old(Tables()), r, now)
    {
      hide AnswerTo, Next, PcrFailure, QuoteFailure, ActiveRow, ParsesBase16, Lookup, Lower;
      var answer := ConsumeNonce(r.nonce, now);
      if answer.NotRecognised? {
        return Some(NonceNotRecognised);
      }
      if !answer.Recognised? {
        return Some(NonceExpired);
      }
      failure := RunChecks(r);
      ChecksIgnoreNonces(oracles, policy, old(Tables()), Tables(), r);
    }

    method RunChecks(r: Report) returns (failure: Option<Reason>)
      ensures failure == Checks(oracles, policy, Tables(), r)
    {
      hide PcrFailure, QuoteFailure, ActiveRow, ParsesBase16, Lookup, Lower;
      if !r.quoteAvailable {
        return Some(NoQuote);
      }
      failure := VerifyQuoteSignature(r);
      if failure.Some? {
        return;
      }
      if policy.strictEk {
        if !Truthy(r.machineId) {
          return Some(StrictNoMachineId);
        }
        if r.machineId.value !in enrolledMachines {
          return Some(StrictNotRegistered);
        }
        if !enrolledMachines[r.machineId.value].ekVerified {
          return Some(StrictEkNotVerified);
        }
      }
      if r.pcrs == [] {
        return Some(PcrsEmpty);
      }
      var isEnrolled := Truthy(r.machineId) && r.machineId.value in enrolledMachines;
      failure := CheckPcrs(r.pcrs, isEnrolled);
      if failure.Some? {
        return;
      }
      if !isEnrolled && !r.summary.hasBootAggregate {
        return Some(NoBootAggregate);
      }
      if |r.merkleRoot| != 64 {
        return Some(RootLength);
      }
      if !ParsesBase16(oracles, r.merkleRoot) {
        return Some(RootNotHex);
      }
      if r.leafCount <= 0 {
        return Some(NoLeaves);
      }
      failure := CheckPins(r);
    }

    method CheckPins(r: Report) returns (failure: Option<Reason>)
      ensures failure == PinFailure(policy, baselines, baselines, r)
    {
      hide ActiveRow, Lookup, Lower;
      var pinnedRoot := ActiveRoot(baselines);
      if pinnedRoot.Some? && Lower(r.merkleRoot) != Lower(pinnedRoot.value) {
        return Some(RootMismatch);
      }
      if policy.requirePcr7 {
        var pinnedPcr7 := PinnedPcr(baselines, "7");
        if pinnedPcr7.Some? {
          var reportedPcr7 := Reported(r, "7");
          if Lower(reportedPcr7) != Lower(pinnedPcr7.value) {
            return Some(Pcr7Mismatch);
          }
        }
      }
      if policy.minEntries > 0 && r.leafCount < policy.minEntries {
        return Some(TooFewEntries);
      }
      return None;
    }

    method ChallengeEndpoint(nonce: string, now: Instant) returns (ok: bool)
      modifies this
      ensures (Tables(), ok) == Handle(oracles, policy, old(Tables()), Challenge(nonce, now))
    {
      ok := IssueNonce(nonce, now);
    }

    method RegisterEndpoint(req: RegisterRequest) returns (ok: bool)
      modifies this
      ensures (Tables(), ok) == Handle(oracles, policy, old(Tables()), Register(req))
    {
      var ekVerified := false;
      if Truthy(req.ekCert) {
        ekVerified := VerifyEkCert(req.ekCert.value);
        if !ekVerified {
          return false;
        }
      }
      RegisterMachine(req.machineId, req.akPub, req.ekCert, ekVerified);
      return true;
    }

    method AttestEndpoint(r: Report, now: Instant) returns (ok: bool)
      modifies this
      ensures (Tables(), ok) == Handle(oracles, policy, old(Tables()), Attest(r, now))
    {
      hide Verified;
      var failureReason := VerifyReport(r, now);
      ok := failureReason.None?;
    }

    method EnrollEndpoint(r: Report, now: Instant) returns (ok: bool)
      modifies this
      ensures (Tables(), ok) == Handle(oracles, policy, old(Tables()), Enroll(r, now))
    {
      hide Verified, Pinned, Restored, ActiveRow;
      var currentRoot := ActiveRoot(baselines);
      DeactivateAll();
      var failureReason := VerifyReport(r, now);
      if failureReason.Some? {
        if Truthy(currentRoot) {
          baselines := Restored(baselines, currentRoot.value);
        }
        return false;
      }
      var newRoot := Lower(r.merkleRoot);
      PinnedTwiceLowered(baselines, r.merkleRoot, r.pcrs);
      PinBaseline(newRoot, r.pcrs);
      return true;
    }
  }

  // A server handling requests one after the other.
  method Serve(oracles: Oracles, policy: Policy, calls: seq<Call>) returns (server: AttestServer, statuses: seq<bool>)
    ensures fresh(server) && server.Tables() == Run(oracles, policy, calls)
    ensures |statuses| == |calls|
    ensures forall k | 0 <= k < |calls| :: statuses[k] <==> Succeeds(oracles, policy, calls, k)
    ensures OneActive(server.baselines) && Pin(server.baselines) == PinAfter(oracles, policy, calls)
  {
    hide Handle, Run, OneActive, Pin, PinAfter;
    server := new AttestServer(oracles, policy);
    statuses := [];
    RunOfNothing(oracles, policy, calls);
    for i := 0 to |calls|
      invariant fresh(server) && server.oracles == oracles && server.policy == policy
      invariant server.Tables() == Run(oracles, policy, calls[..i])
      invariant |statuses| == i && forall k | 0 <= k < i :: statuses[k] <==> Succeeds(oracles, policy, calls, k)
    {
      RunNext(oracles, policy, calls, i);
      var ok: bool;
      match calls[i] {
        case Challenge(nonce, at) => ok := server.ChallengeEndpoint(nonce, at);
        case Register(req) => ok := server.RegisterEndpoint(req);
        case Attest(r, now) => ok := server.AttestEndpoint(r, now);
        case Enroll(r, now) => ok := server.EnrollEndpoint(r, now);
      }
      statuses := statuses + [ok];
    }
    assert calls[..|calls|] == calls;
    BaselinesRefinePin(oracles, policy, calls);
  }

  lemma RunOfNothing(o: Oracles, pol: Policy, calls: seq<Call>)
    ensures Run(o, pol, calls[..0]) == EMPTY_DB
  {}

  lemma RunNext(o: Oracles, pol: Policy, calls: seq<Call>, i: nat)
    requires i < |calls|
    ensures Run(o, pol, calls[..i + 1]) == Handle(o, pol, Run(o, pol, calls[..i]), calls[i]).0
    ensures Succeeds(o, pol, calls, i) <==> Handle(o, pol, Run(o, pol, calls[..i]), calls[i]).1
  {
    hide Handle;
    assert calls[..i + 1][..i] == calls[..i];
  }

  lemma PinnedTwiceLowered(rows: seq<Baseline>, root: string, pcrs: Pcrs)
    ensures Pinned(rows, Lower(root), pcrs) == Pinned(rows, root, pcrs)
  {
    LowerIdempotent(root);
  }
}
