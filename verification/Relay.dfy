// One game-client connection, end to end inside the shim (phase3/shim.py,
// _handle_client and _send_response).

module Relay {
  import opened Wrappers
  import opened Merkle
  import opened IsoTime
  import opened JsonReply
  import opened ServerSpec
  import opened Reports
  import opened LeafCache
  import N = Nonces
  import R = ServerRuns
  import H = HonestRuns

  // What the client sends: a read that fails, text that is no JSON (which is tolerated),
  // a JSON object, or JSON of another kind, whose missing .get() raises.
  datatype Handshake = ReadError | NotJson | JsonObject | OtherJson

  // GET /challenge: the text under "nonce", a failure reported as RuntimeError, or an
  // exception of another type, as for a body that is no JSON.
  datatype Challenge = Nonce(text: string) | Refused | ChallengeRaises

  // POST /attest: nothing usable, the server's verdict, or an exception that no handler
  // catches, as for JSON that is no object.
  datatype Verdict = Unreachable | Valid(token: string) | Invalid(reason: string) | PostRaises

  // Everything one connection meets.  `escapes`: if the collection fails, it is with an
  // exception other than RuntimeError and ValueError.
  datatype Visit = Visit(handshake: Handshake, challenge: Challenge, world: World, escapes: bool, verdict: Verdict)

  // How it ends: with one reply, without any, or with an exception that ends the daemon.
  datatype Outcome = Sent(reply: Reply) | NoReply | Ended

  predicate Shaken(handshake: Handshake) { handshake.NotJson? || handshake.JsonObject? }

  // Anything but 64 characters is refused.
  predicate UsableNonce(challenge: Challenge) { challenge.Nonce? && |challenge.text| == 64 }

  predicate Collects(v: Visit) { Shaken(v.handshake) && UsableNonce(v.challenge) }

  function CacheOf(h: Hash, c: Cache, v: Visit): Cache { if Collects(v) then CacheAfter(h, c, v.world) else c }

  // The report posted in this connection, if it gets that far.
  function PostedBy(h: Hash, c: Cache, v: Visit): Option<Report>
  {
    if Collects(v) then ReportAfter(h, c, v.world, v.challenge.text) else None
  }

  function Answer(verdict: Verdict): Outcome
  {
    match verdict
    case Unreachable => Sent(Refuse("attestation server unreachable"))
    case Valid(token) => Sent(Approve(token))
    case Invalid(reason) => Sent(Refuse(reason))
    case PostRaises => Ended
  }

  function OutcomeOf(h: Hash, c: Cache, v: Visit): Outcome
  {
    if v.handshake.ReadError? then NoReply
    else if v.handshake.OtherJson? || v.challenge.ChallengeRaises? then Ended
    else if !UsableNonce(v.challenge) then Sent(Refuse("challenge fetch failed"))
    else if PostedBy(h, c, v).Some? then Answer(v.verdict)
    else if v.escapes then Ended
    else Sent(Refuse("attestation report generation failed"))
  }

  // What the client can read.
  function Text(outcome: Outcome): string { match outcome case Sent(reply) => Print(reply) case _ => "" }

  method HandleClient(shim: Shim, v: Visit) returns (sent: Option<string>, ended: bool, ghost posted: Option<Report>)
    modifies shim
    ensures shim.Globals() == CacheOf(shim.h, old(shim.Globals()), v)
    ensures posted == PostedBy(shim.h, old(shim.Globals()), v)
    ensures posted.Some? ==> v.challenge.Nonce? && posted.value.nonce == v.challenge.text
    ensures var outcome := OutcomeOf(shim.h, old(shim.Globals()), v);
      && (ended <==> outcome.Ended?)
      && sent == match outcome case Sent(reply) => Some(Print(reply)) case _ => None
  {
    hide ReportAfter, CacheAfter, Print;
    posted, sent, ended := None, None, false;
    match v.handshake {
      case ReadError => return;
      case OtherJson =>
        ended := true;
        return;
      case NotJson =>
      case JsonObject =>
    }
    match v.challenge {
      case ChallengeRaises => ended := true;
      case Refused => sent := Some(Print(Refuse("challenge fetch failed")));
      case Nonce(nonce) =>
        if |nonce| != 64 {
          sent := Some(Print(Refuse("challenge fetch failed")));
          return;
        }
        ReportNonce(shim.h, shim.Globals(), v.world, nonce);
        var report := shim.CollectReportIncremental(nonce, v.world);
        posted := report;
        if report.None? {
          if v.escapes {
            ended := true;
          } else {
            sent := Some(Print(Refuse("attestation report generation failed")));
          }
          return;
        }
        match v.verdict {
          case Unreachable => sent := Some(Print(Refuse("attestation server unreachable")));
          case Valid(token) => sent := Some(Print(Approve(token)));
          case Invalid(reason) => sent := Some(Print(Refuse(reason)));
          case PostRaises => ended := true;
        }
    }
  }

  lemma ReportNonce(h: Hash, c: Cache, w: World, nonce: string)
    ensures ReportAfter(h, c, w, nonce).Some? ==> ReportAfter(h, c, w, nonce).value.nonce == nonce
  {}

  // A reader that approves any prefix of the reply has the server's yes to a posted report.
  lemma ApprovalNeedsVerdict(h: Hash, c: Cache, v: Visit, k: nat)
    requires k <= |Text(OutcomeOf(h, c, v))| && SaysTrue(Text(OutcomeOf(h, c, v))[..k], "valid")
    ensures PostedBy(h, c, v).Some? && v.verdict.Valid? && k >= 14
    ensures UsableNonce(v.challenge) && PostedBy(h, c, v).value.nonce == v.challenge.text
  {
    hide SaysTrue, Print, ReportAfter;
    match OutcomeOf(h, c, v)
    case Sent(reply) =>
      DecodersAgree(reply, k);
      ReportNonce(h, c, v.world, v.challenge.text);
    case _ => NothingSaysTrue(k);
  }

  lemma NothingSaysTrue(k: nat)
    requires k <= |""|
    ensures !SaysTrue(""[..k], "valid")
  {
    assert ""[..k] == "";
  }

  // Every way a connection can end, over what it met.
  lemma ReplyCases(h: Hash, c: Cache, v: Visit)
    ensures var out, shaken := OutcomeOf(h, c, v), v.handshake == NotJson || v.handshake == JsonObject;
      var usable := v.challenge.Nonce? && |v.challenge.text| == 64;
      var collected := PostedBy(h, c, v).Some?;
      && (collected ==> shaken && usable)
      && (forall token :: out == Sent(Approve(token)) <==> collected && v.verdict == Valid(token))
      && (forall reason :: out == Sent(Refuse(reason)) <==>
            || (collected && v.verdict == Invalid(reason))
            || (collected && v.verdict == Unreachable && reason == "attestation server unreachable")
            || (shaken && usable && !collected && !v.escapes && reason == "attestation report generation failed")
            || (shaken && !usable && !v.challenge.ChallengeRaises? && reason == "challenge fetch failed"))
      && (out == NoReply <==> v.handshake == ReadError)
  {
    hide ReportAfter;
  }

  // If the server's yes is what its handler returns, that report's nonce was recognised
  // and it passed every check.
  lemma ApprovedMeansAcceptable(h: Hash, c: Cache, v: Visit, o: Oracles, pol: Policy, calls: seq<Call>, now: Instant,
                                k: nat)
    requires PostedBy(h, c, v).Some? && v.verdict.Valid? ==>
      Handle(o, pol, Run(o, pol, calls), ServerSpec.Attest(PostedBy(h, c, v).value, now)).1
    requires k <= |Text(OutcomeOf(h, c, v))| && SaysTrue(Text(OutcomeOf(h, c, v))[..k], "valid")
    ensures PostedBy(h, c, v).Some? && UsableNonce(v.challenge) && k >= 14
    ensures N.AnswerTo(Run(o, pol, calls).nonces, v.challenge.text, now) == N.Recognised
    ensures H.Acceptable(o, pol, Run(o, pol, calls), R.PinAfter(o, pol, calls), PostedBy(h, c, v).value)
  {
    hide SaysTrue, OutcomeOf, PostedBy, Run, Handle, N.AnswerTo, H.Acceptable;
    ApprovalNeedsVerdict(h, c, v, k);
    H.AttestIff(o, pol, calls, PostedBy(h, c, v).value, now);
  }
}
