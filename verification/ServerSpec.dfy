// The verification server (server/main.py) as functions on the value of its
// three tables.  Server.dfy holds the handlers that update the tables in place.

module ServerSpec {
  import opened Wrappers
  import opened Text
  import opened Reports
  import opened IsoTime
  import opened Nonces

  // Foreign code, each with one fixed verdict per input.
  datatype Oracles = Oracles(
    b64: string -> Option<bytes>,                     // base64.b64decode, None when it raises
    isX509: bytes -> bool,                            // load_der_x509_certificate
    checkQuote: (bytes, bytes, bytes, string) -> bool, // tpm2_checkquote: key, message, signature, nonce
    localAk: Option<bytes>,                           // tpm2_readpublic, None when it fails
    decimal: char -> bool)                            // decimal digits outside ASCII

  datatype Policy = Policy(strictEk: bool, requirePcr7: bool, minEntries: int)

  datatype Machine = Machine(akPub: string, ekCert: Option<string>, ekVerified: bool)

  datatype Baseline = Baseline(id: nat, root: string, pcrs: Pcrs, active: bool)

  datatype Db = Db(nonces: Table, machines: map<string, Machine>, baselines: seq<Baseline>)

  // `if value:` for an optional string
  predicate Truthy(s: Option<string>) { s.Some? && s.value != "" }

  // ---- baselines ------------------------------------------------------------------

  // The active row with the highest id.
  function ActiveRow(rows: seq<Baseline>): Option<Baseline>
  {
    if rows == [] then None
    else
      var best, row := ActiveRow(rows[..|rows| - 1]), rows[|rows| - 1];
      if row.active && (best.None? || best.value.id < row.id) then Some(row) else best
  }

  function ActiveRoot(rows: seq<Baseline>): Option<string>
  {
    match ActiveRow(rows) case None => None case Some(row) => Some(row.root)
  }

  function Lookup(pcrs: Pcrs, key: string): Option<string>
  {
    if pcrs == [] then None else if pcrs[0].0 == key then Some(pcrs[0].1) else Lookup(pcrs[1..], key)
  }

  // The pair at i is the first with this key.
  predicate MapsAt(m: Pcrs, key: string, value: string, i: nat)
  {
    i < |m| && m[i] == (key, value) && forall j | 0 <= j < i :: m[j].0 != key
  }

  ghost predicate Maps(m: Pcrs, key: string, value: string) { exists i: nat :: MapsAt(m, key, value, i) }

  predicate HasKey(m: Pcrs, key: string) { exists i :: 0 <= i < |m| && m[i].0 == key }

  lemma {:induction false} LookupIff(m: Pcrs, key: string, value: string)
    ensures Lookup(m, key) == Some(value) <==> Maps(m, key, value)
    ensures Lookup(m, key) == None <==> !HasKey(m, key)
  {
    if m != [] {
      LookupIff(m[1..], key, value);
      assert forall j | 0 <= j < |m| - 1 :: m[1..][j] == m[j + 1];
      if m[0].0 == key {
        assert MapsAt(m, key, m[0].1, 0);
      } else {
        if Maps(m[1..], key, value) {
          var i: nat :| MapsAt(m[1..], key, value, i);
          assert MapsAt(m, key, value, i + 1);
        }
        if Maps(m, key, value) {
          var i: nat :| MapsAt(m, key, value, i);
          assert i > 0;
          assert MapsAt(m[1..], key, value, i - 1);
        }
        if HasKey(m, key) {
          var i :| 0 <= i < |m| && m[i].0 == key;
          assert m[1..][i - 1].0 == key;
        }
        if HasKey(m[1..], key) {
          var i :| 0 <= i < |m| - 1 && m[1..][i].0 == key;
          assert m[i + 1].0 == key;
        }
      }
    }
  }

  function PinnedPcr(rows: seq<Baseline>, key: string): Option<string>
  {
    match ActiveRow(rows) case None => None case Some(row) => Lookup(row.pcrs, key)
  }

  // Every row switched off.
  function Deactivated(rows: seq<Baseline>): (r: seq<Baseline>)
    ensures |r| == |rows|
    ensures forall i | 0 <= i < |rows| :: r[i] == rows[i].(active := false)
  {
    seq(|rows|, i requires 0 <= i < |rows| => rows[i].(active := false))
  }

  // MAX(id), 0 for no rows; AUTOINCREMENT starts at 1 and rows are never deleted.
  function MaxId(rows: seq<Baseline>): nat
  {
    if rows == [] then 0
    else
      var best, row := MaxId(rows[..|rows| - 1]), rows[|rows| - 1];
      if best < row.id then row.id else best
  }

  function WithRoot(rows: seq<Baseline>, root: string): seq<Baseline>
  {
    if rows == [] then []
    else
      WithRoot(rows[..|rows| - 1], root) + (if rows[|rows| - 1].root == root then [rows[|rows| - 1]] else [])
  }

  function ActivatedWhere(rows: seq<Baseline>, root: string, id: nat): (r: seq<Baseline>)
    ensures |r| == |rows|
    ensures forall i | 0 <= i < |rows| ::
      r[i] == if rows[i].root == root && rows[i].id == id then rows[i].(active := true) else rows[i]
  {
    seq(|rows|, i requires 0 <= i < |rows| =>
      if rows[i].root == root && rows[i].id == id then rows[i].(active := true) else rows[i])
  }

  // Of the rows with this root, the one with the highest id switched on.
  function Restored(rows: seq<Baseline>, root: string): seq<Baseline>
  {
    ActivatedWhere(rows, root, MaxId(WithRoot(rows, root)))
  }

  function Pinned(rows: seq<Baseline>, root: string, pcrs: Pcrs): seq<Baseline>
  {
    Deactivated(rows) + [Baseline(MaxId(rows) + 1, Lower(root), pcrs, true)]
  }

  // ---- machines -------------------------------------------------------------------

  datatype RegisterRequest = RegisterRequest(machineId: string, akPub: string, ekCert: Option<string>)

  function EkVerdict(o: Oracles, pol: Policy, ek: string): bool
  {
    match o.b64(ek)
    case None => false
    case Some(der) => o.isX509(der) || (|der| >= 4 && !pol.strictEk)
  }

  function Registered(o: Oracles, pol: Policy, db: Db, req: RegisterRequest): (Db, bool)
  {
    if Truthy(req.ekCert) && !EkVerdict(o, pol, req.ekCert.value) then (db, false)
    else (db.(machines := db.machines[req.machineId := Machine(req.akPub, req.ekCert, Truthy(req.ekCert))]), true)
  }

  // ---- report checks --------------------------------------------------------------

  datatype Reason = NonceNotRecognised | NonceExpired | NoQuote | QuoteBlobsMissing | QuoteSignatureFailed
                  | StrictNoMachineId | StrictNotRegistered | StrictEkNotVerified
                  | PcrsEmpty | PcrZero(index: string) | NoBootAggregate
                  | RootLength | RootNotHex | NoLeaves | RootMismatch | Pcr7Mismatch | TooFewEntries

  predicate Enrolled(db: Db, id: Option<string>) { Truthy(id) && id.value in db.machines }

  // The key the quote is checked with: the enrolled one, else this host's own.
  function QuoteKey(o: Oracles, db: Db, id: Option<string>): Option<bytes>
  {
    if Enrolled(db, id) then o.b64(db.machines[id.value].akPub) else o.localAk
  }

  function QuoteFailure(o: Oracles, db: Db, r: Report): Option<Reason>
  {
    if !Truthy(r.quoteMsg) || !Truthy(r.quoteSig) then Some(QuoteBlobsMissing)
    else
      var msg, sig, ak := o.b64(r.quoteMsg.value), o.b64(r.quoteSig.value), QuoteKey(o, db, r.machineId);
      if msg.None? || sig.None? || ak.None? || !o.checkQuote(ak.value, msg.value, sig.value, r.nonce)
      then Some(QuoteSignatureFailed) else None
  }

  function StrictFailure(pol: Policy, db: Db, r: Report): Option<Reason>
  {
    if !pol.strictEk then None
    else if !Truthy(r.machineId) then Some(StrictNoMachineId)
    else if r.machineId.value !in db.machines then Some(StrictNotRegistered)
    else if !db.machines[r.machineId.value].ekVerified then Some(StrictEkNotVerified)
    else None
  }

  function Zeros(n: nat): (s: string)
    ensures |s| == n && forall i | 0 <= i < n :: s[i] == '0'
  {
    if n == 0 then "" else Zeros(n - 1) + "0"
  }

  const ZERO_DIGEST: string := "0x" + Zeros(64)

  predicate ZeroPcr(pcr: (string, string), enrolled: bool)
  {
    Lower(pcr.1) == ZERO_DIGEST && !(enrolled && pcr.0 == "10")
  }

  function PcrFailure(pcrs: Pcrs, enrolled: bool): Option<Reason>
  {
    if pcrs == [] then None
    else if ZeroPcr(pcrs[0], enrolled) then Some(PcrZero(pcrs[0].0))
    else PcrFailure(pcrs[1..], enrolled)
  }

  // int(s, 16) does not raise.  Beyond hex digits it takes surrounding blanks, a sign,
  // a 0x prefix, single underscores between digits, and decimal digits of other scripts.
  function PlainChar(o: Oracles, c: char): char
  {
    if c < '\U{7F}' then c else if IsSpace(c) then ' ' else if o.decimal(c) then '0' else '?'
  }

  function PlainText(o: Oracles, s: string): string
  {
    seq(|s|, i requires 0 <= i < |s| => PlainChar(o, s[i]))
  }

  predicate IsHexDigit(c: char) { IsDigit(c) || 'a' <= c <= 'f' || 'A' <= c <= 'F' }

  predicate HexRun(s: string)
  {
    s != "" && IsHexDigit(s[0])
    && (|s| == 1 || HexRun(s[1..]) || (s[1] == '_' && HexRun(s[2..])))
  }

  predicate CSpace(c: char) { c == ' ' || '\t' <= c <= '\r' }

  function TrimLeft(s: string): string { if s != "" && CSpace(s[0]) then TrimLeft(s[1..]) else s }

  function TrimRight(s: string): string { if s != "" && CSpace(s[|s| - 1]) then TrimRight(s[..|s| - 1]) else s }

  // Without a sign, and without a prefix and the underscore it may carry.
  function Unsigned(s: string): string { if s != "" && (s[0] == '+' || s[0] == '-') then s[1..] else s }

  function Unprefixed(t: string): string
  {
    if |t| < 2 || t[0] != '0' || (t[1] != 'x' && t[1] != 'X') then t
    else if |t| > 2 && t[2] == '_' then t[3..]
    else t[2..]
  }

  predicate HexLiteral(s: string) { HexRun(Unprefixed(Unsigned(s))) }

  predicate ParsesBase16(o: Oracles, s: string) { HexLiteral(TrimRight(TrimLeft(PlainText(o, s)))) }

  function RootFailure(o: Oracles, r: Report): Option<Reason>
  {
    if |r.merkleRoot| != 64 then Some(RootLength)
    else if !ParsesBase16(o, r.merkleRoot) then Some(RootNotHex)
    else if r.leafCount <= 0 then Some(NoLeaves)
    else None
  }

  // The pinned root and the pinned PCR 7 come from two reads of the table.
  function PinFailure(pol: Policy, rootRows: seq<Baseline>, pcrRows: seq<Baseline>, r: Report): Option<Reason>
  {
    var root, pcr7 := ActiveRoot(rootRows), PinnedPcr(pcrRows, "7");
    if root.Some? && Lower(r.merkleRoot) != Lower(root.value) then Some(RootMismatch)
    else if pol.requirePcr7 && pcr7.Some? && Lower(Reported(r, "7")) != Lower(pcr7.value) then Some(Pcr7Mismatch)
    else if pol.minEntries > 0 && r.leafCount < pol.minEntries then Some(TooFewEntries)
    else None
  }

  // report.pcrs.get(key, "")
  function Reported(r: Report, key: string): string
  {
    match Lookup(r.pcrs, key) case None => "" case Some(v) => v
  }

  predicate SameUpToCase(a: string, b: string) { Lower(a) == Lower(b) }

  // The reported value is this one up to case; a PCR that is not reported counts as the
  // empty text.
  ghost predicate Shows(r: Report, key: string, value: string)
  {
    (exists w :: Maps(r.pcrs, key, w) && SameUpToCase(w, value)) || (!HasKey(r.pcrs, key) && value == "")
  }

  lemma ReportedIff(r: Report, key: string, value: string)
    ensures Lower(Reported(r, key)) == Lower(value) <==> Shows(r, key, value)
  {
    hide Lookup, Maps, HasKey;
    if Lookup(r.pcrs, key).Some? {
      LookupIff(r.pcrs, key, Lookup(r.pcrs, key).value);
      forall w | Maps(r.pcrs, key, w) ensures Lookup(r.pcrs, key) == Some(w) {
        LookupIff(r.pcrs, key, w);
      }
    } else {
      LookupIff(r.pcrs, key, value);
      assert Lower(value) == "" <==> value == "";
      forall w | Maps(r.pcrs, key, w) ensures false {
        LookupIff(r.pcrs, key, w);
      }
    }
  }

  // The tables at the five reads _verify_report makes after the nonce.
  datatype Views = Views(quote: Db, strict: Db, enrolled: Db, root: Db, pcr7: Db)

  function Still(db: Db): Views { Views(db, db, db, db, db) }

  // Everything _verify_report does after the nonce, in its order.
  function ChecksAt(o: Oracles, pol: Policy, v: Views, r: Report): Option<Reason>
  {
    var enrolled := Enrolled(v.enrolled, r.machineId);
    if !r.quoteAvailable then Some(NoQuote)
    else if QuoteFailure(o, v.quote, r).Some? then QuoteFailure(o, v.quote, r)
    else if StrictFailure(pol, v.strict, r).Some? then StrictFailure(pol, v.strict, r)
    else if r.pcrs == [] then Some(PcrsEmpty)
    else if PcrFailure(r.pcrs, enrolled).Some? then PcrFailure(r.pcrs, enrolled)
    else if !enrolled && !r.summary.hasBootAggregate then Some(NoBootAggregate)
    else if RootFailure(o, r).Some? then RootFailure(o, r)
    else PinFailure(pol, v.root.baselines, v.pcr7.baselines, r)
  }

  // The same while nothing else writes.
  function Checks(o: Oracles, pol: Policy, db: Db, r: Report): Option<Reason> { ChecksAt(o, pol, Still(db), r) }

  // The checks never read the nonce table.
  lemma ChecksIgnoreNonces(o: Oracles, pol: Policy, a: Db, b: Db, r: Report)
    requires a.machines == b.machines && a.baselines == b.baselines
    ensures Checks(o, pol, a, r) == Checks(o, pol, b, r)
  {}

  function Burned(db: Db, nonce: string, now: Instant): Db
  {
    db.(nonces := Next(db.nonces, Consume(nonce, now)))
  }

  // The nonce goes first, whatever comes after.  Unreadable deadlines raise, which no
  // caller treats as success.
  function Verified(o: Oracles, pol: Policy, db: Db, r: Report, now: Instant): (Db, Option<Reason>)
  {
    (Burned(db, r.nonce, now),
     match AnswerTo(db.nonces, r.nonce, now)
     case Recognised => Checks(o, pol, db, r)
     case NotRecognised => Some(NonceNotRecognised)
     case _ => Some(NonceExpired))
  }

  // ---- endpoints ------------------------------------------------------------------

  function Challenged(db: Db, nonce: string, at: Instant): (Db, bool)
  {
    (db.(nonces := Next(db.nonces, Issue(nonce, at))), Inserts(db.nonces, nonce, at))
  }

  // A challenge is answered with status 200 for every nonce not stored, up to 120 seconds
  // before the end of the year 9999, and never otherwise.
  lemma ChallengeSucceedsIff(db: Db, nonce: string, at: Instant, now: Instant)
    ensures Challenged(db, nonce, at).1
      <==> nonce !in db.nonces && at < 3652059 * 86400 * 1_000_000 - 120 * 1_000_000
    ensures var db' := Challenged(db, nonce, at).0;
      && db' == db.(nonces := db'.nonces)
      && (Challenged(db, nonce, at).1 ==>
            nonce in db'.nonces && (AnswerTo(db'.nonces, nonce, now) == Recognised <==> now <= at + 120_000_000))
  {
    hide AnswerTo, Next, Inserts;
    InsertsIff(db.nonces, nonce, at);
    IssuedIsRecognised(db.nonces, nonce, at, now);
  }

  function Enrolling(o: Oracles, pol: Policy, db: Db, r: Report, now: Instant): (Db, Option<Reason>)
  {
    var current := ActiveRoot(db.baselines);
    var (db', failure) := Verified(o, pol, db.(baselines := Deactivated(db.baselines)), r, now);
    if failure.None? then (db'.(baselines := Pinned(db'.baselines, r.merkleRoot, r.pcrs)), None)
    else if Truthy(current) then (db'.(baselines := Restored(db'.baselines, current.value)), failure)
    else (db', failure)
  }

  datatype Call = Challenge(nonce: string, at: Instant)
                | Register(req: RegisterRequest)
                | Attest(report: Report, now: Instant)
                | Enroll(report: Report, now: Instant)

  // One request handled from start to end; the second result is "status 200".
  function Handle(o: Oracles, pol: Policy, db: Db, call: Call): (Db, bool)
  {
    match call
    case Challenge(nonce, at) => Challenged(db, nonce, at)
    case Register(req) => Registered(o, pol, db, req)
    case Attest(r, now) => var (db', failure) := Verified(o, pol, db, r, now); (db', failure.None?)
    case Enroll(r, now) => var (db', failure) := Enrolling(o, pol, db, r, now); (db', failure.None?)
  }

  const EMPTY_DB := Db(map[], map[], [])

  // A serial run from the empty database.
  function Run(o: Oracles, pol: Policy, calls: seq<Call>): Db
  {
    if calls == [] then EMPTY_DB
    else Handle(o, pol, Run(o, pol, calls[..|calls| - 1]), calls[|calls| - 1]).0
  }
}
