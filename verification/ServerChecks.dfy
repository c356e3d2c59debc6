// What the tables and checks of server/main.py mean, written out over the rows, the
// report and the oracles.

module ServerChecks {
  import opened Wrappers
  import opened Text
  import opened Reports
  import opened ServerSpec
  import opened ServerRuns
  import opened IsoTime
  import H = HonestRuns
  import N = Nonces

  // ---- rows ------------------------------------------------------------------------------

  // Readers of the active row get the last of the active ones.
  lemma {:induction false} ActiveRowIff(rows: seq<Baseline>, i: nat)
    requires Ordered(rows) && i < |rows|
    ensures ActiveRow(rows) == Some(rows[i]) <==>
      rows[i].active && forall j | i < j < |rows| :: !rows[j].active
    ensures ActiveRow(rows) == None ==> !rows[i].active
  {
    hide Lower;
    var last := |rows| - 1;
    var front := rows[..last];
    if i < last {
      ActiveRowIff(front, i);
    }
    ActiveAmong(front);
  }

  lemma {:induction false} ActiveAmong(rows: seq<Baseline>)
    ensures ActiveRow(rows).Some? ==> ActiveRow(rows).value in rows && ActiveRow(rows).value.active
    ensures ActiveRow(rows).None? ==> forall j | 0 <= j < |rows| :: !rows[j].active
  {
    if rows != [] {
      ActiveAmong(rows[..|rows| - 1]);
    }
  }

  // Pinning keeps every old row but for its flag, and adds one with the next id.
  lemma PinnedRow(rows: seq<Baseline>, root: string, pcrs: Pcrs)
    ensures var after, n := Pinned(rows, root, pcrs), |rows|;
      && |after| == n + 1
      && (forall i | 0 <= i < n :: !after[i].active && after[i].id == rows[i].id && after[i].root == rows[i].root
                                   && after[i].pcrs == rows[i].pcrs)
      && after[n].active && after[n].root == Lower(root) && after[n].pcrs == pcrs
      && (forall i | 0 <= i < n :: rows[i].id < after[n].id)
      && (n == 0 ==> after[n].id == 1)
      && (n > 0 ==> exists i :: 0 <= i < n && after[n].id == rows[i].id + 1)
  {
    MaxIdBounds(rows);
    MaxIdTaken(rows);
    hide Lower;
  }

  lemma {:induction false} MaxIdTaken(rows: seq<Baseline>)
    ensures rows == [] ==> MaxId(rows) == 0
    ensures rows != [] ==> exists i :: 0 <= i < |rows| && MaxId(rows) == rows[i].id
  {
    if rows != [] {
      var last := |rows| - 1;
      var front := rows[..last];
      MaxIdTaken(front);
      if MaxId(front) >= rows[last].id && front != [] {
        var i :| 0 <= i < |front| && MaxId(front) == front[i].id;
        assert rows[i].id == MaxId(rows);
      } else {
        assert rows[last].id == MaxId(rows);
      }
    }
  }

  // ---- machines --------------------------------------------------------------------------

  // A registration is rejected exactly for an EK text that is not base64, or whose bytes
  // are no certificate and either fewer than four or barred by strict policy.
  lemma RegisteredIff(o: Oracles, pol: Policy, db: Db, req: RegisterRequest)
    ensures var (db', ok) := Registered(o, pol, db, req);
      var given := req.ekCert.Some? && |req.ekCert.value| > 0;
      var der := if given then o.b64(req.ekCert.value) else None;
      && (ok <==> !given || (der.Some? && (o.isX509(der.value) || (!pol.strictEk && |der.value| >= 4))))
      && (if ok then db'.machines == db.machines[req.machineId := Machine(req.akPub, req.ekCert, given)]
                     && db' == db.(machines := db'.machines)
          else db' == db)
  {}

  // ---- quotes, PCRs and roots ----------------------------------------------------------------

  predicate Known(db: Db, r: Report)
  {
    r.machineId.Some? && |r.machineId.value| > 0 && r.machineId.value in db.machines
  }

  // The key is that of the registered machine, for others this host's own.
  predicate QuoteVerifies(o: Oracles, db: Db, r: Report)
  {
    && r.quoteMsg.Some? && |r.quoteMsg.value| > 0 && r.quoteSig.Some? && |r.quoteSig.value| > 0
    && var msg, sig := o.b64(r.quoteMsg.value), o.b64(r.quoteSig.value);
    && var key := if Known(db, r) then o.b64(db.machines[r.machineId.value].akPub) else o.localAk;
    && msg.Some? && sig.Some? && key.Some? && o.checkQuote(key.value, msg.value, sig.value, r.nonce)
  }

  lemma QuoteIff(o: Oracles, db: Db, r: Report)
    ensures QuoteFailure(o, db, r).None? <==> QuoteVerifies(o, db, r)
    ensures QuoteFailure(o, db, r) == Some(QuoteBlobsMissing) <==>
      r.quoteMsg.None? || r.quoteMsg.value == "" || r.quoteSig.None? || r.quoteSig.value == ""
  {}

  // 0x and 64 zeros, in either case of the x.
  predicate AllZero(digest: string)
  {
    |digest| == 66 && digest[0] == '0' && (digest[1] == 'x' || digest[1] == 'X')
    && forall i | 2 <= i < 66 :: digest[i] == '0'
  }

  lemma ZeroDigestText()
    ensures |ZERO_DIGEST| == 66 && ZERO_DIGEST[0] == '0' && ZERO_DIGEST[1] == 'x'
    ensures forall i | 2 <= i < 66 :: ZERO_DIGEST[i] == '0'
  {}

  // An all-zero digest is refused, except in PCR 10 of a registered machine.
  lemma ZeroPcrIff(index: string, digest: string, enrolled: bool)
    ensures ZeroPcr((index, digest), enrolled) <==> AllZero(digest) && !(enrolled && index == "10")
  {
    ZeroDigestText();
    hide ZERO_DIGEST;
    if AllZero(digest) {
      forall i | 0 <= i < 66 ensures Lower(digest)[i] == ZERO_DIGEST[i] {
        assert i == 0 || i == 1 || i >= 2;
      }
      assert Lower(digest) == ZERO_DIGEST;
    }
    if Lower(digest) == ZERO_DIGEST {
      forall i | 0 <= i < 66 ensures LowerChar(digest[i]) == ZERO_DIGEST[i] {
        assert Lower(digest)[i] == LowerChar(digest[i]);
      }
    }
  }

  lemma {:induction false} FirstZeroPcr(pcrs: Pcrs, enrolled: bool, i: nat)
    requires i < |pcrs| && ZeroPcr(pcrs[i], enrolled) && forall j | 0 <= j < i :: !ZeroPcr(pcrs[j], enrolled)
    ensures PcrFailure(pcrs, enrolled) == Some(PcrZero(pcrs[i].0))
  {
    hide ZeroPcr;
    if i > 0 {
      FirstZeroPcr(pcrs[1..], enrolled, i - 1) by {
        assert forall j | 0 <= j < |pcrs| - 1 :: pcrs[1..][j] == pcrs[j + 1];
      }
    }
  }

  // ---- int(text, 16) --------------------------------------------------------------------------

  predicate HexLetter(c: char) { '0' <= c <= '9' || 'a' <= c <= 'f' || 'A' <= c <= 'F' }

  // Hexadecimal digits with single underscores between them.
  predicate HexText(s: string)
  {
    && s != "" && HexLetter(s[0]) && HexLetter(s[|s| - 1])
    && forall i | 0 <= i < |s| :: HexLetter(s[i]) || (s[i] == '_' && i + 1 < |s| && HexLetter(s[i + 1]))
  }

  lemma {:induction false} HexRunIff(s: string)
    ensures HexRun(s) <==> HexText(s)
  {
    if |s| >= 2 && HexLetter(s[0]) {
      if HexLetter(s[1]) {
        HexRunIff(s[1..]);
        HexTextTail(s, 1);
        assert !(s[1] == '_');
      } else if s[1] == '_' {
        HexRunIff(s[2..]);
        HexRunStart(s[1..]);
        HexRunStart(s[2..]);
        if |s| > 2 && HexLetter(s[2]) {
          HexTextTail(s, 2);
        }
      } else {
        HexRunStart(s[1..]);
      }
    }
  }

  lemma HexRunStart(s: string)
    ensures HexRun(s) ==> s != "" && HexLetter(s[0])
  {}

  lemma HexTextTail(s: string, k: nat)
    requires 1 <= k <= 2 && k < |s| && HexLetter(s[0]) && (k == 2 ==> s[1] == '_') && HexLetter(s[k])
    ensures HexText(s) <==> HexText(s[k..])
  {
    var t := s[k..];
    assert forall i | 0 <= i < |t| :: t[i] == s[i + k];
    if HexText(t) {
      forall i | 0 <= i < |s|
        ensures HexLetter(s[i]) || (s[i] == '_' && i + 1 < |s| && HexLetter(s[i + 1]))
      {
        if i >= k {
          assert t[i - k] == s[i];
        }
      }
    }
  }

  predicate BlankRun(s: string)
  {
    forall i | 0 <= i < |s| :: s[i] in " \t\n\r" || s[i] as int == 11 || s[i] as int == 12
  }

  predicate BasePrefix(s: string) { s == "" || s == "0x" || s == "0X" || s == "0x_" || s == "0X_" }

  predicate LiteralAt(s: string, left: string, sign: string, prefix: string, digits: string, right: string)
  {
    && s == left + (sign + (prefix + digits)) + right && BlankRun(left) && BlankRun(right)
    && Sign(sign) && BasePrefix(prefix) && HexText(digits)
  }

  // Blanks, a sign, a prefix, digits, blanks.
  ghost predicate Base16(s: string)
  {
    exists left, sign, prefix, digits, right :: LiteralAt(s, left, sign, prefix, digits, right)
  }

  lemma BlankIff(c: char)
    ensures CSpace(c) <==> c in " \t\n\r" || c as int == 11 || c as int == 12
  {}

  lemma {:induction false} TrimLeftSplit(s: string)
    ensures var t := TrimLeft(s); |t| <= |s| && t == s[|s| - |t|..] && BlankRun(s[..|s| - |t|])
    ensures TrimLeft(s) != "" ==> !CSpace(TrimLeft(s)[0])
  {
    if s != "" && CSpace(s[0]) {
      BlankIff(s[0]);
      TrimLeftSplit(s[1..]);
      var n := |s| - |TrimLeft(s)|;
      assert s[..n] == [s[0]] + s[1..][..n - 1];
    }
  }

  lemma {:induction false} TrimRightSplit(s: string)
    ensures var t := TrimRight(s); |t| <= |s| && t == s[..|t|] && BlankRun(s[|t|..])
  {
    if s != "" && CSpace(s[|s| - 1]) {
      var last := |s| - 1;
      BlankIff(s[last]);
      TrimRightSplit(s[..last]);
      var n := |TrimRight(s)|;
      assert s[n..] == s[..last][n..] + [s[last]];
    }
  }

  lemma {:induction false} TrimLeftDrops(left: string, t: string)
    requires BlankRun(left) && t != "" && !CSpace(t[0])
    ensures TrimLeft(left + t) == t
  {
    if left == "" {
      assert left + t == t;
    } else {
      BlankIff(left[0]);
      TrimLeftDrops(left[1..], t);
      assert (left + t)[1..] == left[1..] + t && (left + t)[0] == left[0];
    }
  }

  lemma {:induction false} TrimRightDrops(t: string, right: string)
    requires BlankRun(right) && t != "" && !CSpace(t[|t| - 1])
    ensures TrimRight(t + right) == t
  {
    if right == "" {
      assert t + right == t;
    } else {
      var last := |right| - 1;
      BlankIff(right[last]);
      TrimRightDrops(t, right[..last]);
      assert (t + right)[..|t + right| - 1] == t + right[..last] && (t + right)[|t + right| - 1] == right[last];
    }
  }

  predicate Sign(s: string) { s == "" || s == "+" || s == "-" }

  lemma SignSplit(s: string) returns (sign: string)
    ensures Sign(sign) && s == sign + Unsigned(s)
  {
    sign := s[..|s| - |Unsigned(s)|];
    assert sign == if |Unsigned(s)| < |s| then [s[0]] else "";
  }

  lemma PrefixSplit(t: string) returns (prefix: string)
    ensures BasePrefix(prefix) && t == prefix + Unprefixed(t)
  {
    prefix := t[..|t| - |Unprefixed(t)|];
    if |prefix| == 2 {
      assert prefix == [t[0], t[1]];
    } else if |prefix| == 3 {
      assert prefix == [t[0], t[1], t[2]];
    }
  }

  // After the sign and the prefix.
  lemma LiteralGives(s: string) returns (sign: string, prefix: string, digits: string)
    requires HexLiteral(s)
    ensures s == sign + (prefix + digits) && Sign(sign) && BasePrefix(prefix) && HexText(digits)
  {
    hide HexRun, HexText, Unsigned, Unprefixed, Sign, BasePrefix;
    sign := SignSplit(s);
    prefix := PrefixSplit(Unsigned(s));
    digits := Unprefixed(Unsigned(s));
    HexRunIff(digits);
  }

  lemma UnsignedIs(sign: string, t: string)
    requires Sign(sign) && t != "" && t[0] != '+' && t[0] != '-'
    ensures Unsigned(sign + t) == t
  {
    if sign == "" {
      assert sign + t == t;
    } else {
      assert (sign + t)[1..] == t && (sign + t)[0] == sign[0];
    }
  }

  lemma UnprefixedIs(prefix: string, digits: string)
    requires BasePrefix(prefix) && digits != "" && HexLetter(digits[0])
    requires |digits| > 1 ==> digits[1] != 'x' && digits[1] != 'X'
    ensures Unprefixed(prefix + digits) == digits
  {
    var t := prefix + digits;
    if prefix == "" {
      assert t == digits;
    } else {
      assert t[0] == prefix[0] && t[1] == prefix[1];
      assert |prefix| == 2 ==> t[2] == digits[0];
      assert |prefix| == 3 ==> t[2] == prefix[2];
      assert t[|prefix|..] == digits;
    }
  }

  lemma LiteralTaken(sign: string, prefix: string, digits: string)
    requires Sign(sign) && BasePrefix(prefix) && HexText(digits)
    ensures HexLiteral(sign + (prefix + digits))
  {
    HexRunIff(digits);
    LiteralStart(prefix, digits);
    hide HexRun, HexText, Unsigned, Unprefixed, Sign, BasePrefix;
    UnprefixedIs(prefix, digits);
    UnsignedIs(sign, prefix + digits);
  }

  lemma LiteralStart(prefix: string, digits: string)
    requires BasePrefix(prefix) && HexText(digits)
    ensures HexLetter(digits[0]) && HexLetter((prefix + digits)[0])
    ensures |digits| > 1 ==> digits[1] != 'x' && digits[1] != 'X'
  {
    assert (prefix + digits)[0] == if prefix == "" then digits[0] else prefix[0];
  }

  // After the text is made plain, int(text, 16) accepts exactly this grammar.
  lemma ParsesBase16Iff(o: Oracles, s: string)
    ensures ParsesBase16(o, s) <==> Base16(PlainText(o, s))
  {
    hide HexLiteral, HexText, TrimLeft, TrimRight, CSpace, PlainText;
    var p := PlainText(o, s);
    var t := TrimLeft(p);
    TrimLeftSplit(p);
    TrimRightSplit(t);
    if ParsesBase16(o, s) {
      var u := TrimRight(t);
      var sign, prefix, digits := LiteralGives(u);
      var left, right := p[..|p| - |t|], t[|u|..];
      assert p == left + u + right;
      assert LiteralAt(p, left, sign, prefix, digits, right);
    }
    if Base16(p) {
      var left, sign, prefix, digits, right :| LiteralAt(p, left, sign, prefix, digits, right);
      var u := sign + (prefix + digits);
      LiteralEnds(sign, prefix, digits);
      assert p == left + (u + right);
      TrimLeftDrops(left, u + right);
      TrimRightDrops(u, right);
      LiteralTaken(sign, prefix, digits);
    }
  }

  lemma LiteralEnds(sign: string, prefix: string, digits: string)
    requires Sign(sign) && BasePrefix(prefix) && HexText(digits)
    ensures var u := sign + (prefix + digits); u != "" && !CSpace(u[0]) && !CSpace(u[|u| - 1])
  {
    var u := sign + (prefix + digits);
    assert u[|u| - 1] == digits[|digits| - 1];
    assert u[0] == if sign != "" then sign[0] else if prefix != "" then prefix[0] else digits[0];
  }

  // Plain text keeps ASCII, turns other blanks into spaces and other decimal digits into
  // zeros, and lets nothing else through.
  lemma PlainTextAt(o: Oracles, s: string, i: nat)
    requires i < |s|
    ensures |PlainText(o, s)| == |s|
    ensures var c, d := s[i], PlainText(o, s)[i];
      if c as int < 0x7F then d == c
      else if IsSpace(c) then d == ' '
      else if o.decimal(c) then d == '0'
      else !HexLetter(d) && d != '_' && d != ' '
  {}

  // ---- the verdict ------------------------------------------------------------------------------

  // The first PCR that may not be zero and is.
  predicate FirstZero(r: Report, known: bool, i: nat)
  {
    && i < |r.pcrs| && AllZero(r.pcrs[i].1) && !(known && r.pcrs[i].0 == "10")
    && forall j | 0 <= j < i :: AllZero(r.pcrs[j].1) ==> known && r.pcrs[j].0 == "10"
  }

  // A reader of these rows finds a pinned root, or a pinned PCR, that is not the reported one.
  ghost predicate RootDiffers(rows: seq<Baseline>, r: Report)
  {
    exists row :: ActiveRow(rows) == Some(row) && !SameUpToCase(r.merkleRoot, row.root)
  }

  ghost predicate PcrDiffers(rows: seq<Baseline>, r: Report, key: string)
  {
    exists row, v :: ActiveRow(rows) == Some(row) && Maps(row.pcrs, key, v) && !Shows(r, key, v)
  }

  // Every check in its order, the first that fails giving the reason.
  ghost predicate VerdictIs(o: Oracles, pol: Policy, v: Views, r: Report, result: Option<Reason>)
  {
    var noId := r.machineId.None? || r.machineId.value == "";
    var known := Known(v.enrolled, r);
    if !r.quoteAvailable then result == Some(NoQuote)
    else if r.quoteMsg.None? || r.quoteMsg.value == "" || r.quoteSig.None? || r.quoteSig.value == ""
      then result == Some(QuoteBlobsMissing)
    else if !QuoteVerifies(o, v.quote, r) then result == Some(QuoteSignatureFailed)
    else if pol.strictEk && noId then result == Some(StrictNoMachineId)
    else if pol.strictEk && r.machineId.value !in v.strict.machines then result == Some(StrictNotRegistered)
    else if pol.strictEk && !v.strict.machines[r.machineId.value].ekVerified then result == Some(StrictEkNotVerified)
    else if |r.pcrs| == 0 then result == Some(PcrsEmpty)
    else if exists i: nat :: FirstZero(r, known, i) then
      exists i: nat :: FirstZero(r, known, i) && result == Some(PcrZero(r.pcrs[i].0))
    else if !known && !r.summary.hasBootAggregate then result == Some(NoBootAggregate)
    else if |r.merkleRoot| != 64 then result == Some(RootLength)
    else if !Base16(PlainText(o, r.merkleRoot)) then result == Some(RootNotHex)
    else if r.leafCount == 0 then result == Some(NoLeaves)
    else if RootDiffers(v.root.baselines, r) then result == Some(RootMismatch)
    else if pol.requirePcr7 && PcrDiffers(v.pcr7.baselines, r, "7") then result == Some(Pcr7Mismatch)
    else if 0 < pol.minEntries && r.leafCount < pol.minEntries then result == Some(TooFewEntries)
    else result == None
  }

  lemma {:induction false} PcrFailureIs(pcrs: Pcrs, r: Report, known: bool)
    requires r.pcrs == pcrs
    ensures match PcrFailure(pcrs, known)
            case None => !(exists i: nat :: FirstZero(r, known, i))
            case Some(reason) => exists i: nat :: FirstZero(r, known, i) && reason == PcrZero(pcrs[i].0)
  {
    hide ZeroPcr, AllZero;
    forall i | 0 <= i < |pcrs|
      ensures ZeroPcr(pcrs[i], known) <==> AllZero(pcrs[i].1) && !(known && pcrs[i].0 == "10")
    {
      ZeroPcrIff(pcrs[i].0, pcrs[i].1, known);
    }
    if i: nat :| FirstZero(r, known, i) {
      FirstZeroPcr(pcrs, known, i);
    } else {
      NoFirstZero(r, known, |pcrs|);
      H.PcrFailureIff(pcrs, known);
    }
  }

  lemma {:induction false} NoFirstZero(r: Report, known: bool, n: nat)
    requires !(exists i: nat :: FirstZero(r, known, i)) && n <= |r.pcrs|
    ensures forall j | 0 <= j < n :: AllZero(r.pcrs[j].1) ==> known && r.pcrs[j].0 == "10"
  {
    hide AllZero;
    if n > 0 {
      NoFirstZero(r, known, n - 1);
      assert !FirstZero(r, known, n - 1);
    }
  }

  lemma PinFailureIs(pol: Policy, rootRows: seq<Baseline>, pcrRows: seq<Baseline>, r: Report)
    ensures PinFailure(pol, rootRows, pcrRows, r) ==
      if RootDiffers(rootRows, r) then Some(RootMismatch)
      else if pol.requirePcr7 && PcrDiffers(pcrRows, r, "7") then Some(Pcr7Mismatch)
      else if 0 < pol.minEntries && r.leafCount < pol.minEntries then Some(TooFewEntries)
      else None
  {
    PcrDiffersIff(pcrRows, r, "7");
    hide ActiveRow, Lower, Reported, PcrDiffers, Lookup;
    assert ActiveRoot(rootRows).Some? ==> ActiveRow(rootRows) == Some(ActiveRow(rootRows).value);
  }

  lemma PcrDiffersIff(rows: seq<Baseline>, r: Report, key: string)
    ensures PcrDiffers(rows, r, key) <==>
      PinnedPcr(rows, key).Some? && Lower(Reported(r, key)) != Lower(PinnedPcr(rows, key).value)
  {
    hide ActiveRow, Lower, Reported, Lookup, Shows, Maps;
    if ActiveRow(rows).Some? {
      var row := ActiveRow(rows).value;
      forall v ensures Lookup(row.pcrs, key) == Some(v) <==> Maps(row.pcrs, key, v) {
        LookupIff(row.pcrs, key, v);
      }
      forall v ensures Lower(Reported(r, key)) == Lower(v) <==> Shows(r, key, v) {
        ReportedIff(r, key, v);
      }
    }
  }

  // Main result on the checks, for every report and whatever the tables are at the five
  // reads: the verdict and its reason.
  lemma VerdictTable(o: Oracles, pol: Policy, v: Views, r: Report)
    ensures VerdictIs(o, pol, v, r, ChecksAt(o, pol, v, r))
  {
    hide QuoteVerifies, PcrFailure, PinFailure, ParsesBase16, Base16, RootDiffers, PcrDiffers, FirstZero;
    QuoteIff(o, v.quote, r);
    PcrFailureIs(r.pcrs, r, Known(v.enrolled, r));
    ParsesBase16Iff(o, r.merkleRoot);
    PinFailureIs(pol, v.root.baselines, v.pcr7.baselines, r);
  }

  // In a serial run a report is judged by the table above if its nonce is recognised, and
  // otherwise refused as unknown, never as expired.
  lemma VerdictOfRun(o: Oracles, pol: Policy, calls: seq<Call>, r: Report, now: Instant)
    ensures var db := Run(o, pol, calls); var failure := Verified(o, pol, db, r, now).1;
      if N.AnswerTo(db.nonces, r.nonce, now) == N.Recognised then VerdictIs(o, pol, Still(db), r, failure)
      else failure == Some(NonceNotRecognised)
  {
    hide Run, N.AnswerTo, VerdictIs, ChecksAt, N.Next, N.Purged, AllBlocks, N.After;
    var db := Run(o, pol, calls);
    VerdictTable(o, pol, Still(db), r);
    RunIsBlocks(o, pol, calls);
    N.AnswerIsDecidedByPurge(AllBlocks(calls), r.nonce, now);
  }
}
