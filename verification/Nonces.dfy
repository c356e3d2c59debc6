// Challenge nonces (server/main.py): the active_nonces table under any
// interleaving of the atomic database blocks of concurrent requests.

module Nonces {
  import opened Wrappers
  import opened IsoTime

  const LIFETIME: int := 120000000

  // nonce -> expires_at, as text
  type Table = map<string, string>

  // One `with _db()` block of _issue_nonce or _consume_nonce, with the clock value
  // read just before it.  Clocks of different requests need not agree with the order
  // of their blocks.
  datatype Block = Issue(nonce: string, at: Instant) | Consume(nonce: string, now: Instant)

  // now + timedelta(seconds=120) raises OverflowError past year 9999.
  predicate Fits(at: Instant) { at + LIFETIME < END_OF_TIME }

  // expires_at, as stored.
  function Deadline(at: Instant): string
    requires Fits(at)
  {
    Iso(at + LIFETIME)
  }

  // expires_at < now, comparing text.
  predicate Late(expiresAt: string, now: Instant) { TextLess(expiresAt, Iso(now)) }

  predicate InTime(at: Instant, now: Instant) { now <= at + LIFETIME }

  lemma LateIsByTime(at: Instant, now: Instant)
    requires Fits(at)
    ensures Late(Deadline(at), now) <==> !InTime(at, now)
  {
    hide Iso, TextLess;
    IsoOrder(at + LIFETIME, now);
  }

  // The insertion works: the deadline exists and the primary key is free.
  predicate Inserts(t: Table, nonce: string, at: Instant) { Fits(at) && nonce !in t }

  // In numbers: every instant up to 120 seconds before the end of the year 9999 (day
  // 3652059 would be the first of the year 10000), for every nonce not stored.
  lemma InsertsIff(t: Table, nonce: string, at: Instant)
    ensures Inserts(t, nonce, at) <==> nonce !in t && at < 3652059 * 86400 * 1_000_000 - 120 * 1_000_000
  {}

  function Inserted(t: Table, nonce: string, at: Instant): Table
  {
    if Inserts(t, nonce, at) then t[nonce := Deadline(at)] else t
  }

  // Without the rows whose deadline is before now.
  function Purged(t: Table, now: Instant): Table
  {
    map n | n in t && !Late(t[n], now) :: t[n]
  }

  function Next(t: Table, b: Block): Table
  {
    match b
    case Issue(nonce, at) => Inserted(t, nonce, at)
    case Consume(nonce, now) => Purged(t, now) - {nonce}
  }

  datatype Answer = Recognised | NotRecognised | Expired | Unreadable

  // What _consume_nonce reports; after the block it reads the deadline once more.
  function AnswerTo(t: Table, nonce: string, now: Instant): Answer
  {
    var p := Purged(t, now);
    if nonce !in p then NotRecognised
    else match FromIso(p[nonce])
      case None => Unreadable
      case Some(expiry) => if now > expiry then Expired else Recognised
  }

  // A challenge that inserts stores its nonce, and the nonce is recognised at once and
  // for 120 seconds; one that does not leaves the table alone.
  lemma IssuedIsRecognised(t: Table, nonce: string, at: Instant, now: Instant)
    ensures var t' := Next(t, Issue(nonce, at));
      if nonce !in t && at < 3652059 * 86400 * 1_000_000 - 120 * 1_000_000
      then t'.Keys == t.Keys + {nonce} && (forall n | n in t :: t'[n] == t[n])
           && (AnswerTo(t', nonce, now) == Recognised <==> now <= at + 120_000_000)
      else t' == t
  {
    hide Late, Deadline, FromIso, AnswerTo;
    InsertsIff(t, nonce, at);
    if Inserts(t, nonce, at) {
      AnswerInTime(t[nonce := Deadline(at)], nonce, at, now);
    }
  }

  lemma AnswerInTime(t: Table, nonce: string, at: Instant, now: Instant)
    requires Fits(at) && nonce in t && t[nonce] == Deadline(at)
    ensures AnswerTo(t, nonce, now) == Recognised <==> InTime(at, now)
  {
    hide Late, Deadline, FromIso;
    LateIsByTime(at, now);
    DeadlineReadBack(at);
  }

  // ---- traces ---------------------------------------------------------------------

  function After(blocks: seq<Block>): Table
  {
    if blocks == [] then map[] else Next(After(blocks[..|blocks| - 1]), blocks[|blocks| - 1])
  }

  predicate IssuedAt(blocks: seq<Block>, i: nat, n: string)
    requires i < |blocks|
  {
    blocks[i].Issue? && blocks[i].nonce == n && Inserts(After(blocks[..i]), n, blocks[i].at)
  }

  predicate Accepted(blocks: seq<Block>, j: nat)
    requires j < |blocks|
  {
    blocks[j].Consume? && AnswerTo(After(blocks[..j]), blocks[j].nonce, blocks[j].now) == Recognised
  }

  // Block b leaves a nonce issued at time `at` alone.
  predicate Spares(b: Block, n: string, at: Instant)
  {
    b.Consume? ==> b.nonce != n && InTime(at, b.now)
  }

  // Issued at i, and spared by every block since.
  predicate Live(blocks: seq<Block>, n: string, i: nat)
  {
    i < |blocks| && IssuedAt(blocks, i, n) && forall k | i < k < |blocks| :: Spares(blocks[k], n, blocks[i].at)
  }

  lemma IssuedAtPrefix(blocks: seq<Block>, m: nat, i: nat, n: string)
    requires i < m <= |blocks|
    ensures IssuedAt(blocks[..m], i, n) <==> IssuedAt(blocks, i, n)
  {
    assert blocks[..m][..i] == blocks[..i];
  }

  lemma LiveInFront(blocks: seq<Block>, n: string, i: nat)
    requires |blocks| > 0 && i < |blocks| - 1
    ensures var last := |blocks| - 1;
      Live(blocks, n, i) <==>
        Live(blocks[..last], n, i) && blocks[i].Issue? && Spares(blocks[last], n, blocks[i].at)
  {
    var last := |blocks| - 1;
    IssuedAtPrefix(blocks, last, i, n);
    if IssuedAt(blocks, i, n) {
      NonceOfIssue(blocks, i, n);
      hide IssuedAt, Spares;
      SparedInFront(blocks, n, blocks[i].at, i);
    }
  }

  lemma SparedInFront(blocks: seq<Block>, n: string, at: Instant, i: nat)
    requires i < |blocks| - 1
    ensures var last := |blocks| - 1;
      (forall k | i < k < |blocks| :: Spares(blocks[k], n, at))
      <==> (forall k | i < k < last :: Spares(blocks[..last][k], n, at)) && Spares(blocks[last], n, at)
  {
    hide Spares;
    var last := |blocks| - 1;
    assert forall k | i < k < last :: blocks[..last][k] == blocks[k];
  }

  // One block, seen by a nonce stored with the deadline of its issue.
  lemma NextKeeps(t: Table, b: Block, n: string, at: Instant)
    requires Fits(at) && n in t && t[n] == Deadline(at)
    ensures n in Next(t, b) <==> Spares(b, n, at)
    ensures n in Next(t, b) ==> Next(t, b)[n] == Deadline(at)
  {
    hide Late, Deadline, InTime;
    if b.Consume? {
      LateIsByTime(at, b.now);
    }
  }

  // Live nonces are in the table, with the deadline of their issue ...
  lemma {:induction false} LiveIsStored(blocks: seq<Block>, n: string, i: nat)
    requires Live(blocks, n, i)
    ensures i < |blocks| && blocks[i].Issue? && Fits(blocks[i].at)
    ensures n in After(blocks) && After(blocks)[n] == Deadline(blocks[i].at)
  {
    hide Late, Deadline, InTime, Spares;
    var last := |blocks| - 1;
    if i < last {
      hide IssuedAt, Next, Live;
      LiveInFront(blocks, n, i);
      LiveIsStored(blocks[..last], n, i);
      NextKeeps(After(blocks[..last]), blocks[last], n, blocks[i].at);
    }
  }

  // ... and whatever is in the table is live.
  lemma {:induction false} StoredIsLive(blocks: seq<Block>, n: string) returns (i: nat)
    requires n in After(blocks)
    ensures Live(blocks, n, i)
  {
    hide Late, Deadline, InTime, Spares;
    var last := |blocks| - 1;
    var front, b := blocks[..last], blocks[last];
    if n !in After(front) {
      i := last;
      assert b.Issue? && b.nonce == n;
    } else {
      hide Next, Live, IssuedAt;
      i := StoredIsLive(front, n);
      LiveIsStored(front, n, i);
      LiveIndex(front, n, i);
      assert front[i] == blocks[i];
      NextKeeps(After(front), b, n, front[i].at);
      LiveInFront(blocks, n, i);
    }
  }

  lemma LiveIndex(blocks: seq<Block>, n: string, i: nat)
    requires Live(blocks, n, i)
    ensures i < |blocks| && blocks[i].Issue? && blocks[i].nonce == n && IssuedAt(blocks, i, n)
  {}

  // The text purge is a purge by time.
  lemma PurgeIsByTime(blocks: seq<Block>, n: string, i: nat, now: Instant)
    requires Live(blocks, n, i)
    ensures i < |blocks| && blocks[i].Issue? && (n in Purged(After(blocks), now) <==> InTime(blocks[i].at, now))
  {
    hide Late, Deadline, InTime, After, Live;
    LiveIsStored(blocks, n, i);
    LateIsByTime(blocks[i].at, now);
  }

  lemma DeadlineReadBack(at: Instant)
    requires Fits(at)
    ensures FromIso(Deadline(at)) == Some(at + LIFETIME)
  {
    hide Iso, FromIso;
    IsoRoundTrip(at + LIFETIME);
  }

  // The second expiry test in _consume_nonce is never taken.
  lemma AnswerIsDecidedByPurge(blocks: seq<Block>, n: string, now: Instant)
    ensures AnswerTo(After(blocks), n, now) == if n in Purged(After(blocks), now) then Recognised else NotRecognised
  {
    hide Late, Deadline, After, Live, FromIso;
    if n in Purged(After(blocks), now) {
      var i := StoredIsLive(blocks, n);
      PurgeIsByTime(blocks, n, i, now);
      LiveIsStored(blocks, n, i);
      DeadlineReadBack(blocks[i].at);
    }
  }

  ghost predicate LiveAndInTime(blocks: seq<Block>, n: string, i: nat, now: Instant)
  {
    Live(blocks, n, i) && InTime(blocks[i].at, now)
  }

  // Main result: a nonce is recognised exactly when it was issued, and since then no
  // block consumed it or was timed past its deadline, this one included.
  lemma RecognisedIff(blocks: seq<Block>, n: string, now: Instant)
    ensures AnswerTo(After(blocks), n, now) == Recognised <==> exists i :: LiveAndInTime(blocks, n, i, now)
  {
    AnswerIsDecidedByPurge(blocks, n, now);
    hide AnswerTo, After, Live, InTime;
    if n in Purged(After(blocks), now) {
      var i := StoredIsLive(blocks, n);
      PurgeIsByTime(blocks, n, i, now);
      assert LiveAndInTime(blocks, n, i, now);
    }
    forall i: nat | LiveAndInTime(blocks, n, i, now)
      ensures n in Purged(After(blocks), now)
    {
      PurgeIsByTime(blocks, n, i, now);
    }
  }

  // Issued at i, not submitted since, and at most 120 seconds old.
  ghost predicate Fresh(blocks: seq<Block>, n: string, i: nat, now: Instant)
  {
    && i < |blocks| && IssuedAt(blocks, i, n) && now <= blocks[i].at + 120_000_000
    && forall k | i < k < |blocks| && blocks[k].Consume? :: blocks[k].nonce != n
  }

  // Where no clock ran ahead of this one, as in serial handling, that is all it takes.
  lemma RecognisedWithOneClock(blocks: seq<Block>, n: string, now: Instant)
    requires forall k | 0 <= k < |blocks| && blocks[k].Consume? :: blocks[k].now <= now
    ensures AnswerTo(After(blocks), n, now) == Recognised <==> exists i :: Fresh(blocks, n, i, now)
  {
    RecognisedIff(blocks, n, now);
    hide AnswerTo, After, Fresh, LiveAndInTime;
    forall i: nat ensures LiveAndInTime(blocks, n, i, now) <==> Fresh(blocks, n, i, now) {
      FreshIsLive(blocks, n, i, now);
    }
  }

  lemma FreshIsLive(blocks: seq<Block>, n: string, i: nat, now: Instant)
    requires forall k | 0 <= k < |blocks| && blocks[k].Consume? :: blocks[k].now <= now
    ensures LiveAndInTime(blocks, n, i, now) <==> Fresh(blocks, n, i, now)
  {
    if i < |blocks| && IssuedAt(blocks, i, n) {
      NonceOfIssue(blocks, i, n);
      hide IssuedAt;
      if LiveAndInTime(blocks, n, i, now) {
        forall k | i < k < |blocks| && blocks[k].Consume? ensures blocks[k].nonce != n {
          assert Spares(blocks[k], n, blocks[i].at);
        }
      }
    }
  }

  // ---- acceptances come from distinct issues ------------------------------------------

  // Issue i backs the acceptance at j: same nonce, in time, nothing between used it up.
  predicate Backs(blocks: seq<Block>, i: nat, j: nat)
    requires j < |blocks|
  {
    && i < j && blocks[j].Consume? && IssuedAt(blocks, i, blocks[j].nonce) && InTime(blocks[i].at, blocks[j].now)
    && forall k | i < k < j :: Spares(blocks[k], blocks[j].nonce, blocks[i].at)
  }

  lemma AcceptedIsBacked(blocks: seq<Block>, j: nat) returns (i: nat)
    requires j < |blocks| && Accepted(blocks, j)
    ensures Backs(blocks, i, j)
  {
    hide AnswerTo, After, IssuedAt, InTime, Spares;
    var front, n, now := blocks[..j], blocks[j].nonce, blocks[j].now;
    RecognisedIff(front, n, now);
    i :| LiveAndInTime(front, n, i, now);
    IssuedAtPrefix(blocks, j, i, n);
    NonceOfIssue(blocks, i, n);
    assert front[i] == blocks[i];
    forall k | i < k < j ensures Spares(blocks[k], n, blocks[i].at) {
      assert Spares(front[k], n, front[i].at);
    }
  }

  ghost function Source(blocks: seq<Block>, j: nat): (i: nat)
    requires j < |blocks| && Accepted(blocks, j)
    ensures Backs(blocks, i, j)
  {
    var i :| (exists k: nat :: Backs(blocks, k, j)) ==> Backs(blocks, i, j);
    assert Backs(blocks, i, j) by { var k := AcceptedIsBacked(blocks, j); }
    i
  }

  // Freshness (section 10.2 of RFC 9334): no issue backs two acceptances.
  lemma OneAcceptancePerIssue(blocks: seq<Block>, i: nat, j: nat, k: nat)
    requires j < |blocks| && k < |blocks| && Backs(blocks, i, j) && Backs(blocks, i, k)
    ensures j == k
  {
    hide IssuedAt, InTime;
    NonceOfIssue(blocks, i, blocks[j].nonce);
    NonceOfIssue(blocks, i, blocks[k].nonce);
  }

  lemma NonceOfIssue(blocks: seq<Block>, i: nat, n: string)
    requires i < |blocks| && IssuedAt(blocks, i, n)
    ensures blocks[i].Issue? && blocks[i].nonce == n
  {}

  // A submitted nonce is gone, whatever the verdict, until it is issued again.
  lemma SubmittedIsBurned(blocks: seq<Block>, j: nat)
    requires j < |blocks| && blocks[j].Consume?
    requires forall k | j < k < |blocks| :: !IssuedAt(blocks, k, blocks[j].nonce)
    ensures blocks[j].nonce !in After(blocks)
  {
    hide After, IssuedAt, InTime;
    if blocks[j].nonce in After(blocks) {
      var i := StoredIsLive(blocks, blocks[j].nonce);
      NonceOfIssue(blocks, i, blocks[j].nonce);
    }
  }

  // ---- conservation -----------------------------------------------------------------

  function Issues(blocks: seq<Block>, n: string): nat
  {
    if blocks == [] then 0
    else
      var last := |blocks| - 1;
      Issues(blocks[..last], n) + (if IssuedAt(blocks, last, n) then 1 else 0)
  }

  function Acceptances(blocks: seq<Block>, n: string): nat
  {
    if blocks == [] then 0
    else
      var last := |blocks| - 1;
      Acceptances(blocks[..last], n) + (if Accepted(blocks, last) && blocks[last].nonce == n then 1 else 0)
  }

  function Purges(blocks: seq<Block>, n: string): nat
  {
    if blocks == [] then 0
    else
      var last := |blocks| - 1;
      var t := After(blocks[..last]);
      Purges(blocks[..last], n)
      + (if blocks[last].Consume? && n in t && n !in Purged(t, blocks[last].now) then 1 else 0)
  }

  function Present(t: Table, n: string): nat { if n in t then 1 else 0 }

  lemma {:induction false} Conservation(blocks: seq<Block>, n: string)
    ensures Issues(blocks, n) == Acceptances(blocks, n) + Purges(blocks, n) + Present(After(blocks), n)
    ensures Acceptances(blocks, n) <= Issues(blocks, n)
  {
    hide AnswerTo, Late, Deadline;
    if blocks != [] {
      var last := |blocks| - 1;
      var front, b := blocks[..last], blocks[last];
      Conservation(front, n);
      if b.Consume? {
        AnswerIsDecidedByPurge(front, b.nonce, b.now);
      }
    }
  }
}
