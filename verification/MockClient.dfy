// phase3/mock_eac_client.c: the bounded receive loop and the exit status.

module MockClient {
  import opened Wrappers
  import opened CStrings
  import opened JsonReply

  const RECV_BUF_SIZE: nat := 4096

  function Min(a: nat, b: nat): nat { if a <= b then a else b }

  method ResponseValid(s: string) returns (valid: bool)
    ensures valid <==> ResponseIsValid(s)
  {
    var tight, spaced := StrStr(s, "\"valid\":true", 0), StrStr(s, "\"valid\": true", 0);
    hide StrStr, OccursAt;
    StrStrFinds(s, "\"valid\":true");
    StrStrFinds(s, "\"valid\": true");
    valid := tight.Some? || spaced.Some?;
  }

  lemma StrStrFinds(s: string, needle: string)
    ensures StrStr(s, needle, 0).Some? <==> Occurs(s, needle)
  {}

  // One recv(): at most so many bytes, 0 being the peer closing early, or an error.
  datatype Recv = Bytes(most: nat) | Fails

  // How much of a stream of `len` bytes the loop has when it ends, if no call fails.
  function Arrived(len: nat, calls: seq<Recv>, total: nat): (n: Option<nat>)
    requires total <= Min(len, RECV_BUF_SIZE - 1)
    ensures n.Some? ==> total <= n.value <= Min(len, RECV_BUF_SIZE - 1)
    decreases |calls|
  {
    if total == RECV_BUF_SIZE - 1 || calls == [] then Some(total)
    else match calls[0]
      case Fails => None
      case Bytes(most) =>
        var got := Min(most, Min(len, RECV_BUF_SIZE - 1) - total);
        if got == 0 then Some(total) else Arrived(len, calls[1..], total + got)
  }

  // Calls that all return something.
  predicate Segments(calls: seq<Recv>) { forall i | 0 <= i < |calls| :: calls[i].Bytes? && calls[i].most > 0 }

  function Sum(calls: seq<Recv>): nat
  {
    if calls == [] then 0 else (if calls[0].Bytes? then calls[0].most else 0) + Sum(calls[1..])
  }

  lemma {:induction false} SumAppend(a: seq<Recv>, b: seq<Recv>)
    ensures Sum(a + b) == Sum(a) + Sum(b)
  {
    if a == [] {
      assert a + b == b;
    } else {
      SumAppend(a[1..], b);
      assert (a + b)[1..] == a[1..] + b;
    }
  }

  // What arrives is the whole stream, as far as the segments and the buffer reach.
  lemma {:induction false} ArrivedIsSum(len: nat, calls: seq<Recv>, total: nat)
    requires Segments(calls) && total <= Min(len, RECV_BUF_SIZE - 1)
    ensures Arrived(len, calls, total) == Some(Min(Min(len, 4095), total + Sum(calls)))
    decreases |calls|
  {
    if total < RECV_BUF_SIZE - 1 && calls != [] {
      var got := Min(calls[0].most, Min(len, RECV_BUF_SIZE - 1) - total);
      if got > 0 {
        ArrivedIsSum(len, calls[1..], total + got) by {
          assert forall i | 0 <= i < |calls| - 1 :: calls[1..][i] == calls[i + 1];
        }
      }
    }
  }

  // So how the stream is cut does not matter.
  lemma CutsDoNotMatter(len: nat, before: seq<Recv>, a: nat, b: nat, later: seq<Recv>)
    requires Segments(before) && Segments(later) && a > 0 && b > 0
    ensures Arrived(len, before + [Bytes(a + b)] + later, 0) == Arrived(len, before + [Bytes(a), Bytes(b)] + later, 0)
  {
    var one, two := before + [Bytes(a + b)] + later, before + [Bytes(a), Bytes(b)] + later;
    ArrivedIsSum(len, one, 0);
    ArrivedIsSum(len, two, 0);
    SumAppend(before + [Bytes(a + b)], later);
    SumAppend(before, [Bytes(a + b)]);
    SumAppend(before + [Bytes(a), Bytes(b)], later);
    SumAppend(before, [Bytes(a), Bytes(b)]);
    assert [Bytes(a + b)][1..] == [] && [Bytes(a), Bytes(b)][1..] == [Bytes(b)] && [Bytes(b)][1..] == [];
  }

  // A call that fails before the stream or the buffer is full fails the whole; one after
  // the peer has closed, or after the buffer is full, is never made.
  lemma {:induction false} FailureIs(len: nat, before: seq<Recv>, later: seq<Recv>, total: nat)
    requires Segments(before) && total + Sum(before) < Min(len, RECV_BUF_SIZE - 1)
    ensures Arrived(len, before + [Fails] + later, total) == None
    ensures Arrived(len, before + [Bytes(0)] + later, total) == Some(total + Sum(before))
    decreases |before|
  {
    if before == [] {
      assert before + [Fails] + later == [Fails] + later && before + [Bytes(0)] + later == [Bytes(0)] + later;
    } else {
      var got := before[0].most;
      assert forall i | 0 <= i < |before| - 1 :: before[1..][i] == before[i + 1];
      FailureIs(len, before[1..], later, total + got);
      assert (before + [Fails] + later)[1..] == before[1..] + [Fails] + later;
      assert (before + [Bytes(0)] + later)[1..] == before[1..] + [Bytes(0)] + later;
    }
  }

  // Every approval of which 14 characters come through is taken, and no refusal is: the
  // condition of Handshake, over the segments.
  lemma SegmentsSuffice(r: Reply, calls: seq<Recv>)
    requires Segments(calls)
    ensures (r.Approve? && var arrived := Arrived(|Print(r)|, calls, 0); arrived.Some? && arrived.value >= 14)
      <==> r.Approve? && Sum(calls) >= 14
  {
    hide Arrived, Print;
    ArrivedIsSum(|Print(r)|, calls, 0);
    if r.Approve? {
      ApprovalIsLong(r);
    }
  }

  lemma ApprovalIsLong(r: Reply)
    requires r.Approve?
    ensures |Print(r)| >= 14
  {
    Heads(APPROVE_FRONT);
    Fronts();
  }

  // The prefix of the stream that is stored, NUL-terminated because the buffer was zeroed.
  method Receive(response: array<char>, stream: string, calls: seq<Recv>) returns (failed: bool, total: nat)
    requires response.Length == RECV_BUF_SIZE
    requires forall i | 0 <= i < response.Length :: response[i] == '\0'
    modifies response
    ensures Arrived(|stream|, calls, 0) == if failed then None else Some(total)
    ensures total <= |stream| && total < response.Length
    ensures response[..total] == stream[..total] && response[total] == '\0'
  {
    failed, total := false, 0;
    var next := 0;
    while total < RECV_BUF_SIZE - 1 && next < |calls|
      invariant 0 <= next <= |calls| && total <= Min(|stream|, RECV_BUF_SIZE - 1)
      invariant Arrived(|stream|, calls[next..], total) == Arrived(|stream|, calls, 0)
      invariant response[..total] == stream[..total]
      invariant forall i | total <= i < response.Length :: response[i] == '\0'
    {
      assert calls[next..][1..] == calls[next + 1..];
      match calls[next] {
        case Fails =>
          failed := true;
          return;
        case Bytes(most) =>
          var got := Min(most, Min(|stream|, RECV_BUF_SIZE - 1) - total);
          if got == 0 {
            return;
          }
          CopyInto(response, stream, total, got);
          total := total + got;
          next := next + 1;
      }
    }
  }

  method CopyInto(response: array<char>, stream: string, at: nat, n: nat)
    requires at + n <= |stream| && at + n < response.Length
    requires response[..at] == stream[..at]
    modifies response
    ensures response[..at + n] == stream[..at + n]
    ensures forall i | at + n <= i < response.Length :: response[i] == old(response[i])
  {
    for i := 0 to n
      invariant response[..at + i] == stream[..at + i]
      invariant forall k | at + i <= k < response.Length :: response[k] == old(response[k])
    {
      response[at + i] := stream[at + i];
    }
  }

  // Exit status 0 exactly when the shim approved, no recv() failed before the buffer was
  // full or the peer closed, and 14 characters arrived, however they were cut.
  method Handshake(r: Reply, calls: seq<Recv>) returns (exitCode: nat)
    ensures exitCode == 0 <==>
      r.Approve? && var arrived := Arrived(|Print(r)|, calls, 0); arrived.Some? && arrived.value >= 14
  {
    var response := new char[RECV_BUF_SIZE](_ => '\0');
    hide Arrived, Print;
    var failed, total := Receive(response, Print(r), calls);
    if failed || total == 0 {
      return 1;
    }
    ghost var junk := response[total + 1..];
    assert response[..] == Print(r)[..total] + ['\0'] + junk;
    ReplyHasNoNul(r, total, junk);
    DecodersAgree(r, total);
    var valid := ResponseValid(CString(response[..]));
    exitCode := if valid then 0 else 1;
  }
}
