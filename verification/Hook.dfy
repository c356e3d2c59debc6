// The LD_PRELOAD gate, phase3/eac_hook.c: bounded hex and JSON writers, the
// query to the shim, and the callbacks that let messages through.

module Hook {
  import opened Wrappers
  import opened Text
  import opened CStrings
  import opened JsonReply

  const SHIM_BUF_SIZE: nat := 8192
  const PLAYER_ID_SIZE: nat := 256
  const INT_MAX: int := 0x7FFF_FFFF
  const SIZE_MAX: int := 0x1_0000_0000_0000_0000

  // ---- bytes_to_hex ---------------------------------------------------------------------

  // How many whole bytes fit: the loop runs while 2 * i + 3 < cap.
  function BytesThatFit(len: nat, cap: nat): (n: nat)
    ensures n <= len
    ensures n < len ==> 2 * n + 3 >= cap
    ensures n > 0 ==> 2 * n + 1 < cap
  {
    if cap < 4 then 0 else if len <= (cap - 2) / 2 then len else (cap - 2) / 2
  }

  lemma HexNext(data: bytes, i: nat)
    requires i < |data|
    ensures Hex(data[..i + 1]) == Hex(data[..i]) + HexByte(data[i])
  {
    assert data[..i + 1][..i] == data[..i];
  }

  // Writes stay inside the buffer for every capacity of at least one.
  method BytesToHex(data: bytes, out: array<char>)
    requires out.Length >= 1
    modifies out
    ensures var n := BytesThatFit(|data|, out.Length);
      && 2 * n < out.Length
      && out[..2 * n] == Hex(data[..n]) && out[2 * n] == '\0'
  {
    hide BytesThatFit, Hex, HexByte;
    var w, i := 0, 0;
    assert out[..0] == Hex(data[..0]) by { HexOfNothing(data); }
    while i < |data| && w + 3 < out.Length
      invariant i <= |data| && w == 2 * i && w < out.Length
      invariant i <= BytesThatFit(|data|, out.Length)
      invariant out[..w] == Hex(data[..i])
    {
      HexNext(data, i);
      FitsNext(|data|, out.Length, i);
      var digits := HexByte(data[i]);
      out[w], out[w + 1], out[w + 2] := digits[0], digits[1], '\0';
      assert out[..w + 2] == out[..w] + digits;
      w := w + 2;
      i := i + 1;
    }
    FitsDone(|data|, out.Length, i);
    out[w] := '\0';
  }

  lemma HexOfNothing(data: bytes)
    ensures Hex(data[..0]) == ""
  {}

  lemma FitsNext(len: nat, cap: nat, i: nat)
    requires i < len && 2 * i + 3 < cap
    ensures i + 1 <= BytesThatFit(len, cap)
  {}

  lemma FitsDone(len: nat, cap: nat, i: nat)
    requires i <= BytesThatFit(len, cap) && (i >= len || 2 * i + 3 >= cap)
    ensures i == BytesThatFit(len, cap)
  {}

  // The capacity hook_callback computes in size_t arithmetic, and when it holds the
  // whole message: exactly when the sum does not wrap.
  function HexCapacity(len: nat): nat { (len * 2 + 4) % SIZE_MAX }

  lemma WholeMessageFitsIff(len: nat)
    requires len < 0x1_0000_0000_0000_0000
    ensures BytesThatFit(len, HexCapacity(len)) == len <==> len * 2 + 4 < 0x1_0000_0000_0000_0000
    ensures HexCapacity(len) == 0 <==> len == 0x7FFF_FFFF_FFFF_FFFE || len == 0xFFFF_FFFF_FFFF_FFFE
  {
    if len * 2 + 4 >= SIZE_MAX {
      assert HexCapacity(len) == len * 2 + 4 - SIZE_MAX || HexCapacity(len) == len * 2 + 4 - 2 * SIZE_MAX;
    }
  }

  // What the hex text carries of a message: all of it, unless the capacity wrapped.
  function Carried(message: bytes): (carried: bytes)
    ensures carried <= message
  {
    message[..BytesThatFit(|message|, HexCapacity(|message|))]
  }

  lemma CarriedIsWholeIff(message: bytes)
    requires |message| < SIZE_MAX
    ensures Carried(message) == message <==> |message| * 2 + 4 < SIZE_MAX
  {
    WholeMessageFitsIff(|message|);
    hide BytesThatFit, HexCapacity;
  }

  // ---- build_json -----------------------------------------------------------------------

  const REQUEST_HEAD: string := "{\"type\":\"eac_intercept\",\"player_id\":\""
  const REQUEST_MIDDLE: string := "\",\"original_message\":\""
  const REQUEST_END: string := "\"}"

  function Request(playerId: string, hex: string): string
  {
    REQUEST_HEAD + playerId + REQUEST_MIDDLE + hex + REQUEST_END
  }

  // snprintf: at most cap - 1 characters and a NUL; the result is the length wanted.
  method Snprintf(buf: array<char>, text: string) returns (n: int)
    requires buf.Length >= 1
    modifies buf
    ensures n == if |text| <= INT_MAX then |text| else -1
    ensures |text| <= INT_MAX ==>
      var m := if |text| < buf.Length then |text| else buf.Length - 1;
      buf[..m] == text[..m] && buf[m] == '\0'
  {
    if |text| > INT_MAX {
      return -1;
    }
    var m := if |text| < buf.Length then |text| else buf.Length - 1;
    for i := 0 to m
      invariant buf[..i] == text[..i]
    {
      buf[i] := text[i];
    }
    buf[m] := '\0';
    n := |text|;
  }

  method BuildJson(buf: array<char>, playerId: string, hex: string) returns (ok: bool)
    requires 1 <= buf.Length <= INT_MAX
    modifies buf
    ensures ok <==> |Request(playerId, hex)| < buf.Length
    ensures ok ==> var n := |Request(playerId, hex)|; buf[..n] == Request(playerId, hex) && buf[n] == '\0'
  {
    hide Request;
    var n := Snprintf(buf, Request(playerId, hex));
    if n < 0 || n >= buf.Length {
      return false;
    }
    assert Request(playerId, hex)[..n] == Request(playerId, hex);
    return true;
  }

  // What a receiver can read back from a request, whatever the player id contains: the
  // hex digits before the closing quote.
  function LastQuote(s: string): (i: int)
    ensures -1 <= i < |s|
  {
    if s == "" then -1 else if s[|s| - 1] == '"' then |s| - 1 else LastQuote(s[..|s| - 1])
  }

  function MessageIn(request: string): Option<bytes>
  {
    if |request| < 2 then None
    else
      var body := request[..|request| - 2];
      Unhex(body[LastQuote(body) + 1..])
  }

  lemma {:induction false} LastQuoteBefore(a: string, b: string)
    requires forall i | 0 <= i < |b| :: b[i] != '"'
    ensures LastQuote(a + "\"" + b) == |a|
  {
    var s := a + "\"" + b;
    if b == "" {
      assert s[|s| - 1] == '"';
    } else {
      assert s[|s| - 1] == b[|b| - 1];
      assert s[..|s| - 1] == a + "\"" + b[..|b| - 1];
      LastQuoteBefore(a, b[..|b| - 1]);
    }
  }

  // The request carries the whole message.
  lemma RequestCarriesMessage(playerId: string, message: bytes)
    ensures MessageIn(Request(playerId, Hex(message))) == Some(message)
  {
    var hex := Hex(message);
    var front := REQUEST_HEAD + playerId + "\",\"original_message\":";
    var request := Request(playerId, hex);
    assert REQUEST_MIDDLE == "\",\"original_message\":" + "\"";
    assert request == front + "\"" + hex + REQUEST_END;
    assert request[..|request| - 2] == front + "\"" + hex;
    LastQuoteBefore(front, hex);
    HexRoundTrip(message);
    assert (front + "\"" + hex)[|front| + 1..] == hex;
  }

  // The request, written out.
  lemma RequestText(playerId: string, hex: string)
    ensures Request(playerId, hex) ==
      "{\"type\":\"eac_intercept\",\"player_id\":\"" + playerId + "\",\"original_message\":\"" + hex + "\"}"
  {}

  // Different players or messages make different requests, whatever the ids hold.
  lemma RequestInjective(a: string, b: string, m: bytes, n: bytes)
    requires Request(a, Hex(m)) == Request(b, Hex(n))
    ensures a == b && m == n
  {
    RequestCarriesMessage(a, m);
    RequestCarriesMessage(b, n);
    var s, t := Request(a, Hex(m)), Request(b, Hex(m));
    assert |a| == |b|;
    var i := |REQUEST_HEAD|;
    assert s[i..i + |a|] == a && t[i..i + |b|] == b;
  }

  // An id without quotes is read back: it is what stands before the next one.
  lemma RequestCarriesPlayer(playerId: string, hex: string, text: string, rest: string)
    requires (forall i | 0 <= i < |playerId| :: playerId[i] != '"') && forall i | 0 <= i < |text| :: text[i] != '"'
    ensures Request(playerId, hex) == "{\"type\":\"eac_intercept\",\"player_id\":\"" + text + "\"" + rest ==>
      text == playerId
  {
    RequestText(playerId, hex);
    var head := "{\"type\":\"eac_intercept\",\"player_id\":\"";
    if Request(playerId, hex) == head + text + "\"" + rest {
      QuoteEnds(head, playerId, ",\"original_message\":\"" + hex + "\"}", text, rest) by {
        assert "\",\"original_message\":\"" == "\"" + ",\"original_message\":\"";
        assert head + playerId + "\",\"original_message\":\"" + hex + "\"}"
            == head + playerId + "\"" + (",\"original_message\":\"" + hex + "\"}");
      }
    }
  }

  lemma QuoteEnds(head: string, a: string, x: string, b: string, y: string)
    requires head + a + "\"" + x == head + b + "\"" + y
    requires (forall i | 0 <= i < |a| :: a[i] != '"') && forall i | 0 <= i < |b| :: b[i] != '"'
    ensures a == b
  {
    var s, n := head + a + "\"" + x, |head|;
    assert s[n + |a|] == '"' && (head + b + "\"" + y)[n + |b|] == '"';
    assert forall i | 0 <= i < |a| :: s[n + i] == a[i];
    assert forall i | 0 <= i < |b| :: (head + b + "\"" + y)[n + i] == b[i];
    assert |a| == |b|;
    assert s[n..n + |a|] == a && s[n..n + |a|] == b;
  }

  // ---- shim_query -----------------------------------------------------------------------

  // What one connection yields: nothing usable (no socket, no connection, short write,
  // timeout, error, early close), or the characters of one read().
  datatype Exchange = NoReply | Received(text: string)

  predicate ReadFits(x: Exchange) { x.Received? ==> 0 < |x.text| <= SHIM_BUF_SIZE - 1 }

  ghost predicate Approves(x: Exchange) { x.Received? && SaysTrue(CString(x.text + ['\0']), "valid") }

  lemma CStringOfPrefix(buf: seq<char>, n: nat)
    requires n < |buf| && buf[n] == '\0'
    ensures Terminated(buf) && CString(buf) == CString(buf[..n] + ['\0'])
  {
    var cut := buf[..n] + ['\0'];
    var i, j := NulIndex(buf), NulIndex(cut);
    assert i <= n;
    assert cut[n] == '\0' && j <= n;
    assert cut[i] == '\0' by { assert i < n ==> cut[i] == buf[i]; }
    assert j < n ==> buf[j] == cut[j];
    assert i == j;
    assert buf[..i] == cut[..i];
  }

  method ShimQuery(x: Exchange, resp: array<char>) returns (valid: bool)
    requires resp.Length == SHIM_BUF_SIZE && ReadFits(x)
    modifies resp
    ensures valid <==> Approves(x)
  {
    hide SaysTrue, NulIndex;
    if x.NoReply? {
      return false;
    }
    var n := |x.text|;
    for i := 0 to n
      invariant resp[..i] == x.text[..i]
    {
      resp[i] := x.text[i];
    }
    resp[n] := '\0';
    assert resp[..n] == x.text;
    CStringOfPrefix(resp[..], n);
    assert resp[..][..n] == x.text;
    valid := ParseJsonBool(resp, "valid");
  }

  // ---- the gate, as a state machine --------------------------------------------------------

  datatype Event = Probed(request: string, approved: bool)
                 | Registered
                 | Asked(request: string, approved: bool)
                 | Forwarded(callback: nat, message: bytes)

  // Globals, plus the history of everything that left the library.
  datatype Gate = Gate(gameCallback: Option<nat>, resolved: bool, playerId: string, trace: seq<Event>)

  datatype Call = BeginSession(user: Option<string>)
                | AddNotify(callback: Option<nat>, x: Exchange, dlsymOk: bool)
                | Message(message: bytes, oom: bool, x: Exchange)

  const START := Gate(None, false, "unknown", [])

  // strncpy into 256 bytes, the last of which is then zeroed.
  function Truncated(user: string): string
  {
    if |user| < PLAYER_ID_SIZE then user else user[..PLAYER_ID_SIZE - 1]
  }

  ghost function Next(g: Gate, call: Call): Gate
  {
    match call
    case BeginSession(user) => if user.Some? then g.(playerId := Truncated(user.value)) else g
    case AddNotify(callback, x, dlsymOk) =>
      var g1, request := g.(gameCallback := callback), Request(g.playerId, "");
      if |request| >= SHIM_BUF_SIZE then g1
      else if !Approves(x) then g1.(trace := g.trace + [Probed(request, false)])
      else if !g.resolved && !dlsymOk then g1.(trace := g.trace + [Probed(request, true)])
      else g1.(resolved := true, trace := g.trace + [Probed(request, true), Registered])
    case Message(message, oom, x) =>
      var request := Request(g.playerId, Hex(Carried(message)));
      if oom || |request| >= SHIM_BUF_SIZE then g
      else if !Approves(x) then g.(trace := g.trace + [Asked(request, false)])
      else if g.gameCallback.None? then g.(trace := g.trace + [Asked(request, true)])
      else g.(trace := g.trace + [Asked(request, true), Forwarded(g.gameCallback.value, message)])
  }

  class HookLibrary {
    var gameCallback: Option<nat>
    var realAddNotify: bool
    var playerId: array<char>
    ghost var trace: seq<Event>

    ghost predicate Valid()
      reads this, playerId
    {
      playerId.Length == PLAYER_ID_SIZE && Terminated(playerId[..])
    }

    ghost function State(): Gate
      reads this, playerId
      requires Valid()
    {
      Gate(gameCallback, realAddNotify, CString(playerId[..]), trace)
    }

    // EOS_AntiCheatClient_BeginSession; user_id is a C string or NULL.
    method BeginSession(user: Option<string>)
      requires Valid() && (user.Some? ==> forall i | 0 <= i < |user.value| :: user.value[i] != '\0')
      modifies playerId
      ensures Valid() && State() == Next(old(State()), Call.BeginSession(user))
    {
      hide SaysTrue;
      if user.Some? {
        var text := user.value;
        for i := 0 to PLAYER_ID_SIZE - 1
          invariant forall k | 0 <= k < i :: playerId[k] == if k < |text| then text[k] else '\0'
        {
          playerId[i] := if i < |text| then text[i] else '\0';
        }
        playerId[PLAYER_ID_SIZE - 1] := '\0';
        ghost var kept := Truncated(text);
        ghost var junk := playerId[|kept| + 1..];
        assert playerId[..] == kept + ['\0'] + junk;
        NulAfter(kept, junk);
      }
    }

    // EOS_AntiCheatClient_AddNotifyMessageToServer
    method AddNotify(callback: Option<nat>, x: Exchange, dlsymOk: bool)
      requires Valid() && ReadFits(x)
      modifies this`gameCallback, this`realAddNotify, this`trace
      ensures Valid() && State() == Next(old(State()), Call.AddNotify(callback, x, dlsymOk))
    {
      hide SaysTrue, NulIndex, Request, Approves;
      gameCallback := callback;
      var json, resp := new char[SHIM_BUF_SIZE](_ => '\0'), new char[SHIM_BUF_SIZE](_ => '\0');
      ghost var request := Request(CString(playerId[..]), "");
      var built := BuildJson(json, CString(playerId[..]), "");
      if !built {
        return;
      }
      var valid := ShimQuery(x, resp);
      trace := trace + [Probed(request, valid)];
      if !valid {
        return;
      }
      if !realAddNotify {
        if !dlsymOk {
          return;
        }
        realAddNotify := true;
      }
      trace := trace + [Registered];
    }

    // The malloc'ed hex text of a message.
    static method EncodeMessage(message: bytes) returns (hex: array<char>)
      requires HexCapacity(|message|) > 0
      ensures fresh(hex) && CString(hex[..]) == Hex(Carried(message))
    {
      hide NulIndex, BytesThatFit, Hex, HexCapacity;
      hex := new char[HexCapacity(|message|)](_ => '\0');
      BytesToHex(message, hex);
      HexIsCString(Carried(message), hex);
    }

    // hook_callback.  At the two lengths where the capacity wraps to zero the C code
    // writes one byte past an empty buffer.
    method HookCallback(message: bytes, oom: bool, x: Exchange)
      requires Valid() && ReadFits(x) && |message| < SIZE_MAX && HexCapacity(|message|) > 0
      modifies this`trace
      ensures Valid() && State() == Next(old(State()), Message(message, oom, x))
    {
      hide SaysTrue, NulIndex, Request, Approves;
      if oom {
        return;
      }
      var hex := EncodeMessage(message);
      var json, resp := new char[SHIM_BUF_SIZE](_ => '\0'), new char[SHIM_BUF_SIZE](_ => '\0');
      ghost var request := Request(CString(playerId[..]), Hex(Carried(message)));
      var built := BuildJson(json, CString(playerId[..]), CString(hex[..]));
      if !built {
        return;
      }
      var valid := ShimQuery(x, resp);
      trace := trace + [Asked(request, valid)];
      if !valid {
        return;
      }
      if gameCallback.Some? {
        trace := trace + [Forwarded(gameCallback.value, message)];
      }
    }
  }

  lemma HexIsCString(message: bytes, hex: array<char>)
    requires 2 * |message| < hex.Length && hex[..2 * |message|] == Hex(message)
    requires hex[2 * |message|] == '\0'
    ensures CString(hex[..]) == Hex(message)
  {
    hide Hex, NulIndex;
    var text, junk := Hex(message), hex[2 * |message| + 1..];
    assert hex[..] == text + ['\0'] + junk;
    forall i | 0 <= i < |text| ensures text[i] != '\0' {
      assert IsLowerHex(text[i]);
    }
    NulAfter(text, junk);
  }

  // ---- runs of the gate ------------------------------------------------------------------------

  ghost function After(calls: seq<Call>): Gate
  {
    if calls == [] then START else Next(After(calls[..|calls| - 1]), calls[|calls| - 1])
  }

  predicate HasRegistered(trace: seq<Event>) { exists t :: 0 <= t < |trace| && trace[t] == Registered }

  // hook_callback is static: only the runtime calls it, and only once it has been handed over.
  ghost predicate Runnable(calls: seq<Call>)
  {
    forall k | 0 <= k < |calls| && calls[k].Message? :: HasRegistered(After(calls[..k]).trace)
  }

  predicate ProbedBefore(trace: seq<Event>, t: nat)
    requires t <= |trace|
  {
    exists p :: 0 <= p < t && trace[p].Probed? && trace[p].approved
  }

  // A forwarded message follows its own approved query, which carried all of it (or, past
  // a length of 2^63 - 3, what fits the wrapped capacity) in a request that fits the
  // buffer, and some approved probe before that.
  predicate WellGuarded(trace: seq<Event>, t: nat)
    requires t < |trace|
  {
    trace[t].Forwarded? ==>
      && t >= 1 && trace[t - 1].Asked? && trace[t - 1].approved
      && |trace[t - 1].request| < SHIM_BUF_SIZE
      && MessageIn(trace[t - 1].request) == Some(Carried(trace[t].message))
      && (|trace[t].message| * 2 + 4 < SIZE_MAX ==> MessageIn(trace[t - 1].request) == Some(trace[t].message))
      && ProbedBefore(trace, t - 1)
  }

  predicate Safe(trace: seq<Event>)
  {
    && (forall t | 0 <= t < |trace| :: WellGuarded(trace, t))
    && (HasRegistered(trace) ==> ProbedBefore(trace, |trace|))
  }

  lemma ProbeStays(trace: seq<Event>, more: seq<Event>, t: nat, u: nat)
    requires t <= |trace| && ProbedBefore(trace, t) && t <= u <= |trace + more|
    ensures ProbedBefore(trace + more, u)
  {
    var p :| 0 <= p < t && trace[p].Probed? && trace[p].approved;
    assert (trace + more)[p] == trace[p];
  }

  lemma GuardStays(trace: seq<Event>, more: seq<Event>, t: nat)
    requires t < |trace| && WellGuarded(trace, t)
    ensures WellGuarded(trace + more, t)
  {
    if trace[t].Forwarded? {
      ProbeStays(trace, more, t - 1, t - 1);
    }
  }

  // New events that forward nothing and register only after an approved probe.
  lemma QuietAppend(trace: seq<Event>, e: Event)
    requires Safe(trace) && !e.Forwarded?
    requires e.Registered? ==> ProbedBefore(trace, |trace|)
    ensures Safe(trace + [e])
  {
    hide MessageIn;
    var all := trace + [e];
    forall t | 0 <= t < |all| ensures WellGuarded(all, t) {
      if t < |trace| {
        GuardStays(trace, [e], t);
      }
    }
    if HasRegistered(all) {
      assert HasRegistered(trace) || e.Registered? by {
        var t :| 0 <= t < |all| && all[t] == Registered;
        if t < |trace| {
          assert trace[t] == Registered;
        }
      }
      ProbeStays(trace, [e], |trace|, |all|);
    }
  }

  lemma ForwardAppend(trace: seq<Event>, request: string, callback: nat, message: bytes)
    requires Safe(trace) && HasRegistered(trace)
    requires |request| < SHIM_BUF_SIZE && MessageIn(request) == Some(Carried(message))
    ensures Safe(trace + [Asked(request, true), Forwarded(callback, message)])
  {
    if |message| * 2 + 4 < SIZE_MAX {
      CarriedIsWholeIff(message);
    }
    hide MessageIn, Carried;
    var more := [Asked(request, true), Forwarded(callback, message)];
    var all := trace + more;
    ProbeStays(trace, more, |trace|, |trace|);
    ProbeStays(trace, more, |trace|, |all|);
    forall t | 0 <= t < |all| ensures WellGuarded(all, t) {
      if t < |trace| {
        GuardStays(trace, more, t);
      }
    }
  }

  lemma NextIsSafe(g: Gate, call: Call)
    requires Safe(g.trace) && (call.Message? ==> HasRegistered(g.trace))
    ensures Safe(Next(g, call).trace)
  {
    hide Safe, Approves, Request, HasRegistered, MessageIn, Carried;
    match call
    case BeginSession(_) =>
    case AddNotify(_, x, _) =>
      var request := Request(g.playerId, "");
      QuietAppend(g.trace, Probed(request, false));
      QuietAppend(g.trace, Probed(request, true));
      var probed := g.trace + [Probed(request, true)];
      assert probed[|g.trace|] == Probed(request, true);
      QuietAppend(probed, Registered);
      assert g.trace + [Probed(request, true), Registered] == probed + [Registered];
    case Message(message, _, x) =>
      var request := Request(g.playerId, Hex(Carried(message)));
      QuietAppend(g.trace, Asked(request, false));
      QuietAppend(g.trace, Asked(request, true));
      RequestCarriesMessage(g.playerId, Carried(message));
      if |request| < SHIM_BUF_SIZE && g.gameCallback.Some? {
        ForwardAppend(g.trace, request, g.gameCallback.value, message);
      }
  }

  // Main result on the gate, for every run.
  lemma {:induction false} GateIsSafe(calls: seq<Call>)
    requires Runnable(calls)
    ensures Safe(After(calls).trace)
  {
    if calls != [] {
      var last := |calls| - 1;
      var front := calls[..last];
      hide Safe, Next, HasRegistered;
      forall k | 0 <= k < last && front[k].Message?
        ensures HasRegistered(After(front[..k]).trace)
      {
        assert front[..k] == calls[..k] && front[k] == calls[k];
      }
      GateIsSafe(front);
      NextIsSafe(After(front), calls[last]);
    } else {
      assert START.trace == [];
    }
  }

  // What each call adds: at most one forwarded message, the one it was given, unchanged,
  // to the callback registered last, and only on the approval of its own exchange.
  lemma CallForwardsOnlyItsMessage(g: Gate, call: Call, t: nat)
    requires |g.trace| <= t < |Next(g, call).trace| && Next(g, call).trace[t].Forwarded?
    ensures call.Message? && Approves(call.x) && t == |g.trace| + 1
    ensures Next(g, call).trace[t] == Forwarded(g.gameCallback.value, call.message)
  {
    hide Approves, Request;
  }

  // ---- what each call does, in full ----------------------------------------------------------------

  // A message is let through exactly on the approval of a request that fits, with a
  // callback set and memory at hand.
  lemma ForwardedIff(g: Gate, message: bytes, oom: bool, x: Exchange)
    ensures var more := Next(g, Message(message, oom, x)).trace;
      var request := Request(g.playerId, Hex(Carried(message)));
      && (Forwards(g.trace, more) <==> !oom && |request| < 8192 && Approves(x) && g.gameCallback.Some?)
      && (Forwards(g.trace, more) ==>
            more == g.trace + [Asked(request, true), Forwarded(g.gameCallback.value, message)])
  {
    hide Approves, Request, Carried;
    var request, more := Request(g.playerId, Hex(Carried(message))), Next(g, Message(message, oom, x)).trace;
    if !oom && |request| < 8192 && Approves(x) && g.gameCallback.Some? {
      assert more[|g.trace| + 1].Forwarded?;
    }
  }

  predicate Forwards(trace: seq<Event>, more: seq<Event>)
  {
    exists t :: |trace| <= t < |more| && more[t].Forwarded?
  }

  // hook_callback is handed over exactly on an approved probe with the runtime's function
  // found, now or before; the game's callback is taken in any case.
  lemma RegisteredIff(g: Gate, callback: Option<nat>, x: Exchange, dlsymOk: bool)
    requires |Request(g.playerId, "")| < 8192
    ensures var g' := Next(g, AddNotify(callback, x, dlsymOk)); var probe := Request(g.playerId, "");
      && g'.gameCallback == callback && g'.playerId == g.playerId
      && g'.trace == g.trace + [Probed(probe, Approves(x))] + (if Approves(x) && g'.resolved then [Registered] else [])
      && (g'.resolved <==> g.resolved || (Approves(x) && dlsymOk))
  {
    hide Approves, Request;
  }

  // ---- whose requests they are -----------------------------------------------------------------------

  // Call m set the player id in force when call k begins; its text is what strncpy keeps.
  predicate LastSession(calls: seq<Call>, m: nat, k: nat)
  {
    && m < k <= |calls| && calls[m].BeginSession? && calls[m].user.Some?
    && forall i | m < i < k :: !(calls[i].BeginSession? && calls[i].user.Some?)
  }

  predicate NoSession(calls: seq<Call>, k: nat)
  {
    k <= |calls| && forall i | 0 <= i < k :: !(calls[i].BeginSession? && calls[i].user.Some?)
  }

  // The first 255 characters of the last user id, or "unknown".
  ghost predicate PlayerIs(calls: seq<Call>, k: nat, player: string)
  {
    || (NoSession(calls, k) && player == "unknown")
    || (exists m: nat :: LastSession(calls, m, k)
          && player == if |calls[m].user.value| <= 255 then calls[m].user.value else calls[m].user.value[..255])
  }

  lemma {:induction false} PlayerOfRun(calls: seq<Call>, k: nat)
    requires k <= |calls|
    ensures PlayerIs(calls, k, After(calls[..k]).playerId)
    decreases k
  {
    hide After, Next, PlayerIs;
    if k > 0 {
      NextCall(calls, k - 1);
      PlayerOfRun(calls, k - 1);
      NextPlayer(After(calls[..k - 1]), calls[k - 1]);
      PlayerStays(calls, k, After(calls[..k - 1]).playerId);
    } else {
      PlayerAtStart(calls);
    }
  }

  lemma PlayerAtStart(calls: seq<Call>)
    ensures PlayerIs(calls, 0, After(calls[..0]).playerId)
  {
    assert calls[..0] == [] && NoSession(calls, 0);
  }

  lemma NextPlayer(g: Gate, call: Call)
    ensures Next(g, call).playerId ==
      if call.BeginSession? && call.user.Some? then Truncated(call.user.value) else g.playerId
  {
    hide Approves, Request;
  }

  lemma PlayerStays(calls: seq<Call>, k: nat, player: string)
    requires 0 < k <= |calls| && PlayerIs(calls, k - 1, player)
    ensures var c := calls[k - 1];
      PlayerIs(calls, k, if c.BeginSession? && c.user.Some? then Truncated(c.user.value) else player)
  {
    if calls[k - 1].BeginSession? && calls[k - 1].user.Some? {
      assert LastSession(calls, k - 1, k);
      TruncatedText(calls[k - 1].user.value);
    } else if NoSession(calls, k - 1) && player == "unknown" {
      assert NoSession(calls, k);
    } else {
      var m: nat :| LastSession(calls, m, k - 1)
        && player == if |calls[m].user.value| <= 255 then calls[m].user.value else calls[m].user.value[..255];
      assert LastSession(calls, m, k);
    }
  }

  lemma TruncatedText(user: string)
    ensures Truncated(user) == if |user| <= 255 then user else user[..255]
  {
    if |user| == 255 {
      assert user[..255] == user;
    }
  }

  // Main result on requests, for every run: each one is that of the player of the moment
  // and of its own call's message, a probe's being empty.
  lemma {:induction false} RequestsAreOwn(calls: seq<Call>, t: nat) returns (k: nat, player: string)
    requires t < |After(calls).trace|
    ensures k < |calls| && PlayerIs(calls, k, player)
    ensures After(calls).trace[t].Probed? ==>
      calls[k].AddNotify? && After(calls).trace[t].request == Request(player, "")
    ensures After(calls).trace[t].Asked? ==>
      calls[k].Message? && After(calls).trace[t].request == Request(player, Hex(Carried(calls[k].message)))
  {
    hide Approves, Request, Next, Carried, PlayerIs;
    var last := |calls| - 1;
    var front := calls[..last];
    StepGrows(After(front), calls[last]);
    if t < |After(front).trace| {
      k, player := RequestsAreOwn(front, t);
      PlayerInFront(calls, last, k, player);
    } else {
      k, player := last, After(front).playerId;
      PlayerOfRun(calls, last);
      StepRequests(After(front), calls[last], t);
    }
  }

  lemma PlayerInFront(calls: seq<Call>, n: nat, k: nat, player: string)
    requires k <= n <= |calls| && PlayerIs(calls[..n], k, player)
    ensures PlayerIs(calls, k, player)
  {
    if !(NoSession(calls[..n], k) && player == "unknown") {
      var m: nat :| LastSession(calls[..n], m, k)
        && player == if |calls[..n][m].user.value| <= 255 then calls[..n][m].user.value
                     else calls[..n][m].user.value[..255];
      assert LastSession(calls, m, k);
    } else {
      assert NoSession(calls, k) by {
        assert forall i | 0 <= i < k :: calls[i] == calls[..n][i];
      }
    }
  }

  lemma StepRequests(g: Gate, call: Call, t: nat)
    requires |g.trace| <= t < |Next(g, call).trace|
    ensures var e := Next(g, call).trace[t];
      && (e.Probed? ==> call.AddNotify? && e.request == Request(g.playerId, ""))
      && (e.Asked? ==> call.Message? && e.request == Request(g.playerId, Hex(Carried(call.message))))
  {
    hide Approves, Request, Carried;
  }

  // ---- who receives ------------------------------------------------------------------------------

  // Call m registered the callback that is set when call k begins.
  predicate LastNotify(calls: seq<Call>, m: nat, k: nat)
  {
    m < k <= |calls| && calls[m].AddNotify? && forall i | m < i < k :: !calls[i].AddNotify?
  }

  // The probe that call m sent was approved.
  ghost predicate OwnProbeApproved(calls: seq<Call>, m: nat)
    requires m < |calls|
  {
    var before, after := After(calls[..m]).trace, After(calls[..m + 1]).trace;
    |before| < |after| && after[|before|].Probed? && after[|before|].approved
  }

  lemma NextCall(calls: seq<Call>, k: nat)
    requires k < |calls|
    ensures After(calls[..k + 1]) == Next(After(calls[..k]), calls[k])
  {
    hide Next;
    assert calls[..k + 1][..k] == calls[..k];
  }

  // Player ids stay short, so a probe always fits its buffer.
  lemma {:induction false} ProbeFits(calls: seq<Call>)
    ensures |After(calls).playerId| < PLAYER_ID_SIZE && |Request(After(calls).playerId, "")| < SHIM_BUF_SIZE
  {
    hide Approves;
    if calls != [] {
      ProbeFits(calls[..|calls| - 1]);
    }
  }

  // Exactly the approved exchanges make an approved probe.
  lemma ProbeApprovedIff(calls: seq<Call>, m: nat)
    requires m < |calls| && calls[m].AddNotify?
    ensures OwnProbeApproved(calls, m) <==> Approves(calls[m].x)
  {
    hide Approves, Request;
    NextCall(calls, m);
    ProbeFits(calls[..m]);
  }

  lemma {:induction false} CallbackIsLastNotify(calls: seq<Call>, k: nat) returns (m: nat)
    requires k <= |calls| && After(calls[..k]).gameCallback.Some?
    ensures LastNotify(calls, m, k) && calls[m].callback == After(calls[..k]).gameCallback
    decreases k
  {
    hide Approves, Request;
    if k > 0 {
      NextCall(calls, k - 1);
      if calls[k - 1].AddNotify? {
        m := k - 1;
      } else {
        m := CallbackIsLastNotify(calls, k - 1);
      }
    }
  }

  lemma StepGrows(g: Gate, call: Call)
    ensures g.trace <= Next(g, call).trace
    ensures HasRegistered(Next(g, call).trace) ==>
      HasRegistered(g.trace) || (call.AddNotify? && Approves(call.x))
  {
    hide Approves, Request;
    var more := Next(g, call).trace;
    if HasRegistered(more) && !(call.AddNotify? && Approves(call.x)) {
      var t :| 0 <= t < |more| && more[t] == Registered;
      assert g.trace[t] == Registered;
    }
  }

  // The call that forwarded the message at t.
  lemma {:induction false} ForwardedBy(calls: seq<Call>, t: nat) returns (k: nat)
    requires t < |After(calls).trace| && After(calls).trace[t].Forwarded?
    ensures k < |calls| && calls[k].Message? && After(calls[..k]).gameCallback.Some?
    ensures After(calls).trace[t] == Forwarded(After(calls[..k]).gameCallback.value, calls[k].message)
  {
    hide Next;
    var last := |calls| - 1;
    var front := calls[..last];
    StepGrows(After(front), calls[last]);
    if t < |After(front).trace| {
      k := ForwardedBy(front, t);
      assert front[..k] == calls[..k] && front[k] == calls[k];
    } else {
      k := last;
      CallForwardsOnlyItsMessage(After(front), calls[last], t);
      CallbackSet(After(front), calls[last], t);
    }
  }

  lemma CallbackSet(g: Gate, call: Call, t: nat)
    requires |g.trace| <= t < |Next(g, call).trace| && Next(g, call).trace[t].Forwarded?
    ensures g.gameCallback.Some?
  {
    hide Approves, Request;
  }

  // Main result on receivers, for every run.  A forwarded message goes to the callback of
  // the last registration before its call, and that registration's own probe was approved
  // exactly when its exchange was.
  lemma ReceiverApprovedIff(calls: seq<Call>, t: nat) returns (k: nat, m: nat)
    requires t < |After(calls).trace| && After(calls).trace[t].Forwarded?
    ensures k < |calls| && calls[k].Message? && LastNotify(calls, m, k)
    ensures calls[m].callback.Some?
    ensures After(calls).trace[t] == Forwarded(calls[m].callback.value, calls[k].message)
    ensures OwnProbeApproved(calls, m) <==> Approves(calls[m].x)
  {
    hide After, OwnProbeApproved, Approves;
    k := ForwardedBy(calls, t);
    m := CallbackIsLastNotify(calls, k);
    ProbeApprovedIff(calls, m);
  }

  // No registration after the first one handed to the runtime is refused.
  ghost predicate NoneRefusedLater(calls: seq<Call>)
  {
    forall m | 0 <= m < |calls| && calls[m].AddNotify? && HasRegistered(After(calls[..m]).trace) ::
      Approves(calls[m].x)
  }

  // Then every receiver was approved.
  lemma ReceiversApproved(calls: seq<Call>, t: nat) returns (k: nat, m: nat)
    requires Runnable(calls) && NoneRefusedLater(calls)
    requires t < |After(calls).trace| && After(calls).trace[t].Forwarded?
    ensures k < |calls| && calls[k].Message? && LastNotify(calls, m, k) && calls[m].callback.Some?
    ensures After(calls).trace[t] == Forwarded(calls[m].callback.value, calls[k].message)
    ensures OwnProbeApproved(calls, m)
  {
    hide After, OwnProbeApproved, Approves, HasRegistered;
    k, m := ReceiverApprovedIff(calls, t);
    if !Approves(calls[m].x) {
      RegisteredSince(calls, m + 1, k);
      NextCall(calls, m);
      StepGrows(After(calls[..m]), calls[m]);
    }
  }

  lemma {:induction false} RegisteredSince(calls: seq<Call>, i: nat, k: nat)
    requires i <= k <= |calls| && HasRegistered(After(calls[..k]).trace)
    requires forall j | i <= j < k :: !calls[j].AddNotify?
    ensures HasRegistered(After(calls[..i]).trace)
    decreases k
  {
    hide Next, HasRegistered, Approves;
    if i < k {
      NextCall(calls, k - 1);
      StepGrows(After(calls[..k - 1]), calls[k - 1]);
      RegisteredSince(calls, i, k - 1);
    }
  }

  // Without that it can fail: the global is set before the answer, so a second, rejected
  // registration diverts the messages.
  lemma RejectedCallbackStillReceives(yes: Exchange, message: bytes)
    requires Approves(yes) && |Request("unknown", Hex(Carried(message)))| < SHIM_BUF_SIZE
    ensures var calls :=
        [AddNotify(Some(1), yes, true), AddNotify(Some(2), NoReply, true), Message(message, false, yes)];
      && Runnable(calls)
      && After(calls).trace == [Probed(Request("unknown", ""), true), Registered,
                                Probed(Request("unknown", ""), false),
                                Asked(Request("unknown", Hex(Carried(message))), true), Forwarded(2, message)]
  {
    var c1, c2, c3 := AddNotify(Some(1), yes, true), AddNotify(Some(2), NoReply, true), Message(message, false, yes);
    ShortProbe();
    hide *;
    ThreeCalls(c1, c2, c3);
    RejectedSteps(yes, message, Request("unknown", ""), Request("unknown", Hex(Carried(message))));
    RegisteredAmong(After([c1, c2, c3][..2]).trace, 1);
    OnlyThirdIsMessage([c1, c2, c3]);
  }

  lemma ShortProbe()
    ensures |Request("unknown", "")| < SHIM_BUF_SIZE
  {}

  lemma RejectedSteps(yes: Exchange, message: bytes, probe: string, asked: string)
    requires Approves(yes) && probe == Request("unknown", "") && asked == Request("unknown", Hex(Carried(message)))
    requires |probe| < SHIM_BUF_SIZE && |asked| < SHIM_BUF_SIZE
    ensures var g2 := Next(Next(START, AddNotify(Some(1), yes, true)), AddNotify(Some(2), NoReply, true));
      && g2 == Gate(Some(2), true, "unknown", [Probed(probe, true), Registered, Probed(probe, false)])
      && Next(g2, Message(message, false, yes)).trace
         == [Probed(probe, true), Registered, Probed(probe, false), Asked(asked, true), Forwarded(2, message)]
  {
    assert !Approves(NoReply);
    hide Approves, Request;
  }

  lemma RegisteredAmong(trace: seq<Event>, t: nat)
    requires t < |trace| && trace[t] == Registered
    ensures HasRegistered(trace)
  {}

  lemma ThreeCalls(c1: Call, c2: Call, c3: Call)
    ensures After([c1, c2, c3]) == Next(Next(Next(START, c1), c2), c3)
    ensures After([c1, c2, c3][..2]) == Next(Next(START, c1), c2)
  {
    hide Next;
    assert [c1, c2, c3][..2] == [c1, c2] && [c1, c2][..1] == [c1] && [c1][..0] == [];
    assert After([]) == START;
    assert After([c1]) == Next(START, c1);
    assert After([c1, c2]) == Next(After([c1]), c2);
  }

  lemma OnlyThirdIsMessage(calls: seq<Call>)
    requires |calls| == 3 && !calls[0].Message? && !calls[1].Message? && HasRegistered(After(calls[..2]).trace)
    ensures Runnable(calls)
  {}
}
