// The shim's reply and its two readers: json.dumps in phase3/shim.py, the
// hook's parse_json_bool in phase3/eac_hook.c, and the mock client's substring
// test in phase3/mock_eac_client.c.

module CStrings {
  import opened Wrappers

  // The text before the first NUL of a buffer.
  function NulIndex(buf: seq<char>): (i: nat)
    ensures i <= |buf| && (i < |buf| ==> buf[i] == '\0')
    ensures forall k | 0 <= k < i :: buf[k] != '\0'
  {
    if buf == [] || buf[0] == '\0' then 0 else 1 + NulIndex(buf[1..])
  }

  predicate Terminated(buf: seq<char>) { NulIndex(buf) < |buf| }

  function CString(buf: seq<char>): string { buf[..NulIndex(buf)] }

  predicate OccursAt(s: string, pattern: string, i: nat)
  {
    i + |pattern| <= |s| && s[i..i + |pattern|] == pattern
  }

  predicate FirstAt(s: string, pattern: string, i: nat)
  {
    OccursAt(s, pattern, i) && forall j | 0 <= j < i :: !OccursAt(s, pattern, j)
  }

  ghost predicate Occurs(s: string, pattern: string) { exists i :: OccursAt(s, pattern, i) }

  // strstr(s + from, pattern)
  function StrStr(s: string, pattern: string, from: nat): (r: Option<nat>)
    requires from <= |s|
    ensures r.Some? ==> from <= r.value && OccursAt(s, pattern, r.value)
    ensures forall j | from <= j < (if r.Some? then r.value else |s| + 1) :: !OccursAt(s, pattern, j)
    decreases |s| - from
  {
    if OccursAt(s, pattern, from) then Some(from) else if from == |s| then None else StrStr(s, pattern, from + 1)
  }
}

module JsonReply {
  import opened Wrappers
  import opened Text
  import opened CStrings

  // ---- what the hook's scanner accepts ------------------------------------------------

  predicate Blank(c: char) { c == ' ' || c == '\t' || c == '\r' || c == '\n' }

  predicate Delimiter(c: char) { c == ',' || c == '}' || Blank(c) }

  predicate AllBlank(s: string) { forall i | 0 <= i < |s| :: Blank(s[i]) }

  lemma ScannerCharacters(c: char)
    ensures Blank(c) <==> c in " \t\r\n"
    ensures Delimiter(c) <==> c in ",} \t\r\n"
  {}

  function Quoted(key: string): string { "\"" + key + "\"" }

  const PATTERN_SIZE: nat := 128

  // Blanks, a colon, blanks, the word true, then a delimiter or the end.
  ghost predicate TrueMember(t: string)
  {
    exists a: nat, b: nat :: TrueMemberAt(t, a, b)
  }

  predicate TrueMemberAt(t: string, a: nat, b: nat)
  {
    && a < b <= |t| && AllBlank(t[..a]) && t[a] == ':' && AllBlank(t[a + 1..b])
    && OccursAt(t, "true", b) && (b + 4 < |t| ==> Delimiter(t[b + 4]))
  }

  // The declarative meaning of parse_json_bool(s, key) == 1.
  ghost predicate SaysTrue(s: string, key: string)
  {
    |key| + 2 < PATTERN_SIZE
    && exists p: nat :: FirstAt(s, Quoted(key), p) && TrueMember(s[p + |Quoted(key)|..])
  }

  function SkipBlanks(s: string, i: nat): (j: nat)
    requires i <= |s|
    ensures i <= j <= |s| && AllBlank(s[i..j]) && (j < |s| ==> !Blank(s[j]))
    decreases |s| - i
  {
    if i < |s| && Blank(s[i]) then SkipBlanks(s, i + 1) else i
  }

  lemma {:induction false} SkipBlanksUnique(s: string, i: nat, j: nat)
    requires i <= j < |s| && AllBlank(s[i..j]) && !Blank(s[j])
    ensures SkipBlanks(s, i) == j
    decreases j - i
  {
    if i < j {
      assert s[i] == s[i..j][0];
      assert s[i + 1..j] == s[i..j][1..];
      SkipBlanksUnique(s, i + 1, j);
    }
  }

  // What the scanner computes from the end of the key on.
  predicate ScanMember(t: string)
  {
    var a := SkipBlanks(t, 0);
    a < |t| && t[a] == ':' && var b := SkipBlanks(t, a + 1);
    OccursAt(t, "true", b) && (b + 4 < |t| ==> Delimiter(t[b + 4]))
  }

  lemma ScanIsGrammar(t: string)
    ensures ScanMember(t) <==> TrueMember(t)
  {
    if ScanMember(t) {
      var a := SkipBlanks(t, 0);
      assert t[..a] == t[0..a];
      assert TrueMemberAt(t, a, SkipBlanks(t, a + 1));
    }
    if TrueMember(t) {
      var a: nat, b: nat :| TrueMemberAt(t, a, b);
      assert t[0..a] == t[..a];
      SkipBlanksUnique(t, 0, a);
      assert t[b] == t[b..b + 4][0] == 't';
      SkipBlanksUnique(t, a + 1, b);
    }
  }

  // The same from position i of a longer text.
  predicate ScanFrom(s: string, i: nat)
    requires i <= |s|
  {
    var a := SkipBlanks(s, i);
    a < |s| && s[a] == ':' && TrueAfter(s, a + 1)
  }

  predicate TrueAfter(s: string, i: nat)
    requires i <= |s|
  {
    var b := SkipBlanks(s, i);
    OccursAt(s, "true", b) && (b + 4 < |s| ==> Delimiter(s[b + 4]))
  }

  lemma ScanShift(s: string, i: nat)
    requires i <= |s|
    ensures ScanFrom(s, i) <==> ScanMember(s[i..])
  {
    hide SkipBlanks, OccursAt, Delimiter;
    SkipShift(s, i, i);
    var a := SkipBlanks(s, i);
    if a < |s| {
      SkipShift(s, i, a + 1);
      OccursShift(s, i, "true", SkipBlanks(s, a + 1));
    }
  }

  // The whole scan, as a function.
  predicate Scan(s: string, key: string)
  {
    |key| + 2 < PATTERN_SIZE && var p := StrStr(s, Quoted(key), 0);
    p.Some? && ScanFrom(s, p.value + |Quoted(key)|)
  }

  lemma ScanIsSaysTrue(s: string, key: string)
    ensures Scan(s, key) <==> SaysTrue(s, key)
  {
    hide ScanFrom, ScanMember, StrStr, TrueMember, OccursAt, Quoted, FirstAt;
    var pattern := Quoted(key);
    var p := StrStr(s, pattern, 0);
    StrStrIsFirst(s, pattern);
    if p.Some? {
      ScanShift(s, p.value + |pattern|);
      ScanIsGrammar(s[p.value + |pattern|..]);
    }
    forall q: nat | FirstAt(s, pattern, q) ensures p == Some(q) {
      FirstUnique(s, pattern, q);
    }
  }

  lemma StrStrIsFirst(s: string, pattern: string)
    ensures var p := StrStr(s, pattern, 0); p.Some? ==> FirstAt(s, pattern, p.value) && p.value + |pattern| <= |s|
  {}

  lemma FirstUnique(s: string, pattern: string, q: nat)
    requires FirstAt(s, pattern, q)
    ensures StrStr(s, pattern, 0) == Some(q) && q + |pattern| <= |s|
  {
    hide StrStr;
  }

  // parse_json_bool, walking a NUL-terminated buffer.  Every character it looks at
  // lies at or before the terminator.
  method ReadAt(buf: array<char>, ghost nul: nat, pos: nat) returns (c: char)
    requires pos <= nul < buf.Length
    ensures c == buf[pos]
  {
    c := buf[pos];
  }

  method SkipWhitespace(json: array<char>, ghost nul: nat, start: nat) returns (pos: nat)
    requires start <= nul < json.Length && nul == NulIndex(json[..])
    ensures pos == SkipBlanks(json[..nul], start) && pos <= nul
  {
    hide NulIndex;
    pos := start;
    var c := ReadAt(json, nul, pos);
    while Blank(c)
      invariant start <= pos <= nul && c == json[pos]
      invariant SkipBlanks(json[..nul], pos) == SkipBlanks(json[..nul], start)
      decreases nul - pos
    {
      pos := pos + 1;
      c := ReadAt(json, nul, pos);
    }
  }

  method ScanTail(json: array<char>, ghost nul: nat, start: nat) returns (valid: bool)
    requires start <= nul < json.Length && nul == NulIndex(json[..])
    ensures valid <==> ScanFrom(json[..nul], start)
  {
    hide NulIndex, SkipBlanks, TrueAfter;
    var pos := SkipWhitespace(json, nul, start);
    var c := ReadAt(json, nul, pos);
    if c != ':' {
      return false;
    }
    ColonInside(json, pos, nul);
    valid := ScanTrue(json, nul, pos + 1);
  }

  method ScanTrue(json: array<char>, ghost nul: nat, start: nat) returns (valid: bool)
    requires start <= nul < json.Length && nul == NulIndex(json[..])
    ensures valid <==> TrueAfter(json[..nul], start)
  {
    hide NulIndex, SkipBlanks, OccursAt, Delimiter;
    var pos := SkipWhitespace(json, nul, start);
    valid := MatchTrue(json, nul, pos);
    if valid {
      FoundInside(json[..nul], "true", pos);
      var after := ReadAt(json, nul, pos + 4);
      NulIsNoDelimiter(json, nul, pos + 4);
      valid := Delimiter(after) || after == '\0';
    }
  }

  lemma NulIsNoDelimiter(json: array<char>, nul: nat, pos: nat)
    requires pos <= nul < json.Length && nul == NulIndex(json[..])
    ensures json[pos] == '\0' <==> pos == nul
  {
    assert pos < nul ==> json[..][pos] != '\0';
  }

  // strncmp(pos, "true", 4) == 0, which stops at the first difference.
  method MatchTrue(json: array<char>, ghost nul: nat, pos: nat) returns (equal: bool)
    requires pos <= nul < json.Length && nul == NulIndex(json[..])
    ensures equal <==> OccursAt(json[..nul], "true", pos)
  {
    var word := "true";
    var i := 0;
    while i < 4
      invariant 0 <= i <= 4 && pos + i <= nul
      invariant forall k | 0 <= k < i :: json[pos + k] == word[k]
    {
      var c := ReadAt(json, nul, pos + i);
      if c != word[i] {
        return false;
      }
      i := i + 1;
    }
    assert json[..nul][pos..pos + 4] == word;
    return true;
  }

  method ParseJsonBool(json: array<char>, key: string) returns (valid: bool)
    requires Terminated(json[..])
    ensures valid <==> SaysTrue(CString(json[..]), key)
  {
    ghost var nul := NulIndex(json[..]);
    assert json[..nul] == CString(json[..]);
    ScanIsSaysTrue(CString(json[..]), key);
    assert |Quoted(key)| == |key| + 2;
    hide SaysTrue, NulIndex, StrStr, OccursAt, ScanFrom, Quoted;
    if |key| + 2 >= PATTERN_SIZE {
      return false;
    }
    var found := StrStr(CString(json[..]), Quoted(key), 0);
    if found.None? {
      return false;
    }
    FoundInside(CString(json[..]), Quoted(key), found.value);
    valid := ScanTail(json, nul, found.value + |key| + 2);
  }

  lemma FoundInside(s: string, pattern: string, p: nat)
    requires OccursAt(s, pattern, p)
    ensures p + |pattern| <= |s|
  {}

  lemma ColonInside(json: array<char>, pos: nat, nul: nat)
    requires nul < json.Length && pos <= nul && json[nul] == '\0' && json[pos] == ':'
    ensures pos < nul
  {}

  lemma {:induction false} SkipShift(s: string, start: nat, from: nat)
    requires start <= from <= |s|
    ensures SkipBlanks(s[start..], from - start) == SkipBlanks(s, from) - start
    decreases |s| - from
  {
    if from < |s| && Blank(s[from]) {
      SkipShift(s, start, from + 1);
    }
  }

  lemma OccursShift(s: string, start: nat, pattern: string, p: nat)
    requires start <= p <= |s|
    ensures OccursAt(s[start..], pattern, p - start) <==> OccursAt(s, pattern, p)
  {
    if p + |pattern| <= |s| {
      assert s[start..][p - start..p - start + |pattern|] == s[p..p + |pattern|];
    }
  }

  // ---- json.dumps -----------------------------------------------------------------------

  function Unit(n: nat): string
    requires n < 0x10000
  {
    ['\\', 'u', HexDigit(n / 0x1000), HexDigit(n / 0x100 % 16), HexDigit(n / 16 % 16), HexDigit(n % 16)]
  }

  // One character inside a JSON string, ASCII only (section 7 of RFC 8259).
  function EscapeChar(c: char): string
  {
    var n := c as int;
    if c == '"' then ['\\', '"']
    else if c == '\\' then ['\\', '\\']
    else if c == '\n' then ['\\', 'n']
    else if c == '\r' then ['\\', 'r']
    else if c == '\t' then ['\\', 't']
    else if n == 8 then ['\\', 'b']
    else if n == 12 then ['\\', 'f']
    else if ' ' <= c <= '~' then [c]
    else if n < 0x10000 then Unit(n)
    else Unit(0xD800 + (n - 0x10000) / 0x400) + Unit(0xDC00 + (n - 0x10000) % 0x400)
  }

  function Escape(s: string): string
  {
    if s == "" then "" else EscapeChar(s[0]) + Escape(s[1..])
  }

  // Reading one escaped character back: its code point, and how much text it took.
  function HexRead(c: char): nat { if IsLowerHex(c) then HexValue(c) else 0 }

  function UnitValue(s: string): nat
    requires |s| >= 6
  {
    0x1000 * HexRead(s[2]) + 0x100 * HexRead(s[3]) + 16 * HexRead(s[4]) + HexRead(s[5])
  }

  function LetterValue(c: char): int
  {
    if c == 'n' then 10 else if c == 'r' then 13 else if c == 't' then 9
    else if c == 'b' then 8 else if c == 'f' then 12 else c as int
  }

  function Unescape(s: string): (int, nat)
    requires s != ""
  {
    if s[0] != '\\' || |s| < 2 then (s[0] as int, 1)
    else if s[1] != 'u' || |s| < 6 then (LetterValue(s[1]), 2)
    else
      var n := UnitValue(s);
      if 0xD800 <= n < 0xDC00 && |s| >= 12
      then (0x10000 + (n - 0xD800) * 0x400 + (UnitValue(s[6..]) - 0xDC00), 12)
      else (n, 6)
  }

  lemma HexReadBack(d: nat)
    requires d < 16
    ensures HexRead(HexDigit(d)) == d
  {}

  lemma Nibbles(n: nat)
    requires n < 0x10000
    ensures n == 0x1000 * (n / 0x1000) + 0x100 * (n / 0x100 % 16) + 16 * (n / 16 % 16) + n % 16
    ensures n / 0x1000 < 16
  {
    assert n / 16 == n / 0x100 * 16 + n / 16 % 16;
    assert n / 0x100 == n / 0x1000 * 16 + n / 0x100 % 16;
  }

  lemma UnitReadBack(n: nat, x: string)
    requires n < 0x10000
    ensures UnitValue(Unit(n) + x) == n
  {
    Nibbles(n);
    HexReadBack(n / 0x1000);
    HexReadBack(n / 0x100 % 16);
    HexReadBack(n / 16 % 16);
    HexReadBack(n % 16);
    var s, u := Unit(n) + x, Unit(n);
    assert s[2] == u[2] && s[3] == u[3] && s[4] == u[4] && s[5] == u[5];
  }

  lemma WideReadBack(c: char, x: string)
    requires c as int >= 0x10000
    ensures Unescape(EscapeChar(c) + x) == (c as int, |EscapeChar(c)|)
  {
    var m := c as int - 0x10000;
    var high, low := 0xD800 + m / 0x400, 0xDC00 + m % 0x400;
    assert m / 0x400 < 0x400;
    var s := EscapeChar(c) + x;
    assert s == Unit(high) + (Unit(low) + x);
    assert s[6..] == Unit(low) + x;
    UnitReadBack(high, Unit(low) + x);
    UnitReadBack(low, x);
  }

  lemma ReadBack(c: char, x: string)
    ensures Unescape(EscapeChar(c) + x) == (c as int, |EscapeChar(c)|)
  {
    var n := c as int;
    if n >= 0x10000 {
      WideReadBack(c, x);
    } else if |EscapeChar(c)| == 6 {
      UnitReadBack(n, x);
      hide Unit, UnitValue;
      assert EscapeChar(c) == Unit(n);
      UnitStart(n, x);
    }
  }

  lemma UnitStart(n: nat, x: string)
    requires n < 0x10000
    ensures |Unit(n)| == 6 && (Unit(n) + x)[0] == '\\' && (Unit(n) + x)[1] == 'u'
  {}

  // The printer loses nothing: different strings are escaped differently.
  lemma {:induction false} EscapeInjective(a: string, b: string)
    requires Escape(a) == Escape(b)
    ensures a == b
  {
    if a != "" && b != "" {
      hide EscapeChar, Unescape;
      ReadBack(a[0], Escape(a[1..]));
      ReadBack(b[0], Escape(b[1..]));
      var n := |EscapeChar(a[0])|;
      assert Escape(a)[n..] == Escape(a[1..]) && Escape(b)[n..] == Escape(b[1..]);
      EscapeInjective(a[1..], b[1..]);
      assert a == [a[0]] + a[1..] && b == [b[0]] + b[1..];
    } else {
      NonEmptyEscape(a);
      NonEmptyEscape(b);
    }
  }

  lemma NonEmptyEscape(s: string)
    ensures Escape(s) == "" ==> s == ""
  {}

  // \u and four hexadecimal digits.
  predicate UnitText(s: string, n: nat)
    requires n < 0x10000
  {
    && |s| == 6 && s[0] == '\\' && s[1] == 'u' && s[2] == HEX_DIGITS[n / 0x1000] && s[3] == HEX_DIGITS[n / 0x100 % 16]
    && s[4] == HEX_DIGITS[n / 16 % 16] && s[5] == HEX_DIGITS[n % 16]
  }

  lemma UnitIs(n: nat)
    requires n < 0x10000
    ensures UnitText(Unit(n), n)
  {
    Nibbles(n);
    HexDigitText(n / 0x1000);
    HexDigitText(n / 0x100 % 16);
    HexDigitText(n / 16 % 16);
    HexDigitText(n % 16);
  }

  // What json.dumps prints for each character: itself if it is printable ASCII other than
  // quote and backslash, a two-character escape for seven, and \u for the rest, twice for
  // those past U+FFFF.
  lemma EscapeCharIs(c: char)
    ensures var n, s := c as int, Escape([c]);
      && (c == '"' ==> s == "\\\"") && (c == '\\' ==> s == "\\\\")
      && (c == '\n' ==> s == "\\n") && (c == '\r' ==> s == "\\r") && (c == '\t' ==> s == "\\t")
      && (n == 8 ==> s == "\\b") && (n == 12 ==> s == "\\f")
      && (' ' <= c <= '~' && c != '"' && c != '\\' ==> s == [c])
      && ((n < 32 && n !in {8, 9, 10, 12, 13}) || 126 < n < 0x10000 ==> UnitText(s, n))
      && (n >= 0x10000 ==>
            |s| == 12 && n == 0x10000 + (UnitValue(s[..6]) - 0xD800) * 0x400 + (UnitValue(s[6..]) - 0xDC00)
            && 0xD800 <= UnitValue(s[..6]) < 0xDC00 <= UnitValue(s[6..]) < 0xE000)
  {
    assert [c][1..] == "" && Escape([c]) == EscapeChar(c);
    var n := c as int;
    if n >= 0x10000 {
      WideUnits(c);
    } else {
      UnitIs(n);
    }
  }

  lemma WideUnits(c: char)
    requires c as int >= 0x10000
    ensures var n, s := c as int, EscapeChar(c);
      && |s| == 12 && n == 0x10000 + (UnitValue(s[..6]) - 0xD800) * 0x400 + (UnitValue(s[6..]) - 0xDC00)
      && 0xD800 <= UnitValue(s[..6]) < 0xDC00 <= UnitValue(s[6..]) < 0xE000
  {
    var m := c as int - 0x10000;
    var high, low := 0xD800 + m / 0x400, 0xDC00 + m % 0x400;
    assert m / 0x400 < 0x400;
    var s := EscapeChar(c);
    UnitReadBack(high, "");
    UnitReadBack(low, "");
    assert s == Unit(high) + Unit(low);
    hide Unit, UnitValue;
    assert |Unit(high)| == 6 by { UnitStart(high, ""); }
    assert s[..6] == Unit(high) + "" && s[6..] == Unit(low) + "";
  }

  lemma {:induction false} EscapeAppend(a: string, b: string)
    ensures Escape(a + b) == Escape(a) + Escape(b)
  {
    hide Escape, EscapeChar;
    if a == "" {
      assert a + b == b;
      EscapeNothing();
    } else {
      EscapeFirst(a);
      EscapeFirst(a + b);
      EscapeAppend(a[1..], b);
      assert (a + b)[1..] == a[1..] + b;
    }
  }

  lemma EscapeNothing()
    ensures Escape("") == ""
  {}

  lemma EscapeFirst(s: string)
    requires s != ""
    ensures Escape(s) == EscapeChar(s[0]) + Escape(s[1..])
  {}

  predicate PlainAscii(s: string) { forall i | 0 <= i < |s| :: ' ' <= s[i] <= '~' && s[i] != '"' && s[i] != '\\' }

  lemma {:induction false} EscapePlain(s: string)
    requires PlainAscii(s)
    ensures Escape(s) == s
  {
    if s != "" {
      EscapePlain(s[1..]);
      assert EscapeChar(s[0]) == [s[0]] && s == [s[0]] + s[1..];
    }
  }

  // What _handle_client sends back.
  datatype Reply = Approve(token: string) | Refuse(reason: string)

  const KEY: string := "\"valid\""
  const APPROVE_HEAD: string := "{" + KEY + ": " + "true" + ", \"token\": \""
  const REFUSE_HEAD: string := "{" + KEY + ": " + "false" + ", \"reason\": \""

  // The same up to the value.
  const APPROVE_FRONT: string := "{" + KEY + ": " + "true" + ", \"token\": "
  const REFUSE_FRONT: string := "{" + KEY + ": " + "false" + ", \"reason\": "

  function Print(r: Reply): string
  {
    match r
    case Approve(token) => APPROVE_HEAD + Escape(token) + "\"}"
    case Refuse(reason) => REFUSE_HEAD + Escape(reason) + "\"}"
  }

  // The whole reply, for a text that needs no escapes.
  lemma PrintedReply(text: string)
    requires PlainAscii(text)
    ensures Print(Approve(text)) == "{\"valid\": true, \"token\": \"" + text + "\"}"
    ensures Print(Refuse(text)) == "{\"valid\": false, \"reason\": \"" + text + "\"}"
  {
    EscapePlain(text);
    Headings();
  }

  lemma Headings()
    ensures APPROVE_HEAD == "{\"valid\": true, \"token\": \"" && REFUSE_HEAD == "{\"valid\": false, \"reason\": \""
  {}

  // Printable ASCII in which every quote follows a backslash.
  predicate Guarded(s: string)
  {
    forall q | 0 <= q < |s| :: GuardedAt(s, q)
  }

  predicate GuardedAt(s: string, q: nat)
    requires q < |s|
  {
    ' ' <= s[q] <= '~' && (s[q] == '"' ==> q > 0 && s[q - 1] == '\\')
  }

  lemma GuardedChar(c: char)
    ensures Guarded(EscapeChar(c))
  {}

  lemma GuardedAppend(a: string, b: string)
    requires Guarded(a) && Guarded(b)
    ensures Guarded(a + b)
  {
    forall q | 0 <= q < |a + b| ensures GuardedAt(a + b, q) {
      assert if q < |a| then GuardedAt(a, q) else GuardedAt(b, q - |a|);
    }
  }

  lemma {:induction false} EscapeGuards(s: string)
    ensures Guarded(Escape(s))
  {
    if s != "" {
      GuardedChar(s[0]);
      EscapeGuards(s[1..]);
      hide EscapeChar, Guarded;
      GuardedAppend(EscapeChar(s[0]), Escape(s[1..]));
    }
  }

  // The mock client's test.
  ghost predicate ResponseIsValid(s: string)
  {
    Occurs(s, "\"valid\":true") || Occurs(s, "\"valid\": true")
  }

  // ---- prefixes of a reply ------------------------------------------------------------------

  // All a prefix of either kind of reply shows before the string inside it.
  predicate StartsLike(s: string, head: string)
  {
    forall i | 0 <= i < |s| && i < |head| :: s[i] == head[i]
  }

  lemma PrefixStartsLike(text: string, head: string, rest: string, k: nat)
    requires text == head + rest && k <= |text|
    ensures StartsLike(text[..k], head)
  {}

  lemma HeadSlice(s: string, head: string, i: nat, j: nat)
    requires StartsLike(s, head) && i <= j <= |s| && j <= |head|
    ensures s[i..j] == head[i..j]
  {}

  lemma Heads(head: string)
    requires head == APPROVE_FRONT || head == REFUSE_FRONT
    ensures |head| > 14 && head[0] == '{' && head[1..8] == KEY && head[8] == ':' && head[9] == ' '
    ensures head[10] == if head == APPROVE_FRONT then 't' else 'f'
  {
    var approve, refuse := ": " + "true" + ", \"token\": ", ": " + "false" + ", \"reason\": ";
    AfterKey(approve);
    AfterKey(refuse);
    assert APPROVE_FRONT == "{" + KEY + approve && REFUSE_FRONT == "{" + KEY + refuse;
    assert approve[0] == ':' && approve[1] == ' ' && approve[2] == 't';
    assert refuse[0] == ':' && refuse[1] == ' ' && refuse[2] == 'f';
  }

  lemma AfterKey(tail: string)
    requires |tail| > 6
    ensures var head := "{" + KEY + tail;
      |head| > 14 && head[0] == '{' && head[1..8] == KEY
      && head[8] == tail[0] && head[9] == tail[1] && head[10] == tail[2]
  {
    assert |KEY| == 7;
  }

  lemma ApproveWord()
    ensures APPROVE_FRONT[1..14] == KEY + ": true" && APPROVE_FRONT[10..14] == "true" && APPROVE_FRONT[14] == ','
  {
    var front, tail := "{" + KEY + ": " + "true", ", \"token\": ";
    assert |KEY| == 7 && |front| == 14;
    assert APPROVE_FRONT == front + tail;
    assert APPROVE_FRONT[..14] == front && APPROVE_FRONT[14] == tail[0];
    assert APPROVE_FRONT[1..14] == front[1..] == KEY + ": " + "true";
    assert APPROVE_FRONT[10..14] == front[10..] == "true";
    assert ": " + "true" == ": true";
    assert KEY + ": " + "true" == KEY + (": " + "true");
  }

  lemma NoKeyInShortPrefix(s: string, head: string)
    requires head == APPROVE_FRONT || head == REFUSE_FRONT
    requires StartsLike(s, head) && |s| < 8
    ensures StrStr(s, KEY, 0).None?
  {
    Heads(head);
    assert |KEY| == 7 && KEY[0] == '"';
    var p := StrStr(s, KEY, 0);
    hide StrStr, OccursAt;
    if p.Some? {
      FirstCharacter(s, KEY, p.value);
    }
  }

  lemma FirstCharacter(s: string, pattern: string, p: nat)
    requires OccursAt(s, pattern, p) && pattern != ""
    ensures p + |pattern| <= |s| && s[p] == pattern[0]
  {
    assert s[p] == s[p..p + |pattern|][0];
  }

  lemma KeyAtOne(s: string, head: string)
    requires head == APPROVE_FRONT || head == REFUSE_FRONT
    requires StartsLike(s, head) && |s| >= 8
    ensures StrStr(s, KEY, 0) == Some(1)
  {
    var key := KEY;
    Heads(head);
    HeadSlice(s, head, 1, 8);
    assert !OccursAt(s, key, 0) by {
      assert s[0] == head[0] && (|s| >= 7 ==> s[0..7][0] == s[0]);
    }
    hide StrStr;
    assert OccursAt(s, key, 1);
    FirstUnique(s, key, 1);
  }

  lemma ScanApprove(s: string)
    requires StartsLike(s, APPROVE_FRONT)
    ensures SaysTrue(s, "valid") <==> |s| >= 14
  {
    ScanIsSaysTrue(s, "valid");
    assert Quoted("valid") == KEY;
    if |s| < 8 {
      NoKeyInShortPrefix(s, APPROVE_FRONT);
    } else {
      KeyAtOne(s, APPROVE_FRONT);
      hide SaysTrue, StrStr;
      ApproveTail(s);
    }
  }

  lemma ApproveTail(s: string)
    requires StartsLike(s, APPROVE_FRONT) && |s| >= 8
    ensures ScanFrom(s, 8) <==> |s| >= 14
  {
    if |s| > 9 {
      assert s[8] == ':' && s[9] == ' ';
      assert SkipBlanks(s, 8) == 8;
      assert |s| > 10 ==> s[10] == 't';
      assert SkipBlanks(s, 9) == 10;
      if |s| >= 14 {
        assert s[10..14] == "true";
      }
    } else {
      assert s[8..] == ":" || s[8..] == "";
    }
  }

  lemma ScanRefuse(s: string)
    requires StartsLike(s, REFUSE_FRONT)
    ensures !SaysTrue(s, "valid")
  {
    ScanIsSaysTrue(s, "valid");
    assert Quoted("valid") == KEY;
    if |s| < 8 {
      NoKeyInShortPrefix(s, REFUSE_FRONT);
    } else {
      KeyAtOne(s, REFUSE_FRONT);
      hide SaysTrue, StrStr;
      RefuseTail(s);
    }
  }

  lemma RefuseTail(s: string)
    requires StartsLike(s, REFUSE_FRONT) && |s| >= 8
    ensures !ScanFrom(s, 8)
  {
    if |s| > 9 {
      assert s[8] == ':' && s[9] == ' ';
      assert SkipBlanks(s, 8) == 8;
      assert |s| > 10 ==> s[10] == 'f';
      assert SkipBlanks(s, 9) == 10;
    } else {
      assert s[8..] == ":" || s[8..] == "";
    }
  }

  // Where `"valid":` can stand in a printed reply: only at the front.
  lemma KeyOnlyAtFront(head: string, body: string, i: nat)
    requires head == APPROVE_HEAD || head == REFUSE_HEAD
    requires Guarded(body)
    requires i + 8 <= |head + body + "\"}"|
    requires (head + body + "\"}")[i] == '"' && (head + body + "\"}")[i + 5] == 'd'
    requires (head + body + "\"}")[i + 6] == '"' && (head + body + "\"}")[i + 7] == ':'
    ensures i == 1
  {
    var text := head + body + "\"}";
    var q := i + 6;
    QuoteContext(head, body, q);
    assert text[q] == head[q] && text[q - 1] == head[q - 1];
  }

  lemma QuoteContext(head: string, body: string, q: nat)
    requires Guarded(body) && head != "" && 1 <= q < |head + body + "\"}"| - 1
    requires (head + body + "\"}")[q] == '"'
    ensures q < |head| || (head + body + "\"}")[q - 1] == '\\' || (head + body + "\"}")[q + 1] == '}'
  {
    var text := head + body + "\"}";
    if |head| <= q < |head| + |body| {
      assert GuardedAt(body, q - |head|);
    }
  }

  lemma NeedleIsKey(s: string, needle: string, i: nat)
    requires needle == "\"valid\":true" || needle == "\"valid\": true"
    requires OccursAt(s, needle, i)
    ensures i + 8 <= |s| && s[i] == '"' && s[i + 5] == 'd' && s[i + 6] == '"' && s[i + 7] == ':'
    ensures i + |needle| <= |s| && forall j | 0 <= j < |needle| :: s[i + j] == needle[j]
  {
    forall j | 0 <= j < |needle| ensures s[i + j] == needle[j] {
      assert s[i..i + |needle|][j] == s[i + j];
    }
    assert s[i + 0] == needle[0] && s[i + 5] == needle[5] && s[i + 6] == needle[6] && s[i + 7] == needle[7];
  }

  lemma NeedleAtOne(head: string, body: string, k: nat, needle: string, i: nat)
    requires head == APPROVE_HEAD || head == REFUSE_HEAD
    requires Guarded(body) && k <= |head + body + "\"}"|
    requires needle == "\"valid\":true" || needle == "\"valid\": true"
    requires OccursAt((head + body + "\"}")[..k], needle, i)
    ensures head == APPROVE_HEAD && k >= 14
  {
    var text := head + body + "\"}";
    var s := text[..k];
    NeedleIsKey(s, needle, i);
    hide Guarded, OccursAt;
    KeyOnlyAtFront(head, body, i);
    PrefixStartsLike(text, head, body + "\"}", k);
    assert s[9] == head[9] == ' ' && needle[8] == s[9];
    assert s[10] == head[10] && needle[9] == s[10];
  }

  lemma MockApprove(body: string, k: nat)
    requires Guarded(body) && k <= |APPROVE_HEAD + body + "\"}"|
    ensures ResponseIsValid((APPROVE_HEAD + body + "\"}")[..k]) <==> k >= 14
  {
    var s := (APPROVE_HEAD + body + "\"}")[..k];
    if k >= 14 {
      Fronts();
      var rest := "\"" + body + "\"}";
      assert APPROVE_HEAD + body + "\"}" == APPROVE_FRONT + rest;
      MockOnApproval(rest, k);
    }
    forall i: nat, needle | (needle == "\"valid\":true" || needle == "\"valid\": true") && OccursAt(s, needle, i)
      ensures k >= 14
    {
      NeedleAtOne(APPROVE_HEAD, body, k, needle, i);
    }
  }

  lemma MockRefuse(body: string, k: nat)
    requires Guarded(body) && k <= |REFUSE_HEAD + body + "\"}"|
    ensures !ResponseIsValid((REFUSE_HEAD + body + "\"}")[..k])
  {
    var s := (REFUSE_HEAD + body + "\"}")[..k];
    forall i: nat, needle | (needle == "\"valid\":true" || needle == "\"valid\": true") && OccursAt(s, needle, i)
      ensures false
    {
      NeedleAtOne(REFUSE_HEAD, body, k, needle, i);
    }
  }

  // Main result.  Both readers invert the printer, on every prefix of every reply:
  // neither takes any part of a refusal for an approval, whatever the reason holds, and
  // both see an approval as soon as its first 14 characters have arrived.
  lemma DecodersAgree(r: Reply, k: nat)
    requires k <= |Print(r)|
    ensures SaysTrue(Print(r)[..k], "valid") <==> r.Approve? && k >= 14
    ensures ResponseIsValid(Print(r)[..k]) <==> r.Approve? && k >= 14
  {
    hide SaysTrue, ResponseIsValid, Print;
    HookOnReply(r, k);
    MockOnReply(r, k);
  }

  lemma HookOnReply(r: Reply, k: nat)
    requires k <= |Print(r)|
    ensures SaysTrue(Print(r)[..k], "valid") <==> r.Approve? && k >= 14
  {
    hide SaysTrue, ResponseIsValid, PrintValue, Print;
    StringsAreValues(r);
    match r
    case Approve(token) => ReadersOnAnyValue(true, "\"" + Escape(token) + "\"", k);
    case Refuse(reason) => ReadersOnAnyValue(false, "\"" + Escape(reason) + "\"", k);
  }

  lemma MockOnReply(r: Reply, k: nat)
    requires k <= |Print(r)|
    ensures ResponseIsValid(Print(r)[..k]) <==> r.Approve? && k >= 14
  {
    hide ResponseIsValid;
    match r
    case Approve(token) =>
      EscapeGuards(token);
      MockApprove(Escape(token), k);
    case Refuse(reason) =>
      EscapeGuards(reason);
      MockRefuse(Escape(reason), k);
  }

  lemma Fronts()
    ensures APPROVE_HEAD == APPROVE_FRONT + "\"" && REFUSE_HEAD == REFUSE_FRONT + "\""
  {}

  // ---- a value of any type ----------------------------------------------------------------------

  // The shim passes on whatever stands under "token" or "reason"; `value` is that value
  // as json.dumps prints it.
  function PrintValue(approve: bool, value: string): string
  {
    (if approve then APPROVE_FRONT else REFUSE_FRONT) + value + "}"
  }

  lemma StringsAreValues(r: Reply)
    ensures match r
            case Approve(token) => Print(r) == PrintValue(true, "\"" + Escape(token) + "\"")
            case Refuse(reason) => Print(r) == PrintValue(false, "\"" + Escape(reason) + "\"")
  {
    Fronts();
    match r
    case Approve(token) => QuotedValue(APPROVE_HEAD, APPROVE_FRONT, Escape(token));
    case Refuse(reason) => QuotedValue(REFUSE_HEAD, REFUSE_FRONT, Escape(reason));
  }

  lemma QuotedValue(head: string, front: string, body: string)
    requires head == front + "\""
    ensures head + body + "\"}" == front + ("\"" + body + "\"") + "}"
  {
    assert "\"}" == "\"" + "}";
  }

  // A quote of the front starts the key, or is not followed by a v.
  lemma FrontQuotes(front: string, i: nat)
    requires front == APPROVE_FRONT || front == REFUSE_FRONT
    requires i < |front| && front[i] == '"' && i != 1
    ensures i + 1 < |front| && front[i + 1] != 'v'
  {}

  // A needle lies at the key of an approval or inside the value.
  lemma NeedleInValue(front: string, rest: string, k: nat, needle: string, i: nat)
    requires front == APPROVE_FRONT || front == REFUSE_FRONT
    requires needle == "\"valid\":true" || needle == "\"valid\": true"
    requires k <= |front + rest| && OccursAt((front + rest)[..k], needle, i)
    ensures i >= |front| || (front == APPROVE_FRONT && k >= 14)
  {
    var s := (front + rest)[..k];
    NeedleIsKey(s, needle, i);
    if i < |front| {
      assert s[i] == front[i] && s[i + 1] == needle[1] == 'v';
      if i != 1 {
        FrontQuotes(front, i);
      }
      PrefixStartsLike(front + rest, front, rest, k);
      Heads(front);
      assert s[9] == front[9] == ' ' && needle[8] == s[9];
      assert s[10] == front[10] && needle[9] == s[10];
    }
  }

  lemma {:induction false} OccursInside(front: string, rest: string, k: nat, needle: string, i: nat)
    requires |front| <= k <= |front + rest|
    ensures OccursAt(rest[..k - |front|], needle, i) <==> OccursAt((front + rest)[..k], needle, i + |front|)
  {
    var s, t := (front + rest)[..k], rest[..k - |front|];
    assert s == front + t;
    if i + |needle| <= |t| {
      assert t[i..i + |needle|] == s[i + |front|..i + |front| + |needle|];
    }
  }

  lemma MockOnValue(front: string, rest: string, k: nat)
    requires (front == APPROVE_FRONT || front == REFUSE_FRONT) && k <= |front + rest|
    ensures ResponseIsValid((front + rest)[..k]) ==>
      (front == APPROVE_FRONT && k >= 14) || (k > |front| && ResponseIsValid(rest[..k - |front|]))
    ensures k > |front| && ResponseIsValid(rest[..k - |front|]) ==> ResponseIsValid((front + rest)[..k])
  {
    hide OccursAt;
    forall i: nat, needle | (needle == "\"valid\":true" || needle == "\"valid\": true")
                            && OccursAt((front + rest)[..k], needle, i)
      ensures (front == APPROVE_FRONT && k >= 14) || (k > |front| && Occurs(rest[..k - |front|], needle))
    {
      NeedleInValue(front, rest, k, needle, i);
      NeedleIsKey((front + rest)[..k], needle, i);
      if i >= |front| {
        OccursInside(front, rest, k, needle, i - |front|);
      }
    }
    if k > |front| {
      OccursBehind(front, rest, k, "\"valid\":true");
      OccursBehind(front, rest, k, "\"valid\": true");
    }
  }

  lemma OccursBehind(front: string, rest: string, k: nat, needle: string)
    requires |front| <= k <= |front + rest|
    ensures Occurs(rest[..k - |front|], needle) ==> Occurs((front + rest)[..k], needle)
  {
    hide OccursAt;
    if Occurs(rest[..k - |front|], needle) {
      var i :| OccursAt(rest[..k - |front|], needle, i);
      OccursInside(front, rest, k, needle, i);
    }
  }

  lemma MockOnApproval(rest: string, k: nat)
    requires 14 <= k <= |APPROVE_FRONT + rest|
    ensures ResponseIsValid((APPROVE_FRONT + rest)[..k])
  {
    var text := APPROVE_FRONT + rest;
    var s := text[..k];
    PrefixStartsLike(text, APPROVE_FRONT, rest, k);
    ApproveWord();
    HeadSlice(s, APPROVE_FRONT, 1, 14);
    assert KEY + ": true" == "\"valid\": true";
    assert OccursAt(s, "\"valid\": true", 1);
  }

  // Main result for values of any type.  The hook's scanner still decides by the first 14
  // characters alone; the mock's test agrees exactly unless a refusal's value shows one of
  // its needles.
  lemma ReadersOnAnyValue(approve: bool, value: string, k: nat)
    requires k <= |PrintValue(approve, value)|
    ensures var s := PrintValue(approve, value)[..k]; var n := |REFUSE_FRONT|;
      && (SaysTrue(s, "valid") <==> approve && k >= 14)
      && (ResponseIsValid(s) <==>
            (approve && k >= 14) || (!approve && k > n && ResponseIsValid((value + "}")[..k - n])))
  {
    hide SaysTrue, ResponseIsValid, StartsLike;
    var front, rest := if approve then APPROVE_FRONT else REFUSE_FRONT, value + "}";
    assert PrintValue(approve, value) == front + rest;
    PrefixStartsLike(front + rest, front, rest, k);
    MockOnValue(front, rest, k);
    Heads(front);
    assert APPROVE_FRONT[10] == 't' && REFUSE_FRONT[10] == 'f' by { Heads(APPROVE_FRONT); Heads(REFUSE_FRONT); }
    if approve {
      ScanApprove((front + rest)[..k]);
      if k >= 14 {
        MockOnApproval(rest, k);
      }
    } else {
      ScanRefuse((front + rest)[..k]);
    }
  }

  // So the two can disagree: a refusal whose reason is the object {"valid": true}.
  lemma ObjectReasonDivides()
    ensures var s := PrintValue(false, "{\"valid\": true}"); !SaysTrue(s, "valid") && ResponseIsValid(s)
  {
    var value := "{\"valid\": true}";
    var s := PrintValue(false, value);
    assert s[..|s|] == s;
    ReadersOnAnyValue(false, value, |s|);
    var rest := value + "}";
    assert rest[..|s| - |REFUSE_FRONT|] == rest;
    assert rest[1..14] == "\"valid\": true" && OccursAt(rest, "\"valid\": true", 1);
  }

  // A printed reply has no NUL, so what a reader stores is the prefix it received.
  lemma ReplyHasNoNul(r: Reply, k: nat, junk: seq<char>)
    requires k <= |Print(r)|
    ensures CString(Print(r)[..k] + ['\0'] + junk) == Print(r)[..k]
  {
    match r
    case Approve(token) =>
      EscapeGuards(token);
      hide Escape;
      NoNul(APPROVE_HEAD, Escape(token), k);
      NulAfter(Print(r)[..k], junk);
    case Refuse(reason) =>
      EscapeGuards(reason);
      hide Escape;
      NoNul(REFUSE_HEAD, Escape(reason), k);
      NulAfter(Print(r)[..k], junk);
  }

  lemma NoNul(head: string, body: string, k: nat)
    requires head == APPROVE_HEAD || head == REFUSE_HEAD
    requires Guarded(body) && k <= |head + body + "\"}"|
    ensures forall i | 0 <= i < k :: (head + body + "\"}")[..k][i] != '\0'
  {
    assert forall i | 0 <= i < |head| :: head[i] >= ' ';
    forall i | 0 <= i < |body| ensures body[i] >= ' ' {
      assert GuardedAt(body, i);
    }
  }

  lemma NulAfter(s: string, junk: seq<char>)
    requires forall i | 0 <= i < |s| :: s[i] != '\0'
    ensures NulIndex(s + ['\0'] + junk) == |s| && CString(s + ['\0'] + junk) == s
  {
    var buf := s + ['\0'] + junk;
    assert buf[|s|] == '\0';
    assert forall i | 0 <= i < |s| :: buf[i] == s[i];
  }
}
