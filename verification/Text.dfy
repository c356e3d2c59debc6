// Characters, bytes and the small printers the rest of the model shares.
//
// Python strings and the text held in C buffers are sequences of characters.
// Data that is hashed, or sent as a game message, is a sequence of bytes.

module Wrappers {
  datatype Option<+T> = None | Some(value: T)
}

module Text {
  import opened Wrappers

  type byte = b: int | 0 <= b < 256
  type bytes = seq<byte>

  // ---- decimal digits -------------------------------------------------------

  predicate IsDigit(c: char) { '0' <= c <= '9' }

  function Digit(d: nat): (c: char)
    requires d < 10
    ensures IsDigit(c)
  {
    (d + 48) as char
  }

  function DigitValue(c: char): (d: nat)
    requires IsDigit(c)
    ensures d < 10 && Digit(d) == c
  {
    c as int - 48
  }

  function Dec(n: nat): (s: string)
    ensures s != "" && forall i | 0 <= i < |s| :: IsDigit(s[i])
  {
    if n < 10 then [Digit(n)] else Dec(n / 10) + [Digit(n % 10)]
  }

  function DecValue(s: string): nat
    requires forall i | 0 <= i < |s| :: IsDigit(s[i])
  {
    if s == "" then 0 else 10 * DecValue(s[..|s| - 1]) + DigitValue(s[|s| - 1])
  }

  lemma {:induction false} DecRoundTrip(n: nat)
    ensures DecValue(Dec(n)) == n
  {
    if n < 10 {
      assert Dec(n)[..0] == "";
    } else {
      DecRoundTrip(n / 10);
      assert Dec(n)[..|Dec(n)| - 1] == Dec(n / 10);
    }
  }

  // What str() prints of a natural number: ASCII digits, no leading zero.
  predicate IsDecimal(s: string)
  {
    s != "" && (forall i | 0 <= i < |s| :: '0' <= s[i] <= '9') && (|s| > 1 ==> s[0] != '0')
  }

  lemma {:induction false} DecimalIsPositive(s: string)
    requires IsDecimal(s) && s[0] != '0'
    ensures DecValue(s) >= 1
  {
    if |s| > 1 {
      DecimalIsPositive(s[..|s| - 1]);
    } else {
      assert s[..0] == "";
    }
  }

  lemma {:induction false} DecimalUnique(s: string, n: nat)
    requires IsDecimal(s) && DecValue(s) == n
    ensures s == Dec(n)
  {
    var front, last := s[..|s| - 1], s[|s| - 1];
    assert s == front + [last];
    if |s| > 1 {
      DecimalIsPositive(front);
      DecimalUnique(front, n / 10);
    }
  }

  lemma {:induction false} DecIsDecimal(n: nat)
    ensures IsDecimal(Dec(n)) && (n > 0 ==> Dec(n)[0] != '0')
  {
    if n >= 10 {
      DecIsDecimal(n / 10);
      assert Dec(n)[0] == Dec(n / 10)[0];
    }
  }

  // Dec(n) is the one decimal text with that value.
  lemma DecIsCanonical(n: nat, s: string)
    ensures IsDecimal(s) && DecValue(s) == n <==> s == Dec(n)
  {
    DecIsDecimal(n);
    DecRoundTrip(n);
    if IsDecimal(s) && DecValue(s) == n {
      DecimalUnique(s, n);
    }
  }

  // Positions count in tens.
  lemma DecPlaces(n: nat, d: nat)
    requires d < 10
    ensures Dec(d) == ["0123456789"[d]]
    ensures n > 0 ==> Dec(10 * n + d) == Dec(n) + ["0123456789"[d]]
  {
    DigitText(d);
  }

  lemma DigitText(d: nat)
    requires d < 10
    ensures Digit(d) == "0123456789"[d]
  {}

  // ---- hexadecimal ----------------------------------------------------------

  predicate IsLowerHex(c: char) { IsDigit(c) || 'a' <= c <= 'f' }

  function HexDigit(d: nat): (c: char)
    requires d < 16
    ensures IsLowerHex(c)
  {
    if d < 10 then (d + 48) as char else (d + 87) as char
  }

  function HexValue(c: char): (d: nat)
    requires IsLowerHex(c)
    ensures d < 16
  {
    if IsDigit(c) then c as int - 48 else c as int - 87
  }

  function HexByte(b: byte): (s: string)
    ensures |s| == 2
  {
    [HexDigit(b / 16), HexDigit(b % 16)]
  }

  // bytes.hex() and "%02x" over a whole buffer: two lower-case digits per byte.
  function Hex(data: bytes): (s: string)
    ensures |s| == 2 * |data|
    ensures forall i | 0 <= i < |s| :: IsLowerHex(s[i])
  {
    if data == [] then "" else Hex(data[..|data| - 1]) + HexByte(data[|data| - 1])
  }

  function Unhex(s: string): Option<bytes>
  {
    if s == "" then Some([])
    else if |s| == 1 || !IsLowerHex(s[|s| - 2]) || !IsLowerHex(s[|s| - 1]) then None
    else match Unhex(s[..|s| - 2])
      case None => None
      case Some(front) => Some(front + [16 * HexValue(s[|s| - 2]) + HexValue(s[|s| - 1])])
  }

  lemma {:induction false} HexRoundTrip(data: bytes)
    ensures Unhex(Hex(data)) == Some(data)
  {
    if data != [] {
      HexRoundTrip(data[..|data| - 1]);
      assert Hex(data)[..|Hex(data)| - 2] == Hex(data[..|data| - 1]);
      assert data == data[..|data| - 1] + [data[|data| - 1]];
    }
  }

  lemma HexInjective(a: bytes, b: bytes)
    requires Hex(a) == Hex(b)
    ensures a == b
  {
    HexRoundTrip(a);
    HexRoundTrip(b);
  }

  const HEX_DIGITS: string := "0123456789abcdef"

  lemma HexDigitText(d: nat)
    requires d < 16
    ensures HexDigit(d) == HEX_DIGITS[d]
  {}

  // Two lower-case digits per byte, high half first.
  lemma {:induction false} HexAt(data: bytes, i: nat)
    requires i < |data|
    ensures Hex(data)[2 * i] == HEX_DIGITS[data[i] / 16] && Hex(data)[2 * i + 1] == HEX_DIGITS[data[i] % 16]
  {
    if i < |data| - 1 {
      HexAt(data[..|data| - 1], i);
    } else {
      HexDigitText(data[i] / 16);
      HexDigitText(data[i] % 16);
    }
  }

  // ---- str.encode() ---------------------------------------------------------

  function Utf8Char(c: char): (b: bytes)
    ensures 1 <= |b| <= 4
  {
    var n := c as int;
    if n < 0x80 then [n]
    else if n < 0x800 then [0xC0 + n / 0x40, 0x80 + n % 0x40]
    else if n < 0x10000 then [0xE0 + n / 0x1000, 0x80 + n / 0x40 % 0x40, 0x80 + n % 0x40]
    else [0xF0 + n / 0x40000, 0x80 + n / 0x1000 % 0x40, 0x80 + n / 0x40 % 0x40, 0x80 + n % 0x40]
  }

  function Utf8(s: string): (b: bytes)
    ensures |s| <= |b|
  {
    if s == "" then [] else Utf8Char(s[0]) + Utf8(s[1..])
  }

  // How many bytes the character starting with byte b takes, and its value.
  function Utf8Width(b: byte): (w: nat)
    ensures 1 <= w <= 4
  {
    if b < 0xC0 then 1 else if b < 0xE0 then 2 else if b < 0xF0 then 3 else 4
  }

  function Utf8Value(b: seq<int>): int
    requires 1 <= |b| <= 4
  {
    if |b| == 1 then b[0]
    else if |b| == 2 then (b[0] - 0xC0) * 0x40 + (b[1] - 0x80)
    else if |b| == 3 then (b[0] - 0xE0) * 0x1000 + (b[1] - 0x80) * 0x40 + (b[2] - 0x80)
    else (b[0] - 0xF0) * 0x40000 + (b[1] - 0x80) * 0x1000 + (b[2] - 0x80) * 0x40 + (b[3] - 0x80)
  }

  lemma DivDiv(n: nat)
    ensures n == n / 0x1000 * 0x1000 + n / 0x40 % 0x40 * 0x40 + n % 0x40
    ensures n / 0x1000 == n / 0x40000 * 0x40 + n / 0x1000 % 0x40
  {}

  lemma Utf8CharRoundTrip(c: char)
    ensures |Utf8Char(c)| == Utf8Width(Utf8Char(c)[0])
    ensures Utf8Value(Utf8Char(c)) == c as int
  {
    DivDiv(c as int);
  }

  lemma Utf8CharPrefixFree(c: char, d: char, x: bytes, y: bytes)
    requires Utf8Char(c) + x == Utf8Char(d) + y
    ensures c == d && x == y
  {
    Utf8CharRoundTrip(c);
    Utf8CharRoundTrip(d);
    var m, n := Utf8Char(c), Utf8Char(d);
    assert (m + x)[0] == m[0] && (n + y)[0] == n[0];
    assert m == (m + x)[..|m|] && n == (n + y)[..|n|];
    assert x == (m + x)[|m|..] && y == (n + y)[|n|..];
  }

  lemma {:induction false} Utf8Injective(a: string, b: string)
    requires Utf8(a) == Utf8(b)
    ensures a == b
  {
    if a != "" && b != "" {
      Utf8CharPrefixFree(a[0], b[0], Utf8(a[1..]), Utf8(b[1..]));
      Utf8Injective(a[1..], b[1..]);
      assert a == [a[0]] + a[1..] == [b[0]] + b[1..] == b;
    }
  }

  // A continuation byte carries six bits.
  predicate Continues(b: int) { 0x80 <= b <= 0xBF }

  // Section 3 of RFC 3629: lengths, lead bytes and where the bits of n go.
  predicate Utf8Standard(n: int, b: seq<int>)
  {
    if n <= 0x7F then b == [n]
    else if n <= 0x7FF then
      |b| == 2 && 0xC2 <= b[0] <= 0xDF && Continues(b[1]) && n == (b[0] - 0xC0) * 0x40 + (b[1] - 0x80)
    else if n <= 0xFFFF then
      && |b| == 3 && 0xE0 <= b[0] <= 0xEF && Continues(b[1]) && Continues(b[2])
      && n == (b[0] - 0xE0) * 0x1000 + (b[1] - 0x80) * 0x40 + (b[2] - 0x80)
    else
      && |b| == 4 && 0xF0 <= b[0] <= 0xF4 && Continues(b[1]) && Continues(b[2]) && Continues(b[3])
      && n == (b[0] - 0xF0) * 0x40000 + (b[1] - 0x80) * 0x1000 + (b[2] - 0x80) * 0x40 + (b[3] - 0x80)
  }

  lemma Utf8CharIsStandard(c: char)
    ensures Utf8Standard(c as int, Utf8Char(c))
  {
    DivDiv(c as int);
  }

  // Text is encoded character by character, ASCII as itself.
  lemma {:induction false} Utf8Append(a: string, b: string)
    ensures Utf8(a + b) == Utf8(a) + Utf8(b)
  {
    hide Utf8, Utf8Char;
    if a == "" {
      assert a + b == b;
      Utf8Nothing();
    } else {
      Utf8First(a);
      Utf8First(a + b);
      Utf8Append(a[1..], b);
      assert (a + b)[1..] == a[1..] + b;
    }
  }

  lemma Utf8Nothing()
    ensures Utf8("") == []
  {}

  lemma Utf8First(s: string)
    requires s != ""
    ensures Utf8(s) == Utf8Char(s[0]) + Utf8(s[1..])
  {}

  lemma Utf8Single(c: char)
    ensures Utf8([c]) == Utf8Char(c)
  {
    assert [c][1..] == "";
  }

  lemma {:induction false} Utf8Ascii(s: string)
    requires forall i | 0 <= i < |s| :: s[i] as int <= 0x7F
    ensures |Utf8(s)| == |s| && forall i | 0 <= i < |s| :: Utf8(s)[i] == s[i] as int
  {
    if s != "" {
      Utf8Ascii(s[1..]);
    }
  }

  // ---- str.lower() and str.strip() ------------------------------------------

  function LowerChar(c: char): char {
    if 'A' <= c <= 'Z' then (c as int + 32) as char else c
  }

  function Lower(s: string): (r: string)
    ensures |r| == |s|
  {
    seq(|s|, i requires 0 <= i < |s| => LowerChar(s[i]))
  }

  const CAPITALS: string := "ABCDEFGHIJKLMNOPQRSTUVWXYZ"
  const SMALL: string := "abcdefghijklmnopqrstuvwxyz"

  // Each capital becomes its small letter, everything else stays.
  lemma LowerLetters(k: nat, c: char)
    requires k < 26
    ensures Lower([CAPITALS[k]]) == [SMALL[k]]
    ensures !('A' <= c <= 'Z') ==> Lower([c]) == [c]
  {
    assert CAPITALS[k] as int == 65 + k && SMALL[k] as int == 97 + k by { Alphabet(k); }
  }

  lemma Alphabet(k: nat)
    requires k < 26
    ensures CAPITALS[k] as int == 65 + k && SMALL[k] as int == 97 + k
  {}

  lemma LowerAppend(a: string, b: string)
    ensures Lower(a + b) == Lower(a) + Lower(b)
  {}

  lemma LowerIdempotent(s: string)
    ensures Lower(Lower(s)) == Lower(s)
  {}

  lemma LowerOfHex(data: bytes)
    ensures Lower(Hex(data)) == Hex(data)
  {}

  // The characters str.isspace() accepts.
  predicate IsSpace(c: char)
  {
    var n := c as int;
    0x09 <= n <= 0x0D || 0x1C <= n <= 0x20 || n == 0x85 || n == 0xA0 || n == 0x1680 || 0x2000 <= n <= 0x200A
    || n == 0x2028 || n == 0x2029 || n == 0x202F || n == 0x205F || n == 0x3000
  }

  function LStrip(s: string): (r: string)
    ensures r == "" || !IsSpace(r[0])
    ensures |r| <= |s| && r == s[|s| - |r|..]
  {
    if s != "" && IsSpace(s[0]) then LStrip(s[1..]) else s
  }

  function RStrip(s: string): (r: string)
    ensures r == "" || !IsSpace(r[|r| - 1])
    ensures |r| <= |s| && r == s[..|r|]
  {
    if s != "" && IsSpace(s[|s| - 1]) then RStrip(s[..|s| - 1]) else s
  }

  function Strip(s: string): (r: string)
    ensures r == "" || (!IsSpace(r[0]) && !IsSpace(r[|r| - 1]))
  {
    RStrip(LStrip(s))
  }

  lemma SpacesAre(c: char)
    ensures var spaces :=
      {9, 10, 11, 12, 13, 28, 29, 30, 31, 32, 0x85, 0xA0, 0x1680, 0x2000, 0x2001, 0x2002, 0x2003, 0x2004, 0x2005,
       0x2006, 0x2007, 0x2008, 0x2009, 0x200A, 0x2028, 0x2029, 0x202F, 0x205F, 0x3000};
      IsSpace(c) <==> c as int in spaces
  {}

  predicate AllSpace(s: string) { forall i | 0 <= i < |s| :: IsSpace(s[i]) }

  predicate NoSpaceAtEnds(s: string) { s == "" || (!IsSpace(s[0]) && !IsSpace(s[|s| - 1])) }

  lemma LStripStep(s: string)
    ensures LStrip(s) == if s != "" && IsSpace(s[0]) then LStrip(s[1..]) else s
  {}

  lemma {:induction false} LStripDrops(a: string, t: string)
    requires AllSpace(a)
    ensures LStrip(a + t) == LStrip(t)
  {
    hide IsSpace, LStrip;
    if a == "" {
      assert a + t == t;
    } else {
      assert (a + t)[1..] == a[1..] + t && (a + t)[0] == a[0];
      LStripStep(a + t);
      LStripDrops(a[1..], t);
    }
  }

  lemma {:induction false} RStripDrops(t: string, b: string)
    requires AllSpace(b)
    ensures RStrip(t + b) == RStrip(t)
  {
    hide IsSpace;
    if b == "" {
      assert t + b == t;
    } else {
      var last := |b| - 1;
      RStripDrops(t, b[..last]);
      assert (t + b)[..|t + b| - 1] == t + b[..last] && (t + b)[|t + b| - 1] == b[last];
    }
  }

  lemma {:induction false} LStripSplit(s: string)
    ensures AllSpace(s[..|s| - |LStrip(s)|])
  {
    hide IsSpace;
    if s != "" && IsSpace(s[0]) {
      LStripSplit(s[1..]);
      var n := |s| - |LStrip(s)|;
      assert forall i | 1 <= i < n :: s[i] == s[1..][..n - 1][i - 1];
    }
  }

  lemma {:induction false} RStripSplit(s: string)
    ensures AllSpace(s[|RStrip(s)|..])
  {
    hide IsSpace;
    if s != "" && IsSpace(s[|s| - 1]) {
      RStripSplit(s[..|s| - 1]);
      var n := |RStrip(s)|;
      assert forall i | n <= i < |s| - 1 :: s[i] == s[..|s| - 1][n..][i - n];
    }
  }

  // Blanks go from both ends and from nowhere else.
  lemma StripIs(a: string, t: string, b: string)
    requires AllSpace(a) && AllSpace(b) && NoSpaceAtEnds(t)
    ensures Strip(a + t + b) == t
  {
    hide IsSpace, LStrip, RStrip;
    LStripDrops(a, t + b);
    assert a + t + b == a + (t + b);
    if t == "" {
      LStripDrops(b, "");
      assert t + b == b + "";
      EmptyStrip();
    } else {
      StartsUnblank(t + b);
      RStripDrops(t, b);
      EndsUnblank(t);
    }
  }

  lemma EmptyStrip()
    ensures LStrip("") == "" && RStrip("") == ""
  {}

  lemma StartsUnblank(s: string)
    requires s != "" && !IsSpace(s[0])
    ensures LStrip(s) == s
  {}

  lemma EndsUnblank(s: string)
    requires s != "" && !IsSpace(s[|s| - 1])
    ensures RStrip(s) == s
  {}

  lemma StripSplits(s: string) returns (a: string, b: string)
    ensures AllSpace(a) && AllSpace(b) && s == a + Strip(s) + b && NoSpaceAtEnds(Strip(s))
  {
    hide IsSpace, LStrip, RStrip;
    var t := LStrip(s);
    LStripSplit(s);
    RStripSplit(t);
    a, b := s[..|s| - |t|], t[|RStrip(t)|..];
  }
}
