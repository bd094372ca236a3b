// Page tokens: an offset in decimal, in base64 (section 4 of RFC 4648).
module Tokens {
  import opened Wrappers

  type Byte = x: int | 0 <= x < 256

  // ---- base64 -------------------------------------------------------------------------

  function Digit(n: int): char
    requires 0 <= n < 64
  {
    if n < 26 then 'A' + n as char
    else if n < 52 then 'a' + (n - 26) as char
    else if n < 62 then '0' + (n - 52) as char
    else if n == 62 then '+' else '/'
  }

  function Value(c: char): (v: Option<int>)
    ensures v.Some? ==> 0 <= v.value < 64
  {
    if 'A' <= c <= 'Z' then Some(c as int - 'A' as int)
    else if 'a' <= c <= 'z' then Some(c as int - 'a' as int + 26)
    else if '0' <= c <= '9' then Some(c as int - '0' as int + 52)
    else if c == '+' then Some(62)
    else if c == '/' then Some(63)
    else None
  }

  lemma DigitValue(n: int)
    requires 0 <= n < 64
    ensures Value(Digit(n)) == Some(n)
    ensures Digit(n) !in {'=', '\r', '\n'}
  {
  }

  /** The alphabet: A to Z, a to z, 0 to 9, plus and slash, in this order. */
  lemma Alphabet(n: int)
    requires 0 <= n < 64
    ensures n < 26 ==> Digit(n) as int == 'A' as int + n
    ensures 26 <= n < 52 ==> Digit(n) as int == 'a' as int + n - 26
    ensures 52 <= n < 62 ==> Digit(n) as int == '0' as int + n - 52
    ensures n == 62 ==> Digit(n) == '+'
    ensures n == 63 ==> Digit(n) == '/'
  {
  }

  function Encode(b: seq<Byte>): string {
    if |b| == 0 then ""
    else if |b| == 1 then [Digit(b[0] / 4), Digit(b[0] % 4 * 16), '=', '=']
    else if |b| == 2 then [Digit(b[0] / 4), Digit(b[0] % 4 * 16 + b[1] / 16), Digit(b[1] % 16 * 4), '=']
    else [Digit(b[0] / 4), Digit(b[0] % 4 * 16 + b[1] / 16), Digit(b[1] % 16 * 4 + b[2] / 64), Digit(b[2] % 64)]
         + Encode(b[3..])
  }

  lemma EncodeGroup(b0: Byte, b1: Byte, b2: Byte, rest: seq<Byte>)
    ensures Encode([b0, b1, b2] + rest)
         == [Digit(b0 / 4), Digit(b0 % 4 * 16 + b1 / 16), Digit(b1 % 16 * 4 + b2 / 64), Digit(b2 % 64)] + Encode(rest)
  {
    var b := [b0, b1, b2] + rest;
    assert b[0] == b0 && b[1] == b1 && b[2] == b2 && b[3..] == rest;
  }

  lemma GroupNumber(b0: Byte, b1: Byte, b2: Byte)
    ensures ((b0 / 4 * 64 + (b0 % 4 * 16 + b1 / 16)) * 64 + (b1 % 16 * 4 + b2 / 64)) * 64 + b2 % 64
         == (b0 * 256 + b1) * 256 + b2
  {
  }

  /** Four digits hold the same number in base 64 as their three bytes in base 256. */
  lemma GroupKeepsNumber(b0: Byte, b1: Byte, b2: Byte, rest: seq<Byte>) returns (d0: int, d1: int, d2: int, d3: int)
    ensures 0 <= d0 < 64 && 0 <= d1 < 64 && 0 <= d2 < 64 && 0 <= d3 < 64
    ensures ((d0 * 64 + d1) * 64 + d2) * 64 + d3 == (b0 * 256 + b1) * 256 + b2
    ensures Encode([b0, b1, b2] + rest) == [Digit(d0), Digit(d1), Digit(d2), Digit(d3)] + Encode(rest)
  {
    d0, d1, d2, d3 := b0 / 4, b0 % 4 * 16 + b1 / 16, b1 % 16 * 4 + b2 / 64, b2 % 64;
    GroupNumber(b0, b1, b2);
    EncodeGroup(b0, b1, b2, rest);
  }

  function Byte0(v0: int, v1: int): Byte
    requires 0 <= v0 < 64 && 0 <= v1 < 64
  {
    v0 * 4 + v1 / 16
  }

  function Byte1(v1: int, v2: int): Byte
    requires 0 <= v1 < 64 && 0 <= v2 < 64
  {
    v1 % 16 * 16 + v2 / 4
  }

  function Byte2(v2: int, v3: int): Byte
    requires 0 <= v2 < 64 && 0 <= v3 < 64
  {
    v2 % 4 * 64 + v3
  }

  /** Line breaks inside the text are skipped, as the decoder documents. */
  function SkipLineBreaks(s: string): string {
    if s == "" then ""
    else if s[0] == '\r' || s[0] == '\n' then SkipLineBreaks(s[1..])
    else [s[0]] + SkipLineBreaks(s[1..])
  }

  /** Groups of four digits; padding only at the very end; unused low bits are ignored. */
  function DecodeGroups(s: string): Option<seq<Byte>> {
    if s == "" then Some([])
    else if |s| < 4 || Value(s[0]).None? || Value(s[1]).None? then None
    else
      var v0, v1 := Value(s[0]).value, Value(s[1]).value;
      if s[2] == '=' then
        if |s| == 4 && s[3] == '=' then Some([Byte0(v0, v1)]) else None
      else if Value(s[2]).None? then None
      else
        var v2 := Value(s[2]).value;
        if s[3] == '=' then
          if |s| == 4 then Some([Byte0(v0, v1), Byte1(v1, v2)]) else None
        else if Value(s[3]).None? then None
        else
          var rest := DecodeGroups(s[4..]);
          if rest.None? then None
          else Some([Byte0(v0, v1), Byte1(v1, v2), Byte2(v2, Value(s[3]).value)] + rest.value)
  }

  function Decode(s: string): Option<seq<Byte>> {
    DecodeGroups(SkipLineBreaks(s))
  }

  ghost predicate InAlphabet(c: char) {
    'A' <= c <= 'Z' || 'a' <= c <= 'z' || '0' <= c <= '9' || c == '+' || c == '/'
  }

  /** Whole groups of four, in the alphabet up to p final padding characters. */
  ghost predicate PaddedBy(s: string, p: nat) {
    && p <= 2 && p <= |s| && |s| % 4 == 0
    && (forall i :: 0 <= i < |s| - p ==> InAlphabet(s[i]))
    && (forall i :: |s| - p <= i < |s| ==> s[i] == '=')
  }

  /** Exactly such texts decode. */
  lemma {:induction false} DecodableIff(s: string)
    ensures DecodeGroups(s).Some? <==> exists p: nat :: PaddedBy(s, p)
  {
    if |s| == 0 {
      assert PaddedBy(s, 0);
    } else if |s| > 4 {
      var rest := s[4..];
      DecodableIff(rest);
      if p: nat :| PaddedBy(rest, p) && InAlphabet(s[0]) && InAlphabet(s[1]) && InAlphabet(s[2]) && InAlphabet(s[3]) {
        assert forall i :: 4 <= i < |s| ==> s[i] == rest[i-4];
        assert PaddedBy(s, p);
      }
      if p: nat :| PaddedBy(s, p) {
        assert |s| >= 8;
        assert forall i :: 0 <= i < |rest| ==> rest[i] == s[i+4];
        assert PaddedBy(rest, p);
      }
    } else if |s| == 4 {
      assert s[4..] == "";
      LastGroup(s);
    }
  }

  lemma LastGroup(s: string)
    requires |s| == 4
    ensures DecodeGroups(s).Some? <==> exists p: nat :: PaddedBy(s, p)
  {
    assert s[4..] == "";
    if DecodeGroups(s).Some? {
      assert PaddedBy(s, if s[2] == '=' then 2 else if s[3] == '=' then 1 else 0);
    }
  }

  lemma {:induction false} NoBreaksToSkip(s: string)
    requires '\r' !in s && '\n' !in s
    ensures SkipLineBreaks(s) == s
  {
    if s != "" {
      NoBreaksToSkip(s[1..]);
    }
  }

  lemma SextetsOfBytes(b0: Byte, b1: Byte, b2: Byte)
    ensures 0 <= b0 / 4 < 64 && 0 <= b0 % 4 * 16 + b1 / 16 < 64 && 0 <= b1 % 16 * 4 + b2 / 64 < 64 && 0 <= b2 % 64 < 64
    ensures Byte0(b0 / 4, b0 % 4 * 16 + b1 / 16) == b0
    ensures Byte1(b0 % 4 * 16 + b1 / 16, b1 % 16 * 4 + b2 / 64) == b1
    ensures Byte2(b1 % 16 * 4 + b2 / 64, b2 % 64) == b2
  {
  }

  lemma {:induction false} EncodedText(b: seq<Byte>)
    ensures '\r' !in Encode(b) && '\n' !in Encode(b)
    ensures b != [] ==> |Encode(b)| >= 4
  {
    if |b| > 2 {
      EncodedText(b[3..]);
    }
  }

  lemma FullGroup(a: int, b: int, c: int, d: int, rest: string)
    requires 0 <= a < 64 && 0 <= b < 64 && 0 <= c < 64 && 0 <= d < 64
    requires DecodeGroups(rest).Some?
    ensures DecodeGroups([Digit(a), Digit(b), Digit(c), Digit(d)] + rest)
         == Some([Byte0(a, b), Byte1(b, c), Byte2(c, d)] + DecodeGroups(rest).value)
  {
    DigitValue(a);
    DigitValue(b);
    DigitValue(c);
    DigitValue(d);
    assert ([Digit(a), Digit(b), Digit(c), Digit(d)] + rest)[4..] == rest;
  }

  lemma PaddedGroups(a: int, b: int, c: int)
    requires 0 <= a < 64 && 0 <= b < 64 && 0 <= c < 64
    ensures DecodeGroups([Digit(a), Digit(b), Digit(c), '=']) == Some([Byte0(a, b), Byte1(b, c)])
    ensures DecodeGroups([Digit(a), Digit(b), '=', '=']) == Some([Byte0(a, b)])
  {
    DigitValue(a);
    DigitValue(b);
    DigitValue(c);
  }

  lemma ThreeBytes(b0: Byte, b1: Byte, b2: Byte, rest: string)
    requires DecodeGroups(rest).Some?
    ensures DecodeGroups([Digit(b0 / 4), Digit(b0 % 4 * 16 + b1 / 16), Digit(b1 % 16 * 4 + b2 / 64), Digit(b2 % 64)] + rest)
         == Some([b0, b1, b2] + DecodeGroups(rest).value)
  {
    SextetsOfBytes(b0, b1, b2);
    FullGroup(b0 / 4, b0 % 4 * 16 + b1 / 16, b1 % 16 * 4 + b2 / 64, b2 % 64, rest);
  }

  lemma OneByte(b0: Byte)
    ensures DecodeGroups([Digit(b0 / 4), Digit(b0 % 4 * 16), '=', '=']) == Some([b0])
  {
    SextetsOfBytes(b0, 0, 0);
    var x, y := b0 / 4, b0 % 4 * 16;
    PaddedGroups(x, y, 0);
  }

  lemma TwoBytes(b0: Byte, b1: Byte)
    ensures DecodeGroups([Digit(b0 / 4), Digit(b0 % 4 * 16 + b1 / 16), Digit(b1 % 16 * 4), '=']) == Some([b0, b1])
  {
    SextetsOfBytes(b0, b1, 0);
    var x, y, z := b0 / 4, b0 % 4 * 16 + b1 / 16, b1 % 16 * 4;
    PaddedGroups(x, y, z);
  }

  lemma {:induction false} GroupsRoundTrip(b: seq<Byte>)
    ensures DecodeGroups(Encode(b)) == Some(b)
    decreases |b|
  {
    if |b| == 0 {
    } else if |b| == 1 {
      OneByte(b[0]);
      assert b == [b[0]];
    } else if |b| == 2 {
      TwoBytes(b[0], b[1]);
      assert b == [b[0], b[1]];
    } else {
      var rest := b[3..];
      GroupsRoundTrip(rest);
      ThreeBytes(b[0], b[1], b[2], Encode(rest));
      EncodeGroup(b[0], b[1], b[2], rest);
      assert b == [b[0], b[1], b[2]] + rest;
    }
  }

  lemma Base64RoundTrip(b: seq<Byte>)
    ensures Decode(Encode(b)) == Some(b)
  {
    EncodedText(b);
    NoBreaksToSkip(Encode(b));
    GroupsRoundTrip(b);
  }

  // ---- decimal --------------------------------------------------------------------------

  const ZERO: int := 48
  const PLUS: int := 43
  const MINUS: int := 45
  const MAX_INT: int := 0x7fff_ffff_ffff_ffff

  function Decimal(n: nat): (b: seq<Byte>)
    ensures b != []
  {
    if n < 10 then [ZERO + n] else Decimal(n / 10) + [ZERO + n % 10]
  }

  function ParseDigits(b: seq<Byte>): Option<nat>
    requires b != []
  {
    var d := b[|b|-1] - ZERO;
    if !(0 <= d < 10) then None
    else if |b| == 1 then Some(d)
    else
      var high := ParseDigits(b[..|b|-1]);
      if high.None? then None else Some(high.value * 10 + d)
  }

  /** strconv.Atoi: an optional sign, at least one digit, and a value that fits 64 bits. */
  function Atoi(b: seq<Byte>): Option<int> {
    if b == [] then None
    else
      var signed := b[0] == PLUS || b[0] == MINUS;
      var digits := if signed then b[1..] else b;
      if digits == [] || ParseDigits(digits).None? then None
      else
        var n: int := ParseDigits(digits).value;
        if b[0] == MINUS then (if n <= MAX_INT + 1 then Some(-n) else None)
        else if n <= MAX_INT then Some(n) else None
  }

  lemma {:induction false} DecimalDigits(n: nat)
    ensures ParseDigits(Decimal(n)) == Some(n)
    ensures Decimal(n)[0] != PLUS && Decimal(n)[0] != MINUS
  {
    if n >= 10 {
      DecimalDigits(n / 10);
      assert Decimal(n)[..|Decimal(n)|-1] == Decimal(n / 10);
    }
  }

  // ---- which tokens are accepted -----------------------------------------------------------

  ghost predicate AllDigits(b: seq<Byte>) {
    b != [] && forall i :: 0 <= i < |b| ==> '0' as int <= b[i] <= '9' as int
  }

  /** The number a run of digits stands for, read from the left. */
  function Number(b: seq<Byte>): int {
    if b == [] then 0 else 10 * Number(b[..|b|-1]) + (b[|b|-1] - '0' as int)
  }

  /** b is the number v, with a sign or without, and fits 64 bits. */
  ghost predicate Numeral(b: seq<Byte>, v: int) {
    && (exists digits :: Written(b, digits, v))
    && -0x8000_0000_0000_0000 <= v < 0x8000_0000_0000_0000
  }

  ghost predicate Written(b: seq<Byte>, digits: seq<Byte>, v: int) {
    && AllDigits(digits)
    && (|| (b == digits && v == Number(digits))
        || (b == ['+' as int] + digits && v == Number(digits))
        || (b == ['-' as int] + digits && v == -Number(digits)))
  }

  lemma {:induction false} ParseDigitsIff(b: seq<Byte>)
    requires b != []
    ensures ParseDigits(b).Some? <==> AllDigits(b)
    ensures AllDigits(b) ==> ParseDigits(b) == Some(Number(b)) && Number(b) >= 0
  {
    if |b| > 1 {
      ParseDigitsIff(b[..|b|-1]);
    }
  }

  lemma AtoiIff(b: seq<Byte>, v: int)
    ensures Atoi(b) == Some(v) <==> Numeral(b, v)
  {
    if b != [] {
      var signed := b[0] == PLUS || b[0] == MINUS;
      var digits := if signed then b[1..] else b;
      if digits != [] {
        ParseDigitsIff(digits);
      }
      assert signed ==> b == [b[0]] + digits;
      forall d, x | Written(b, d, x) ensures d == digits {
        assert !signed ==> b == d;
        assert signed ==> b[1..] == d;
      }
      if Atoi(b) == Some(v) {
        assert Written(b, digits, v);
      }
    }
  }

  /** A token is accepted exactly if it is absent, or encodes a number that is not negative. */
  lemma ParseTokenIff(token: string)
    ensures forall offset: nat :: ParseToken(token) == Ok(offset) <==>
              || (token == "" && offset == 0)
              || (token != "" && exists b :: Decode(token) == Some(b) && Numeral(b, offset))
    ensures ParseToken(token) == Err(InvalidArgument) <==>
              token != "" && forall b, v :: Decode(token) == Some(b) && Numeral(b, v) ==> v < 0
    ensures ParseToken(token).Err? ==> ParseToken(token) == Err(InvalidArgument)
  {
    if token != "" && Decode(token).Some? {
      var b := Decode(token).value;
      forall v ensures Atoi(b) == Some(v) <==> Numeral(b, v) {
        AtoiIff(b, v);
      }
    }
  }

  /** A token is written in decimal, without leading zeros. */
  lemma {:induction false} DecimalMeaning(n: nat)
    ensures AllDigits(Decimal(n)) && Number(Decimal(n)) == n
    ensures n > 0 ==> Decimal(n)[0] != '0' as int
  {
    if n >= 10 {
      DecimalMeaning(n / 10);
      assert Decimal(n)[..|Decimal(n)|-1] == Decimal(n / 10);
    } else {
      assert Decimal(n)[..0] == [];
    }
  }

  // ---- tokens -----------------------------------------------------------------------------

  function TokenFor(offset: nat): string {
    Encode(Decimal(offset))
  }

  /** The offset a page token stands for. */
  function ParseToken(token: string): Result<nat, Error> {
    if token == "" then Ok(0)
    else
      var decoded := Decode(token);
      if decoded.None? then Err(InvalidArgument)
      else
        var v := Atoi(decoded.value);
        if v.None? || v.value < 0 then Err(InvalidArgument) else Ok(v.value)
  }

  /** A token decodes to the offset it was made for, up to the 64-bit range; it is never empty. */
  lemma TokenRoundTripIff(offset: nat)
    ensures ParseToken(TokenFor(offset)) == Ok(offset) <==> offset < 0x8000_0000_0000_0000
    ensures TokenFor(offset) != ""
  {
    Base64RoundTrip(Decimal(offset));
    DecimalDigits(offset);
    EncodedText(Decimal(offset));
  }
}
