/** `encodeURIComponent` and `decodeURIComponent`: percent-encoding as in section 2.1 of
    RFC 3986 (`%` followed by two hexadecimal digits per octet), applied to the UTF-8
    encoding of every character outside the set the ECMAScript standard leaves unescaped. */
module Uri {
  import opened Wrappers

  type Byte = b: int | 0 <= b < 256

  /** The characters `encodeURIComponent` leaves as they are: letters, digits and `-_.!~*'()`. */
  predicate IsUnescaped(c: char) {
    ('A' <= c <= 'Z') || ('a' <= c <= 'z') || ('0' <= c <= '9') || c in "-_.!~*'()"
  }

  /** Upper-case hexadecimal digit, as `encodeURIComponent` writes it. */
  function HexDigit(d: int): (c: char)
    requires 0 <= d < 16
    ensures IsUnescaped(c) && IsHexDigit(c)
  {
    if d < 10 then ('0' as int + d) as char else ('A' as int + d - 10) as char
  }

  /** Hexadecimal digits accepted when decoding, in either case. */
  predicate IsHexDigit(c: char) {
    ('0' <= c <= '9') || ('A' <= c <= 'F') || ('a' <= c <= 'f')
  }

  function HexValue(c: char): (d: int)
    requires IsHexDigit(c)
    ensures 0 <= d < 16
  {
    if '0' <= c <= '9' then c as int - '0' as int
    else if 'A' <= c <= 'F' then c as int - 'A' as int + 10
    else c as int - 'a' as int + 10
  }

  lemma HexDigitValue(d: int)
    requires 0 <= d < 16
    ensures IsHexDigit(HexDigit(d)) && HexValue(HexDigit(d)) == d
  {
  }

  /** The UTF-8 encoding of a Unicode scalar value. */
  function Utf8(c: char): (bs: seq<Byte>)
    ensures 1 <= |bs| <= 4
  {
    var cp := c as int;
    if cp < 0x80 then [cp]
    else if cp < 0x800 then [0xC0 + cp / 64, 0x80 + cp % 64]
    else if cp < 0x10000 then [0xE0 + cp / 4096, 0x80 + (cp / 64) % 64, 0x80 + cp % 64]
    else [0xF0 + cp / 262144, 0x80 + (cp / 4096) % 64, 0x80 + (cp / 64) % 64, 0x80 + cp % 64]
  }

  /** `%HH` for one octet. */
  function PercentByte(b: Byte): string {
    ['%', HexDigit(b / 16), HexDigit(b % 16)]
  }

  function PercentBytes(bs: seq<Byte>): (s: string)
    ensures |s| == 3 * |bs|
    ensures forall i | 0 <= i < |s| :: s[i] == '%' || IsUnescaped(s[i])
  {
    if bs == [] then [] else PercentByte(bs[0]) + PercentBytes(bs[1..])
  }

  /** The escape of one character: the character itself when it is left unescaped, and
      otherwise at least one `%HH` triple. */
  function EncodeChar(c: char): (r: string)
    ensures r == [c] <==> IsUnescaped(c)
    ensures forall i | 0 <= i < |r| :: r[i] == '%' || IsUnescaped(r[i])
  {
    if IsUnescaped(c) then [c] else PercentBytes(Utf8(c))
  }

  /** `encodeURIComponent(s)`: every character of the result is `%` or one of the unescaped
      set, nothing gets shorter, and a string of unescaped characters is left as it is. */
  function Encode(s: string): (r: string)
    ensures |r| >= |s|
    ensures forall i | 0 <= i < |r| :: r[i] == '%' || IsUnescaped(r[i])
    ensures (forall i | 0 <= i < |s| :: IsUnescaped(s[i])) ==> r == s
  {
    if s == [] then [] else EncodeChar(s[0]) + Encode(s[1..])
  }

  /** The octet written as `%HH` at the front of `s`, if `s` starts with one. */
  function PercentByteAt(s: string): Option<Byte> {
    if |s| >= 3 && s[0] == '%' && IsHexDigit(s[1]) && IsHexDigit(s[2])
    then Some(HexValue(s[1]) * 16 + HexValue(s[2]))
    else None
  }

  /** The `n` octets written as `%HH%HH...` at the front of `s`, if `s` starts with them. */
  function PercentRun(s: string, n: nat): (r: Option<seq<Byte>>)
    ensures r.Some? ==> |r.value| == n && 3 * n <= |s|
  {
    if n == 0 then Some([])
    else match PercentByteAt(s)
      case None => None
      case Some(b) =>
        match PercentRun(s[3..], n - 1)
        case None => None
        case Some(bs) => Some([b] + bs)
  }

  /** How many octets a UTF-8 sequence starting with `b` has; 0 when `b` cannot start one. */
  function SequenceLength(b: Byte): nat {
    if b < 0x80 then 1
    else if 0xC0 <= b < 0xE0 then 2
    else if 0xE0 <= b < 0xF0 then 3
    else if 0xF0 <= b < 0xF8 then 4
    else 0
  }

  predicate IsContinuation(b: Byte) {
    0x80 <= b < 0xC0
  }

  /** The character a complete UTF-8 sequence stands for; None for a malformed one
      (bad continuation octet, overlong form, surrogate, or beyond U+10FFFF). */
  function Utf8Decode(bs: seq<Byte>): Option<char> {
    if |bs| == 1 && bs[0] < 0x80 then Some(bs[0] as char)
    else if |bs| == 2 && 0xC0 <= bs[0] < 0xE0 && IsContinuation(bs[1]) then
      var cp: int := (bs[0] as int - 0xC0) * 64 + (bs[1] as int - 0x80);
      if cp < 0x80 then None else Some(cp as char)
    else if |bs| == 3 && 0xE0 <= bs[0] < 0xF0 && IsContinuation(bs[1]) && IsContinuation(bs[2]) then
      var cp: int := (bs[0] as int - 0xE0) * 4096 + (bs[1] as int - 0x80) * 64 + (bs[2] as int - 0x80);
      if cp < 0x800 || (0xD800 <= cp < 0xE000) then None else Some(cp as char)
    else if |bs| == 4 && 0xF0 <= bs[0] < 0xF8 && IsContinuation(bs[1]) && IsContinuation(bs[2]) && IsContinuation(bs[3]) then
      var cp: int := (bs[0] as int - 0xF0) * 262144 + (bs[1] as int - 0x80) * 4096 + (bs[2] as int - 0x80) * 64 + (bs[3] as int - 0x80);
      if cp < 0x10000 || cp > 0x10FFFF then None else Some(cp as char)
    else None
  }

  /** Decodes the character at the front of `s`: a literal character, or a
      percent-encoded UTF-8 sequence. Returns it with the number of characters consumed. */
  function DecodeUnit(s: string): (r: Option<(char, nat)>)
    requires s != []
    ensures r.Some? ==> 1 <= r.value.1 <= |s|
  {
    if s[0] != '%' then Some((s[0], 1))
    else match PercentByteAt(s)
      case None => None
      case Some(b) =>
        var n := SequenceLength(b);
        if n == 0 then None
        else match PercentRun(s, n)
          case None => None
          case Some(bs) =>
            match Utf8Decode(bs)
            case None => None
            case Some(c) => Some((c, 3 * n))
  }

  /** `decodeURIComponent(s)`; None where it throws `URIError`. Decoding never lengthens. */
  function Decode(s: string): (r: Option<string>)
    ensures r.Some? ==> |r.value| <= |s|
    decreases |s|
  {
    if s == [] then Some([])
    else match DecodeUnit(s)
      case None => None
      case Some((c, k)) =>
        match Decode(s[k..])
        case None => None
        case Some(t) => Some([c] + t)
  }

  // ---- Round trip ----

  lemma Utf8RoundTrip(c: char)
    ensures SequenceLength(Utf8(c)[0]) == |Utf8(c)|
    ensures Utf8Decode(Utf8(c)) == Some(c)
  {
    var cp := c as int;
    if cp < 0x80 {
    } else if cp < 0x800 {
      Utf8RoundTrip2(c);
    } else if cp < 0x10000 {
      Utf8RoundTrip3(c);
    } else {
      Utf8RoundTrip4(c);
    }
  }

  lemma Utf8RoundTrip2(c: char)
    requires 0x80 <= c as int < 0x800
    ensures SequenceLength(Utf8(c)[0]) == 2 && Utf8Decode(Utf8(c)) == Some(c)
  {
    var cp := c as int;
    var q, r := cp / 64, cp % 64;
    assert cp == q * 64 + r;
    assert Utf8(c) == [0xC0 + q, 0x80 + r];
  }

  lemma Utf8RoundTrip3(c: char)
    requires 0x800 <= c as int < 0x10000
    ensures SequenceLength(Utf8(c)[0]) == 3 && Utf8Decode(Utf8(c)) == Some(c)
  {
    var cp := c as int;
    var q1, r1 := cp / 64, cp % 64;
    var q2, r2 := q1 / 64, q1 % 64;
    assert cp == q1 * 64 + r1 && q1 == q2 * 64 + r2;
    assert q2 == cp / 4096;
    assert Utf8(c) == [0xE0 + q2, 0x80 + r2, 0x80 + r1];
    assert q2 * 4096 + r2 * 64 + r1 == cp;
  }

  lemma Utf8RoundTrip4(c: char)
    requires 0x10000 <= c as int
    ensures SequenceLength(Utf8(c)[0]) == 4 && Utf8Decode(Utf8(c)) == Some(c)
  {
    var cp := c as int;
    var q1, r1 := cp / 64, cp % 64;
    var q2, r2 := q1 / 64, q1 % 64;
    var q3, r3 := q2 / 64, q2 % 64;
    assert cp == q1 * 64 + r1 && q1 == q2 * 64 + r2 && q2 == q3 * 64 + r3;
    assert q2 == cp / 4096 && q3 == cp / 262144;
    assert Utf8(c) == [0xF0 + q3, 0x80 + r3, 0x80 + r2, 0x80 + r1];
    assert q3 * 262144 + r3 * 4096 + r2 * 64 + r1 == cp;
  }

  lemma PercentByteAtOf(b: Byte, rest: string)
    ensures PercentByteAt(PercentByte(b) + rest) == Some(b)
  {
    HexDigitValue(b / 16);
    HexDigitValue(b % 16);
  }

  lemma {:induction false} PercentRunOf(bs: seq<Byte>, rest: string)
    ensures PercentRun(PercentBytes(bs) + rest, |bs|) == Some(bs)
  {
    if bs != [] {
      var s := PercentBytes(bs) + rest;
      var tail := PercentBytes(bs[1..]) + rest;
      assert s == PercentByte(bs[0]) + tail;
      PercentByteAtOf(bs[0], tail);
      assert s[3..] == tail;
      PercentRunOf(bs[1..], rest);
      PercentRunStep(s, bs[0], bs[1..]);
      assert [bs[0]] + bs[1..] == bs;
    }
  }

  lemma PercentRunStep(s: string, b: Byte, bs: seq<Byte>)
    requires PercentByteAt(s) == Some(b) && PercentRun(s[3..], |bs|) == Some(bs)
    ensures PercentRun(s, |bs| + 1) == Some([b] + bs)
  {
  }

  lemma DecodeUnitOfEncoded(c: char, rest: string)
    ensures DecodeUnit(EncodeChar(c) + rest) == Some((c, |EncodeChar(c)|))
  {
    if !IsUnescaped(c) {
      Utf8RoundTrip(c);
      DecodePercentUnit(Utf8(c), c, rest);
    }
  }

  /** A well-formed UTF-8 sequence, percent-encoded, is read back as its character in one step. */
  lemma DecodePercentUnit(bs: seq<Byte>, c: char, rest: string)
    requires bs != [] && SequenceLength(bs[0]) == |bs| && Utf8Decode(bs) == Some(c)
    ensures DecodeUnit(PercentBytes(bs) + rest) == Some((c, 3 * |bs|))
  {
    PercentFront(bs, rest);
    PercentRunOf(bs, rest);
    DecodeUnitOfParts(PercentBytes(bs) + rest, bs, c);
  }

  lemma PercentFront(bs: seq<Byte>, rest: string)
    requires bs != []
    ensures (PercentBytes(bs) + rest)[0] == '%'
    ensures PercentByteAt(PercentBytes(bs) + rest) == Some(bs[0])
  {
    assert PercentBytes(bs) + rest == PercentByte(bs[0]) + (PercentBytes(bs[1..]) + rest);
    PercentByteAtOf(bs[0], PercentBytes(bs[1..]) + rest);
  }

  lemma DecodeUnitOfParts(s: string, bs: seq<Byte>, c: char)
    requires s != [] && s[0] == '%' && bs != []
    requires PercentByteAt(s) == Some(bs[0]) && SequenceLength(bs[0]) == |bs|
    requires PercentRun(s, |bs|) == Some(bs) && Utf8Decode(bs) == Some(c)
    ensures DecodeUnit(s) == Some((c, 3 * |bs|))
  {
  }

  /** `decodeURIComponent(encodeURIComponent(s)) === s` for every string. */
  lemma {:induction false} DecodeEncode(s: string)
    ensures Decode(Encode(s)) == Some(s)
  {
    if s != [] {
      var e := EncodeChar(s[0]);
      var t := Encode(s);
      assert t == e + Encode(s[1..]);
      DecodeUnitOfEncoded(s[0], Encode(s[1..]));
      assert t[|e|..] == Encode(s[1..]);
      DecodeEncode(s[1..]);
      DecodeStep(t, s[0], |e|, s[1..]);
      assert [s[0]] + s[1..] == s;
    }
  }

  lemma DecodeStep(s: string, c: char, k: nat, t: string)
    requires s != [] && DecodeUnit(s) == Some((c, k)) && Decode(s[k..]) == Some(t)
    ensures Decode(s) == Some([c] + t)
  {
  }

  /** Encoding is injective, so distinct tags get distinct route parameters. */
  lemma EncodeInjective(a: string, b: string)
    requires Encode(a) == Encode(b)
    ensures a == b
  {
    DecodeEncode(a);
    DecodeEncode(b);
  }

  /** Decoding leaves a string without `%` as it is. */
  lemma {:induction false} DecodeWithoutPercent(s: string)
    requires '%' !in s
    ensures Decode(s) == Some(s)
  {
    if s != [] {
      DecodeWithoutPercent(s[1..]);
      assert [s[0]] + s[1..] == s;
    }
  }
}
