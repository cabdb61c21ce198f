/**
  ECMAScript `encodeURIComponent` and `decodeURIComponent`, through the
  ECMA-262 abstract operations Encode and Decode. A character outside the
  unreserved set `A-Z a-z 0-9 - _ . ! ~ * ' ( )` is written as the UTF-8
  bytes of its code point, each as `%HH` with upper-case hex digits. A Dafny
  `char` is a Unicode scalar value, so there is no lone surrogate and
  encoding never fails.
*/
module UriComponent {
  import opened Options

  /** The characters `encodeURIComponent` leaves as they are. */
  predicate IsUnreserved(c: char) {
    || ('A' <= c <= 'Z') || ('a' <= c <= 'z') || ('0' <= c <= '9')
    || c == '-' || c == '_' || c == '.' || c == '!' || c == '~'
    || c == '*' || c == '\'' || c == '(' || c == ')'
  }

  /** An octet. */
  type Byte = b: int | 0 <= b < 256

  // -------------------------------------------------------------- UTF-8

  /** The UTF-8 encoding of a code point: one to four octets. */
  function Utf8(c: char): (bs: seq<Byte>)
    ensures 1 <= |bs| <= 4
    ensures |bs| == 1 <==> c as int < 0x80
  {
    var n := c as int;
    if n < 0x80 then [n]
    else if n < 0x800 then [0xC0 + n / 64, 0x80 + n % 64]
    else if n < 0x10000 then [0xE0 + n / 4096, 0x80 + (n / 64) % 64, 0x80 + n % 64]
    else [0xF0 + n / 262144, 0x80 + (n / 4096) % 64, 0x80 + (n / 64) % 64, 0x80 + n % 64]
  }

  /** The length of the sequence a lead octet announces; 0 when it cannot lead one. */
  function SeqLen(b: Byte): nat {
    if b < 0x80 then 1
    else if b < 0xC0 then 0
    else if b < 0xE0 then 2
    else if b < 0xF0 then 3
    else if b < 0xF8 then 4
    else 0
  }

  /** The payload bits of the lead octet of a sequence of `n` octets. */
  function LeadBits(b: Byte, n: nat): int {
    if n == 1 then b else if n == 2 then b - 0xC0 else if n == 3 then b - 0xE0 else b - 0xF0
  }

  /** The code point the octets spell, continuation octets contributing six bits each. */
  function Accumulate(v: int, bs: seq<Byte>): int
    decreases |bs|
  {
    if bs == [] then v else Accumulate(v * 64 + (bs[0] as int - 0x80), bs[1..])
  }

  /** The smallest code point that needs `n` octets. */
  function MinCodePoint(n: nat): int {
    if n == 1 then 0 else if n == 2 then 0x80 else if n == 3 then 0x800 else 0x10000
  }

  /**
    The code point of a UTF-8 sequence, or `None` when it is not the valid,
    shortest encoding of a Unicode scalar value (`decodeURIComponent` then
    throws `URIError`).
  */
  function Utf8Char(bs: seq<Byte>): (r: Option<char>)
    ensures r.Some? ==> 1 <= |bs| <= 4 && SeqLen(bs[0]) == |bs|
  {
    if |bs| == 0 || SeqLen(bs[0]) != |bs| then None
    else if exists i :: 1 <= i < |bs| && !(0x80 <= bs[i] < 0xC0) then None
    else
      var cp := Accumulate(LeadBits(bs[0], |bs|), bs[1..]);
      if cp < MinCodePoint(|bs|) || cp >= 0x110000 || (0xD800 <= cp < 0xE000) then None
      else Some(cp as char)
  }

  lemma Utf8OneOctet(c: char)
    requires c as int < 0x80
    ensures Utf8Char(Utf8(c)) == Some(c)
  {
  }

  lemma Utf8TwoOctets(c: char)
    requires 0x80 <= c as int < 0x800
    ensures Utf8Char(Utf8(c)) == Some(c)
  {
    var n := c as int;
    var bs := Utf8(c);
    assert bs[1..] == [0x80 + n % 64];
    assert Accumulate(LeadBits(bs[0], 2), bs[1..]) == (n / 64) * 64 + n % 64;
  }

  lemma Utf8ThreeOctets(c: char)
    requires 0x800 <= c as int < 0x10000
    ensures Utf8Char(Utf8(c)) == Some(c)
  {
    var n := c as int;
    var bs := Utf8(c);
    var a := n / 4096;
    var b := (n / 64) % 64;
    var d := n % 64;
    assert bs[1..] == [0x80 + b, 0x80 + d];
    assert bs[1..][1..] == [0x80 + d];
    assert Accumulate(a * 64 + b, [0x80 + d]) == (a * 64 + b) * 64 + d;
    assert Accumulate(a, bs[1..]) == Accumulate(a * 64 + b, [0x80 + d]);
    assert n / 4096 == (n / 64) / 64;
    assert a * 64 + b == n / 64;
  }

  lemma Utf8FourOctets(c: char)
    requires 0x10000 <= c as int
    ensures Utf8Char(Utf8(c)) == Some(c)
  {
    var n := c as int;
    var bs := Utf8(c);
    var a := n / 262144;
    var b := (n / 4096) % 64;
    var d := (n / 64) % 64;
    var e := n % 64;
    assert bs[1..] == [0x80 + b, 0x80 + d, 0x80 + e];
    assert bs[1..][1..] == [0x80 + d, 0x80 + e];
    assert bs[1..][1..][1..] == [0x80 + e];
    assert Accumulate((a * 64 + b) * 64 + d, [0x80 + e]) == ((a * 64 + b) * 64 + d) * 64 + e;
    assert Accumulate(a * 64 + b, [0x80 + d, 0x80 + e]) == Accumulate((a * 64 + b) * 64 + d, [0x80 + e]);
    assert Accumulate(a, bs[1..]) == Accumulate(a * 64 + b, [0x80 + d, 0x80 + e]);
    assert n / 262144 == (n / 4096) / 64;
    assert n / 4096 == (n / 64) / 64;
    assert a * 64 + b == n / 4096;
    assert (n / 4096) * 64 + d == n / 64;
  }

  /** Decoding the UTF-8 encoding of a character gives the character back. */
  lemma Utf8RoundTrip(c: char)
    ensures Utf8Char(Utf8(c)) == Some(c)
  {
    var n := c as int;
    if n < 0x80 {
      Utf8OneOctet(c);
    } else if n < 0x800 {
      Utf8TwoOctets(c);
    } else if n < 0x10000 {
      Utf8ThreeOctets(c);
    } else {
      Utf8FourOctets(c);
    }
  }

  // ------------------------------------------------------- percent escapes

  /** Upper-case hex digit of `0 <= d < 16`. */
  function HexDigit(d: int): (c: char)
    requires 0 <= d < 16
  {
    if d < 10 then ('0' as int + d) as char else ('A' as int + d - 10) as char
  }

  /** Value of a hex digit of either case. */
  function HexValue(c: char): (r: Option<int>)
    ensures r.Some? ==> 0 <= r.value < 16
  {
    if '0' <= c <= '9' then Some(c as int - '0' as int)
    else if 'A' <= c <= 'F' then Some(c as int - 'A' as int + 10)
    else if 'a' <= c <= 'f' then Some(c as int - 'a' as int + 10)
    else None
  }

  lemma HexRoundTrip(d: int)
    requires 0 <= d < 16
    ensures HexValue(HexDigit(d)) == Some(d)
  {
  }

  /** `%HH` for one octet. */
  function Escape(b: Byte): (s: string)
    ensures |s| == 3 && s[0] == '%'
  {
    ['%', HexDigit(b / 16), HexDigit(b % 16)]
  }

  /** The escapes of several octets, in order. */
  function Escapes(bs: seq<Byte>): (s: string)
    ensures |s| == 3 * |bs|
  {
    if bs == [] then [] else Escape(bs[0]) + Escapes(bs[1..])
  }

  /** The octet of a `%HH` at the start of `s`, if there is one. */
  function ReadByte(s: string): (r: Option<Byte>)
    ensures r.Some? ==> |s| >= 3
  {
    if |s| < 3 || s[0] != '%' then None
    else match (HexValue(s[1]), HexValue(s[2]))
      case (Some(h), Some(l)) => Some(16 * h + l)
      case _ => None
  }

  /** `n` consecutive `%HH` escapes at the start of `s`. */
  function ReadBytes(s: string, n: nat): (r: Option<seq<Byte>>)
    ensures r.Some? ==> |r.value| == n && |s| >= 3 * n
  {
    if n == 0 then Some([])
    else match ReadByte(s)
      case None => None
      case Some(b) =>
        match ReadBytes(s[3..], n - 1)
        case None => None
        case Some(rest) => Some([b] + rest)
  }

  lemma ReadByteEscape(b: Byte, rest: string)
    ensures ReadByte(Escape(b) + rest) == Some(b)
  {
    HexRoundTrip(b / 16);
    HexRoundTrip(b % 16);
  }

  lemma {:induction false} ReadBytesEscapes(bs: seq<Byte>, rest: string)
    ensures ReadBytes(Escapes(bs) + rest, |bs|) == Some(bs)
  {
    if bs != [] {
      var s := Escapes(bs) + rest;
      var tail := Escapes(bs[1..]) + rest;
      assert s == Escape(bs[0]) + tail;
      ReadByteEscape(bs[0], tail);
      assert s[3..] == tail;
      ReadBytesEscapes(bs[1..], rest);
      assert [bs[0]] + bs[1..] == bs;
    }
  }

  // ------------------------------------------------------------- the codec

  /** `encodeURIComponent` of one character. */
  function EncodeChar(c: char): (s: string)
    ensures |s| > 0
  {
    if IsUnreserved(c) then [c] else Escapes(Utf8(c))
  }

  /** `encodeURIComponent(s)`. */
  function Encode(s: string): (r: string)
    ensures forall i :: 0 <= i < |r| ==> r[i] != '&' && r[i] != '='
  {
    if s == [] then []
    else
      EncodedCharsSafe(s[0]);
      EncodeChar(s[0]) + Encode(s[1..])
  }

  /** No character of an encoding is `&` or `=`. */
  lemma EncodedCharsSafe(c: char)
    ensures forall i :: 0 <= i < |EncodeChar(c)| ==> EncodeChar(c)[i] != '&' && EncodeChar(c)[i] != '='
  {
    if !IsUnreserved(c) {
      EscapesSafe(Utf8(c));
    }
  }

  lemma {:induction false} EscapesSafe(bs: seq<Byte>)
    ensures forall i :: 0 <= i < |Escapes(bs)| ==> Escapes(bs)[i] != '&' && Escapes(bs)[i] != '='
  {
    if bs != [] {
      EscapesSafe(bs[1..]);
    }
  }

  /**
    One `%`-escaped UTF-8 sequence at the start of `s`: the character and the
    number of characters it spans; `None` where `decodeURIComponent` throws.
  */
  function DecodeEscape(s: string): (r: Option<(char, nat)>)
    ensures r.Some? ==> 3 <= r.value.1 <= |s|
  {
    match ReadByte(s)
    case None => None
    case Some(b) =>
      var n := SeqLen(b);
      if n == 0 then None
      else match ReadBytes(s, n)
        case None => None
        case Some(bs) =>
          match Utf8Char(bs)
          case None => None
          case Some(c) => Some((c, 3 * n))
  }

  /** `decodeURIComponent(s)`; `None` where it throws `URIError`. */
  function Decode(s: string): Option<string>
    decreases |s|
  {
    if s == [] then Some([])
    else if s[0] != '%' then
      match Decode(s[1..])
      case None => None
      case Some(t) => Some([s[0]] + t)
    else
      match DecodeEscape(s)
      case None => None
      case Some((c, k)) =>
        match Decode(s[k..])
        case None => None
        case Some(t) => Some([c] + t)
  }

  /** The escapes of a reserved character decode to that character. */
  lemma DecodeEscapeChar(c: char, rest: string)
    requires !IsUnreserved(c)
    ensures DecodeEscape(EncodeChar(c) + rest) == Some((c, |EncodeChar(c)|))
  {
    var bs := Utf8(c);
    var s := Escapes(bs) + rest;
    assert s == Escape(bs[0]) + (Escapes(bs[1..]) + rest);
    ReadByteEscape(bs[0], Escapes(bs[1..]) + rest);
    Utf8RoundTrip(c);
    ReadBytesEscapes(bs, rest);
  }

  /** Decoding reads one encoded character back, then carries on behind it. */
  lemma DecodeEncodedChar(c: char, rest: string, t: string)
    requires Decode(rest) == Some(t)
    ensures Decode(EncodeChar(c) + rest) == Some([c] + t)
  {
    var e := EncodeChar(c) + rest;
    if IsUnreserved(c) {
      assert e[0] == c && e[1..] == rest;
    } else {
      var bs := Utf8(c);
      assert EncodeChar(c) == Escape(bs[0]) + Escapes(bs[1..]);
      assert e[0] == '%';
      DecodeEscapeChar(c, rest);
      assert e[|EncodeChar(c)|..] == rest;
    }
  }

  /** `decodeURIComponent(encodeURIComponent(s)) === s`. */
  lemma {:induction false} DecodeEncode(s: string)
    ensures Decode(Encode(s)) == Some(s)
  {
    if s != [] {
      DecodeEncode(s[1..]);
      DecodeEncodedChar(s[0], Encode(s[1..]), s[1..]);
      assert [s[0]] + s[1..] == s;
    }
  }

  /** Different strings have different encodings. */
  lemma EncodeInjective(s: string, t: string)
    requires Encode(s) == Encode(t)
    ensures s == t
  {
    DecodeEncode(s);
    DecodeEncode(t);
  }
}
