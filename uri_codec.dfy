/** The two ECMAScript built-ins the deep link relies on:
    `encodeURIComponent`, which writes every character outside the
    unreserved set as the percent-encoded bytes of its UTF-8 form (section 2.1
    of RFC 3986, upper-case hex digits), and `decodeURIComponent`, which
    undoes it and throws a URIError on a malformed escape. Characters are
    Unicode scalar values, so the lone surrogates on which
    `encodeURIComponent` throws cannot occur. */
module UriCodec {
  import opened Wrappers

  type Byte = b: int | 0 <= b < 256

  /** The URIError `decodeURIComponent` throws. */
  datatype UriError = UriError

  /** ECMAScript's uriUnreserved: letters, digits and - _ . ! ~ * ' ( ).
      These are the characters `encodeURIComponent` leaves as they are. */
  predicate IsUnreserved(c: char) {
    || 'A' <= c <= 'Z' || 'a' <= c <= 'z' || '0' <= c <= '9'
    || c == '-' || c == '_' || c == '.' || c == '!' || c == '~'
    || c == '*' || c == '\'' || c == '(' || c == ')'
  }

  predicate IsHexDigit(c: char) {
    '0' <= c <= '9' || 'A' <= c <= 'F' || 'a' <= c <= 'f'
  }

  /** The value of a hex digit of either case. */
  function HexValue(c: char): (v: int)
    requires IsHexDigit(c)
    ensures 0 <= v < 16
  {
    if '0' <= c <= '9' then c as int - '0' as int
    else if 'A' <= c <= 'F' then c as int - 'A' as int + 10
    else c as int - 'a' as int + 10
  }

  /** The upper-case hex digit of a value below 16. */
  function HexDigit(n: int): (c: char)
    requires 0 <= n < 16
    ensures IsHexDigit(c) && IsUnreserved(c) && HexValue(c) == n
    ensures '0' <= c <= '9' || 'A' <= c <= 'F'
  {
    if n < 10 then ('0' as int + n) as char else ('A' as int + n - 10) as char
  }

  /** `%HH` for one byte. */
  function Escape(b: Byte): (e: string)
    ensures |e| == 3 && e[0] == '%' && IsUnreserved(e[1]) && IsUnreserved(e[2])
  {
    ['%', HexDigit(b / 16), HexDigit(b % 16)]
  }

  function EscapeAll(bs: seq<Byte>): (e: string)
    ensures |e| == 3 * |bs|
    ensures forall i | 0 <= i < |e| :: e[i] == '%' || IsUnreserved(e[i])
  {
    if bs == [] then [] else Escape(bs[0]) + EscapeAll(bs[1..])
  }

  /** The UTF-8 form of a scalar value (section 3 of RFC 3629): the value's
      bits cut into six-bit groups, behind a lead byte that gives the length. */
  function Utf8(c: char): (bs: seq<Byte>)
    ensures 1 <= |bs| <= 4
  {
    var v := c as int;
    var q1, r1 := v / 64, v % 64;
    var q2, r2 := q1 / 64, q1 % 64;
    var q3, r3 := q2 / 64, q2 % 64;
    if v < 0x80 then [v]
    else if v < 0x800 then [0xC0 + q1, 0x80 + r1]
    else if v < 0x10000 then [0xE0 + q2, 0x80 + r2, 0x80 + r1]
    else [0xF0 + q3, 0x80 + r3, 0x80 + r2, 0x80 + r1]
  }

  /** The length of the UTF-8 sequence a byte can lead (its count of leading
      one bits, 1 for a byte below 0x80), or 0 when it cannot lead one. */
  function SequenceLength(b: Byte): (n: nat)
    ensures n <= 4
  {
    if b < 0x80 then 1
    else if b < 0xC0 then 0
    else if b < 0xE0 then 2
    else if b < 0xF0 then 3
    else if b < 0xF8 then 4
    else 0
  }

  predicate IsContinuation(b: Byte) {
    0x80 <= b < 0xC0
  }

  /** The scalar value a UTF-8 sequence denotes, or None when the bytes are
      not the UTF-8 form of any scalar value (a wrong lead or continuation
      byte, an overlong form, a surrogate, a value beyond U+10FFFF). */
  function Utf8Decode(bs: seq<Byte>): Option<char>
  {
    if |bs| == 0 || SequenceLength(bs[0]) != |bs| then None
    else if |bs| == 1 then Some(bs[0] as char)
    else if !IsContinuation(bs[1]) then None
    else if |bs| == 2 then
      var v := (bs[0] as int - 0xC0) * 64 + (bs[1] as int - 0x80);
      if v < 0x80 then None else Some(v as char)
    else if !IsContinuation(bs[2]) then None
    else if |bs| == 3 then
      var v := (bs[0] as int - 0xE0) * 4096 + (bs[1] as int - 0x80) * 64 + (bs[2] as int - 0x80);
      if v < 0x800 || 0xD800 <= v < 0xE000 then None else Some(v as char)
    else if !IsContinuation(bs[3]) then None
    else
      var v := (bs[0] as int - 0xF0) * 262144 + (bs[1] as int - 0x80) * 4096 + (bs[2] as int - 0x80) * 64 + (bs[3] as int - 0x80);
      if v < 0x10000 || 0x110000 <= v then None else Some(v as char)
  }

  /** Decoding the UTF-8 form of a character gives the character back. */
  lemma Utf8RoundTrip(c: char)
    ensures SequenceLength(Utf8(c)[0]) == |Utf8(c)|
    ensures Utf8Decode(Utf8(c)) == Some(c)
  {
    var v := c as int;
    var q1, r1 := v / 64, v % 64;
    var q2, r2 := q1 / 64, q1 % 64;
    var q3, r3 := q2 / 64, q2 % 64;
    assert v == 64 * q1 + r1 && q1 == 64 * q2 + r2 && q2 == 64 * q3 + r3;
    if v < 0x80 {
    } else if v < 0x800 {
      assert 2 <= q1 < 32;
    } else if v < 0x10000 {
      assert q2 < 16;
      assert q2 * 4096 + r2 * 64 + r1 == v;
    } else {
      assert q3 < 8;
      assert q3 * 262144 + r3 * 4096 + r2 * 64 + r1 == v;
    }
  }

  /** `encodeURIComponent` of one character. */
  function EncodeChar(c: char): (e: string)
    ensures forall i | 0 <= i < |e| :: e[i] == '%' || IsUnreserved(e[i])
  {
    if IsUnreserved(c) then [c] else EscapeAll(Utf8(c))
  }

  /** `encodeURIComponent(s)`. The result holds only unreserved characters
      and the '%' of escapes, so in particular no '&', '=', '?' or '#'. */
  function EncodeComponent(s: string): (e: string)
    ensures forall i | 0 <= i < |e| :: e[i] == '%' || IsUnreserved(e[i])
  {
    if s == [] then [] else EncodeChar(s[0]) + EncodeComponent(s[1..])
  }

  /** A string of unreserved characters is its own encoding. */
  lemma {:induction false} EncodeUnreserved(s: string)
    requires forall i | 0 <= i < |s| :: IsUnreserved(s[i])
    ensures EncodeComponent(s) == s
  {
    if s != [] {
      EncodeUnreserved(s[1..]);
      assert [s[0]] + s[1..] == s;
    }
  }

  /** The byte written `%HH` at the start of s, if s starts so. */
  function EscapedByte(s: string): Option<Byte> {
    if |s| >= 3 && s[0] == '%' && IsHexDigit(s[1]) && IsHexDigit(s[2])
    then Some(16 * HexValue(s[1]) + HexValue(s[2]))
    else None
  }

  /** The n bytes written as n consecutive escapes at the start of s, if s starts so. */
  function EscapedBytes(s: string, n: nat): (r: Option<seq<Byte>>)
    ensures r.Some? ==> |r.value| == n && 3 * n <= |s|
  {
    if n == 0 then Some([])
    else match EscapedByte(s)
      case None => None
      case Some(b) =>
        match EscapedBytes(s[3..], n - 1)
        case None => None
        case Some(rest) => Some([b] + rest)
  }

  /** Reads the escape sequence at the start of s, which starts with '%':
      its lead byte says how many escapes make up one UTF-8 sequence.
      Gives the character and the number of characters read, or the URIError. */
  function DecodeEscape(s: string): (r: Result<(char, nat), UriError>)
    ensures r.Success? ==> 3 <= r.value.1 <= |s|
    ensures EscapedByte(s).None? ==> r.Failure?
  {
    match EscapedByte(s)
    case None => Failure(UriError)
    case Some(lead) =>
      var n := SequenceLength(lead);
      if n == 0 then Failure(UriError)
      else match EscapedBytes(s, n)
        case None => Failure(UriError)
        case Some(bs) =>
          match Utf8Decode(bs)
          case None => Failure(UriError)
          case Some(c) => Success((c, 3 * n))
  }

  /** Puts c in front of a decoded string; an error stays an error. */
  function Prepend(c: char, r: Result<string, UriError>): Result<string, UriError> {
    match r
    case Success(t) => Success([c] + t)
    case Failure(e) => Failure(e)
  }

  /** `decodeURIComponent(s)`: a string without '%' comes back unchanged. */
  function DecodeComponent(s: string): (r: Result<string, UriError>)
    ensures '%' !in s ==> r == Success(s)
    decreases |s|
  {
    if s == [] then Success([])
    else if s[0] != '%' then
      assert [s[0]] + s[1..] == s;
      Prepend(s[0], DecodeComponent(s[1..]))
    else match DecodeEscape(s)
      case Failure(e) => Failure(e)
      case Success((c, n)) => Prepend(c, DecodeComponent(s[n..]))
  }

  /** A byte's escape reads back as that byte. */
  lemma EscapeRead(b: Byte, rest: string)
    ensures EscapedByte(Escape(b) + rest) == Some(b)
  {
  }

  /** The escapes of a byte sequence read back as that sequence. */
  lemma {:induction false} EscapeAllRead(bs: seq<Byte>, rest: string)
    ensures EscapedBytes(EscapeAll(bs) + rest, |bs|) == Some(bs)
  {
    if bs != [] {
      var s := EscapeAll(bs) + rest;
      EscapeRead(bs[0], EscapeAll(bs[1..]) + rest);
      assert s == Escape(bs[0]) + (EscapeAll(bs[1..]) + rest);
      assert s[3..] == EscapeAll(bs[1..]) + rest;
      EscapeAllRead(bs[1..], rest);
      assert [bs[0]] + bs[1..] == bs;
    }
  }

  /** Decoding an encoded character and what follows it. */
  lemma DecodeEncodeChar(c: char, rest: string)
    ensures DecodeComponent(EncodeChar(c) + rest) == Prepend(c, DecodeComponent(rest))
  {
    var s := EncodeChar(c) + rest;
    if IsUnreserved(c) {
      assert s[0] == c && s[1..] == rest;
    } else {
      var bs := Utf8(c);
      Utf8RoundTrip(c);
      EscapeAllRead(bs, rest);
      EscapeRead(bs[0], EscapeAll(bs[1..]) + rest);
      assert s == Escape(bs[0]) + (EscapeAll(bs[1..]) + rest);
      assert DecodeEscape(s) == Success((c, 3 * |bs|));
      assert s[3 * |bs|..] == rest;
    }
  }

  /** `decodeURIComponent(encodeURIComponent(s)) === s` for every string. */
  lemma {:induction false} DecodeEncode(s: string)
    ensures DecodeComponent(EncodeComponent(s)) == Success(s)
  {
    if s != [] {
      DecodeEncodeChar(s[0], EncodeComponent(s[1..]));
      DecodeEncode(s[1..]);
      assert [s[0]] + s[1..] == s;
    }
  }

  /** The escapes n > 0 bytes are read from start with the escape of the
      first of them. */
  lemma EscapedBytesHead(s: string, n: nat)
    requires n > 0 && EscapedBytes(s, n).Some?
    ensures EscapedByte(s).Some? && EscapedBytes(s, n).value[0] == EscapedByte(s).value
  {
  }

  /** Reading an escape sequence fails exactly when no run of one to four
      escapes at the start of s is the UTF-8 form of a character: a lone
      or short '%', a non-hex digit, a byte that cannot lead, a missing or
      wrong continuation byte, an overlong form, a surrogate or a value
      beyond U+10FFFF all make `decodeURIComponent` throw. */
  lemma DecodeEscapeFails(s: string)
    ensures DecodeEscape(s).Failure? <==>
      forall n | 1 <= n <= 4 :: EscapedBytes(s, n).None? || Utf8Decode(EscapedBytes(s, n).value).None?
  {
    if DecodeEscape(s).Failure? {
      forall n | 1 <= n <= 4 && EscapedBytes(s, n).Some?
        ensures Utf8Decode(EscapedBytes(s, n).value).None?
      {
        EscapedBytesHead(s, n);
      }
    } else {
      var n := SequenceLength(EscapedByte(s).value);
      assert EscapedBytes(s, n).Some? && Utf8Decode(EscapedBytes(s, n).value).Some?;
    }
  }

  /** A byte that cannot lead a UTF-8 sequence (a continuation byte, or
      0xF8 and above) makes the escape fail. */
  lemma BadLeadFails(s: string)
    requires EscapedByte(s).Some? && SequenceLength(EscapedByte(s).value) == 0
    ensures DecodeEscape(s).Failure?
  {
  }

  /** A lead byte announcing more escapes than s holds makes it fail. */
  lemma TruncatedFails(s: string)
    requires EscapedByte(s).Some? && |s| < 3 * SequenceLength(EscapedByte(s).value)
    ensures DecodeEscape(s).Failure?
  {
  }

  /** Every byte sequence Utf8Decode accepts is the UTF-8 form of the
      character it gives: overlong forms are rejected, so each character
      has exactly one form. */
  lemma Utf8Canonical(bs: seq<Byte>)
    requires Utf8Decode(bs).Some?
    ensures Utf8(Utf8Decode(bs).value) == bs
  {
    var v := Utf8Decode(bs).value as int;
    if |bs| == 2 {
      var b0, b1 := bs[0] as int, bs[1] as int;
      assert v == (b0 - 0xC0) * 64 + (b1 - 0x80);
      assert v / 64 == b0 - 0xC0 && v % 64 == b1 - 0x80;
    } else if |bs| == 3 {
      var b0, b1, b2 := bs[0] as int, bs[1] as int, bs[2] as int;
      var q1 := (b0 - 0xE0) * 64 + (b1 - 0x80);
      assert v == q1 * 64 + (b2 - 0x80);
      assert v / 64 == q1 && v % 64 == b2 - 0x80;
      assert q1 / 64 == b0 - 0xE0 && q1 % 64 == b1 - 0x80;
    } else if |bs| == 4 {
      var b0, b1, b2, b3 := bs[0] as int, bs[1] as int, bs[2] as int, bs[3] as int;
      var q2 := (b0 - 0xF0) * 64 + (b1 - 0x80);
      var q1 := q2 * 64 + (b2 - 0x80);
      assert v == q1 * 64 + (b3 - 0x80);
      assert v / 64 == q1 && v % 64 == b3 - 0x80;
      assert q1 / 64 == q2 && q1 % 64 == b2 - 0x80;
      assert q2 / 64 == b0 - 0xF0 && q2 % 64 == b1 - 0x80;
    }
  }

  /** The three escapes a surrogate code point would have in UTF-8 make
      `decodeURIComponent` throw, whatever follows them. */
  lemma SurrogateFails(v: int, rest: string)
    requires 0xD800 <= v < 0xE000
    ensures DecodeComponent(EscapeAll([0xE0 + v / 4096, 0x80 + v / 64 % 64, 0x80 + v % 64]) + rest).Failure?
  {
    var bs: seq<Byte> := [0xE0 + v / 4096, 0x80 + v / 64 % 64, 0x80 + v % 64];
    var s := EscapeAll(bs) + rest;
    EscapeAllRead(bs, rest);
    EscapedBytesHead(s, 3);
    assert v == 4096 * (v / 4096) + 64 * (v / 64 % 64) + v % 64;
    assert Utf8Decode(bs).None?;
  }

  /** Puts p in front of a decoded string; an error stays an error. */
  function PrependAll(p: string, r: Result<string, UriError>): Result<string, UriError> {
    match r
    case Success(t) => Success(p + t)
    case Failure(e) => Failure(e)
  }

  /** A character other than '%' is copied through. */
  lemma DecodePlainChar(c: char, rest: string)
    requires c != '%'
    ensures DecodeComponent([c] + rest) == Prepend(c, DecodeComponent(rest))
  {
    assert ([c] + rest)[1..] == rest;
  }

  /** Putting one more character in front of a prefix already put in front. */
  lemma PrependPrependAll(c: char, p: string, r: Result<string, UriError>)
    ensures Prepend(c, PrependAll(p, r)) == PrependAll([c] + p, r)
  {
    match r
    case Failure(e) =>
    case Success(t) =>
      assert [c] + (p + t) == ([c] + p) + t;
  }

  /** Text without '%' before the rest is copied through: the decoding of
      the rest, with that text in front, and a URIError in the rest is a
      URIError of the whole. */
  lemma {:induction false} DecodePlainPrefix(p: string, s: string)
    requires '%' !in p
    ensures DecodeComponent(p + s) == PrependAll(p, DecodeComponent(s))
  {
    if p == [] {
      assert p + s == s;
      match DecodeComponent(s)
      case Failure(e) =>
      case Success(t) =>
        assert p + t == t;
    } else {
      assert p + s == [p[0]] + (p[1..] + s);
      assert p == [p[0]] + p[1..];
      DecodePlainChar(p[0], p[1..] + s);
      DecodePlainPrefix(p[1..], s);
      PrependPrependAll(p[0], p[1..], DecodeComponent(s));
    }
  }

  /** `decodeURIComponent` throws when the first '%' of its input does not
      start a well-formed escape sequence. */
  lemma FirstEscapeFails(p: string, s: string)
    requires '%' !in p && |s| > 0 && s[0] == '%' && DecodeEscape(s).Failure?
    ensures DecodeComponent(p + s).Failure?
  {
    DecodePlainPrefix(p, s);
  }
}
