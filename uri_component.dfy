/**
 * JavaScript's `encodeURIComponent`: characters of the unreserved set stay as
 * they are, every other character becomes the percent-escapes of its UTF-8
 * bytes, written with upper-case hexadecimal digits. `PercentDecode` is its
 * partner: it turns an escaped string back into the bytes it stands for.
 */
module UriComponent {
  import opened Wrappers

  newtype byte = x: int | 0 <= x < 256

  /** The characters `encodeURIComponent` leaves alone: `A-Z a-z 0-9 - _ . ! ~ * ' ( )`. */
  predicate Unreserved(c: char)
  {
    ('A' <= c <= 'Z') || ('a' <= c <= 'z') || ('0' <= c <= '9') || c in "-_.!~*'()"
  }

  /** The UTF-8 encoding of one Unicode scalar value. */
  function Utf8(c: char): (r: seq<byte>)
    ensures 1 <= |r| <= 4
    ensures c as int < 0x80 ==> r == [c as int as byte]
  {
    var n := c as int;
    if n < 0x80 then [n as byte]
    else if n < 0x800 then [(0xC0 + n / 64) as byte, (0x80 + n % 64) as byte]
    else if n < 0x10000 then
      [(0xE0 + n / 4096) as byte, (0x80 + (n / 64) % 64) as byte, (0x80 + n % 64) as byte]
    else
      [(0xF0 + n / 262144) as byte, (0x80 + (n / 4096) % 64) as byte,
       (0x80 + (n / 64) % 64) as byte, (0x80 + n % 64) as byte]
  }

  /** The UTF-8 encoding of a string. */
  function Utf8String(s: string): seq<byte>
  {
    if s == "" then [] else Utf8(s[0]) + Utf8String(s[1..])
  }

  /** A UTF-8 continuation byte, `10xxxxxx`. */
  predicate Continuation(b: byte)
  {
    0x80 <= b < 0xC0
  }

  /** The character for code point `n`, if `n` is a Unicode scalar value of at least `least`. */
  function Scalar(n: int, least: int): Option<char>
  {
    if least <= n && (0 <= n < 0xD800 || 0xE000 <= n < 0x110000) then Some(n as char) else None
  }

  /**
   * The first character of a UTF-8 byte string and the number of bytes it
   * takes: a lead byte followed by its continuation bytes, shortest form only.
   */
  function Utf8DecodeFirst(bs: seq<byte>): (r: Option<(char, nat)>)
    requires |bs| >= 1
    ensures r.Some? ==> 1 <= r.value.1 <= |bs| && r.value.1 <= 4
  {
    var b0 := bs[0] as int;
    if b0 < 0x80 then Some((b0 as char, 1))
    else if 0xC0 <= b0 < 0xE0 && |bs| >= 2 && Continuation(bs[1]) then
      match Scalar((b0 - 0xC0) * 64 + (bs[1] as int - 0x80), 0x80)
      case Some(c) => Some((c, 2))
      case None => None
    else if 0xE0 <= b0 < 0xF0 && |bs| >= 3 && Continuation(bs[1]) && Continuation(bs[2]) then
      match Scalar((b0 - 0xE0) * 4096 + (bs[1] as int - 0x80) * 64 + (bs[2] as int - 0x80), 0x800)
      case Some(c) => Some((c, 3))
      case None => None
    else if 0xF0 <= b0 < 0xF8 && |bs| >= 4 && Continuation(bs[1]) && Continuation(bs[2]) && Continuation(bs[3]) then
      match Scalar((b0 - 0xF0) * 262144 + (bs[1] as int - 0x80) * 4096 + (bs[2] as int - 0x80) * 64
                   + (bs[3] as int - 0x80), 0x10000)
      case Some(c) => Some((c, 4))
      case None => None
    else None
  }

  /** The string a UTF-8 byte string stands for; `None` when it is not well-formed UTF-8. */
  function Utf8Decode(bs: seq<byte>): Option<string>
    decreases |bs|
  {
    if bs == [] then Some("")
    else
      match Utf8DecodeFirst(bs)
      case None => None
      case Some((c, w)) =>
        match Utf8Decode(bs[w..])
        case Some(rest) => Some([c] + rest)
        case None => None
  }

  /** A code point below 2^21 is its 6-bit groups, most significant first. */
  lemma SixBitGroups(n: nat)
    ensures n == (n / 64 / 64 / 64) * 262144 + (n / 64 / 64 % 64) * 4096 + (n / 64 % 64) * 64 + n % 64
    ensures n / 64 / 64 == n / 4096 && n / 64 / 64 / 64 == n / 262144
  {
    var q1 := n / 64;
    var q2 := q1 / 64;
    var q3 := q2 / 64;
    assert n == q1 * 64 + n % 64;
    assert q1 == q2 * 64 + q1 % 64;
    assert q2 == q3 * 64 + q2 % 64;
    assert n == q2 * 4096 + (q1 % 64) * 64 + n % 64;
    assert n == q3 * 262144 + (q2 % 64) * 4096 + (q1 % 64) * 64 + n % 64;
  }

  /** Two bytes `110xxxxx 10xxxxxx` carrying a scalar from 0x80 decode to it. */
  lemma DecodeTwo(c: char, bs: seq<byte>)
    requires 0x80 <= c as int < 0x800 && |bs| >= 2
    requires bs[0] as int == 0xC0 + c as int / 64 && bs[1] as int == 0x80 + c as int % 64
    ensures Utf8DecodeFirst(bs) == Some((c, 2))
  {
    var n := c as int;
    assert (bs[0] as int - 0xC0) * 64 + (bs[1] as int - 0x80) == n;
  }

  /** Three bytes `1110xxxx 10xxxxxx 10xxxxxx` carrying a scalar from 0x800 decode to it. */
  lemma DecodeThree(c: char, bs: seq<byte>)
    requires 0x800 <= c as int < 0x10000 && |bs| >= 3
    requires bs[0] as int == 0xE0 + c as int / 4096 && bs[1] as int == 0x80 + (c as int / 64) % 64
    requires bs[2] as int == 0x80 + c as int % 64
    ensures Utf8DecodeFirst(bs) == Some((c, 3))
  {
    var n := c as int;
    SixBitGroups(n);
    assert (bs[0] as int - 0xE0) * 4096 + (bs[1] as int - 0x80) * 64 + (bs[2] as int - 0x80) == n;
  }

  /** Four bytes `11110xxx 10xxxxxx 10xxxxxx 10xxxxxx` carrying a scalar from 0x10000 decode to it. */
  lemma DecodeFour(c: char, bs: seq<byte>)
    requires 0x10000 <= c as int && |bs| >= 4
    requires bs[0] as int == 0xF0 + c as int / 262144 && bs[1] as int == 0x80 + (c as int / 4096) % 64
    requires bs[2] as int == 0x80 + (c as int / 64) % 64 && bs[3] as int == 0x80 + c as int % 64
    ensures Utf8DecodeFirst(bs) == Some((c, 4))
  {
    var n := c as int;
    SixBitGroups(n);
    assert (bs[0] as int - 0xF0) * 262144 + (bs[1] as int - 0x80) * 4096 + (bs[2] as int - 0x80) * 64
           + (bs[3] as int - 0x80) == n;
  }

  /** The first character of `Utf8(c)` followed by anything is `c`, and it takes all of `Utf8(c)`. */
  lemma Utf8DecodeChar(c: char, tail: seq<byte>)
    ensures Utf8DecodeFirst(Utf8(c) + tail) == Some((c, |Utf8(c)|))
  {
    var n := c as int;
    var bs := Utf8(c) + tail;
    SixBitGroups(n);
    if n < 0x80 {
    } else if n < 0x800 {
      DecodeTwo(c, bs);
    } else if n < 0x10000 {
      DecodeThree(c, bs);
    } else {
      DecodeFour(c, bs);
    }
  }

  /** Round trip of UTF-8: decoding the encoding of a string gives the string back. */
  lemma {:induction false} Utf8DecodeEncode(s: string)
    ensures Utf8Decode(Utf8String(s)) == Some(s)
    decreases |s|
  {
    if s != "" {
      var rest := Utf8String(s[1..]);
      Utf8DecodeChar(s[0], rest);
      assert (Utf8(s[0]) + rest)[|Utf8(s[0])|..] == rest;
      Utf8DecodeEncode(s[1..]);
      assert [s[0]] + s[1..] == s;
    }
  }

  /** Distinct strings have distinct UTF-8 encodings. */
  lemma Utf8StringInjective(s: string, t: string)
    ensures Utf8String(s) == Utf8String(t) ==> s == t
  {
    Utf8DecodeEncode(s);
    Utf8DecodeEncode(t);
  }

  /** The upper-case hexadecimal digit for `n`. */
  function HexDigit(n: int): (c: char)
    requires 0 <= n < 16
    ensures Unreserved(c)
  {
    if n < 10 then ('0' as int + n) as char else ('A' as int + n - 10) as char
  }

  function HexValue(c: char): Option<int>
  {
    if '0' <= c <= '9' then Some(c as int - '0' as int)
    else if 'A' <= c <= 'F' then Some(c as int - 'A' as int + 10)
    else if 'a' <= c <= 'f' then Some(c as int - 'a' as int + 10)
    else None
  }

  /** `%XY` for every byte, in order. */
  function Escape(bs: seq<byte>): (r: string)
    ensures |r| == 3 * |bs|
    ensures forall i :: 0 <= i < |r| ==> Unreserved(r[i]) || r[i] == '%'
  {
    if bs == [] then ""
    else
      var b := bs[0] as int;
      ['%', HexDigit(b / 16), HexDigit(b % 16)] + Escape(bs[1..])
  }

  function EncodeChar(c: char): string
  {
    if Unreserved(c) then [c] else Escape(Utf8(c))
  }

  /**
   * `encodeURIComponent(s)`. Its output consists of unreserved characters and
   * `%` only, so in particular it never contains a path separator.
   */
  function EncodeUriComponent(s: string): (r: string)
    ensures forall i :: 0 <= i < |r| ==> Unreserved(r[i]) || r[i] == '%'
    ensures |r| >= |s|
  {
    if s == "" then "" else EncodeChar(s[0]) + EncodeUriComponent(s[1..])
  }

  function Prepend(bs: seq<byte>, rest: Option<seq<byte>>): Option<seq<byte>>
  {
    match rest
    case Some(tail) => Some(bs + tail)
    case None => None
  }

  /**
   * The bytes a percent-encoded string stands for: `%XY` is the byte with hex
   * value XY, an ASCII character other than `%` its own code. `None` for a
   * malformed escape or a character outside ASCII.
   */
  function PercentDecode(s: string): Option<seq<byte>>
    decreases |s|
  {
    if s == "" then Some([])
    else if s[0] == '%' then
      if |s| >= 3 && HexValue(s[1]).Some? && HexValue(s[2]).Some? then
        Prepend([(HexValue(s[1]).value * 16 + HexValue(s[2]).value) as byte], PercentDecode(s[3..]))
      else None
    else if s[0] as int < 0x80 then Prepend([s[0] as int as byte], PercentDecode(s[1..]))
    else None
  }

  /** Every unreserved string is its own encoding. */
  lemma {:induction false} EncodeUnreservedIdentity(s: string)
    requires forall i :: 0 <= i < |s| ==> Unreserved(s[i])
    ensures EncodeUriComponent(s) == s
    decreases |s|
  {
    if s != "" {
      EncodeUnreservedIdentity(s[1..]);
      assert [s[0]] + s[1..] == s;
    }
  }

  lemma PrependAppend(a: seq<byte>, b: seq<byte>, o: Option<seq<byte>>)
    ensures Prepend(a + b, o) == Prepend(a, Prepend(b, o))
  {
    match o
    case Some(t) => assert (a + b) + t == a + (b + t);
    case None =>
  }

  /** A hex digit reads back as its value. */
  lemma HexRoundTrip(n: int)
    requires 0 <= n < 16
    ensures HexValue(HexDigit(n)) == Some(n)
  {
  }

  /** One `%XY` triple in front of `tail` decodes to its byte in front of the decoding of `tail`. */
  lemma DecodeTriple(b: byte, tail: string)
    ensures PercentDecode(['%', HexDigit(b as int / 16), HexDigit(b as int % 16)] + tail)
         == Prepend([b], PercentDecode(tail))
  {
    var n := b as int;
    var s := ['%', HexDigit(n / 16), HexDigit(n % 16)] + tail;
    assert s[0] == '%' && s[1] == HexDigit(n / 16) && s[2] == HexDigit(n % 16) && s[3..] == tail;
    HexRoundTrip(n / 16);
    HexRoundTrip(n % 16);
    assert (n / 16) * 16 + n % 16 == n;
  }

  /** Concatenation may be grouped either way. */
  lemma AppendAssoc<T>(a: seq<T>, b: seq<T>, c: seq<T>)
    ensures (a + b) + c == a + (b + c)
  {
  }

  /** Decoding the escapes of `bs` in front of `rest` yields `bs` in front of the decoding of `rest`. */
  lemma {:induction false} DecodeEscape(bs: seq<byte>, rest: string)
    ensures PercentDecode(Escape(bs) + rest) == Prepend(bs, PercentDecode(rest))
    decreases |bs|
  {
    if bs == [] {
      assert Escape(bs) + rest == rest;
      match PercentDecode(rest)
      case Some(t) => assert bs + t == t;
      case None =>
    } else {
      DecodeEscape(bs[1..], rest);
      DecodeEscapeStep(bs, rest);
    }
  }

  /** One step of `DecodeEscape`: the escape of the first byte, then the rest as already decoded. */
  lemma DecodeEscapeStep(bs: seq<byte>, rest: string)
    requires bs != []
    requires PercentDecode(Escape(bs[1..]) + rest) == Prepend(bs[1..], PercentDecode(rest))
    ensures PercentDecode(Escape(bs) + rest) == Prepend(bs, PercentDecode(rest))
  {
    var b := bs[0] as int;
    var triple := ['%', HexDigit(b / 16), HexDigit(b % 16)];
    assert Escape(bs) == triple + Escape(bs[1..]);
    AppendAssoc(triple, Escape(bs[1..]), rest);
    DecodeTriple(bs[0], Escape(bs[1..]) + rest);
    assert bs == [bs[0]] + bs[1..];
    PrependAppend([bs[0]], bs[1..], PercentDecode(rest));
  }

  /**
   * Round trip: the percent-escapes produced by `EncodeUriComponent` decode to
   * exactly the UTF-8 bytes of the input.
   */
  lemma {:induction false} DecodeEncode(s: string)
    ensures PercentDecode(EncodeUriComponent(s)) == Some(Utf8String(s))
    decreases |s|
  {
    if s != "" {
      var rest := EncodeUriComponent(s[1..]);
      DecodeEncode(s[1..]);
      var c := s[0];
      if Unreserved(c) {
        var e := [c] + rest;
        assert e[0] == c && e[1..] == rest;
        assert c != '%' && c as int < 0x80;
      } else {
        DecodeEscape(Utf8(c), rest);
      }
    }
  }

  /**
   * The partner of `EncodeUriComponent`: percent-decode, then read the bytes
   * as UTF-8. `None` for a malformed escape, a character outside ASCII, or
   * bytes that are not UTF-8.
   */
  function DecodeComponent(s: string): Option<string>
  {
    match PercentDecode(s)
    case None => None
    case Some(bs) => Utf8Decode(bs)
  }

  /** Round trip: every string is recovered from its encoding. */
  lemma DecodeComponentEncode(s: string)
    ensures DecodeComponent(EncodeUriComponent(s)) == Some(s)
  {
    DecodeEncode(s);
    Utf8DecodeEncode(s);
  }

  /** Distinct strings have distinct encodings. */
  lemma EncodeUriComponentInjective(s: string, t: string)
    ensures EncodeUriComponent(s) == EncodeUriComponent(t) ==> s == t
  {
    DecodeComponentEncode(s);
    DecodeComponentEncode(t);
  }
}
