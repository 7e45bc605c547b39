/**
 * `urllib.parse.quote` (default `safe='/'`) and `quote_plus` (`safe=''`, a space
 * becomes `+`): every character outside the always-safe set is written as the
 * `%XX` escapes of its UTF-8 bytes. `Decode` is the matching `unquote` /
 * `unquote_plus`, and `DecodeEncode` proves that it undoes the encoder, so the
 * encoders are injective.
 */
module UrlEncoding {
  import opened Wrappers

  /** quote(s) keeps '/' literal; quote_plus(s) escapes it and writes a space as '+'. */
  datatype Flavor = Quote | QuotePlus

  /** Letters, digits and `_.-~` are never escaped. */
  predicate IsAlwaysSafe(c: char) {
    ('A' <= c <= 'Z') || ('a' <= c <= 'z') || ('0' <= c <= '9') || c == '_' || c == '.' || c == '-' || c == '~'
  }

  predicate KeepsLiteral(f: Flavor, c: char) {
    IsAlwaysSafe(c) || (f == Quote && c == '/')
  }

  /** The characters an encoder may emit: no `&`, `?`, `=` or `#`, so an encoded value never splits a URL. */
  predicate IsEncodedChar(c: char) {
    IsAlwaysSafe(c) || c == '/' || c == '%' || c == '+'
  }

  predicate IsByte(b: int) { 0 <= b < 256 }

  /** The UTF-8 encoding of one character. */
  function Utf8Char(c: char): (bs: seq<int>)
    ensures 1 <= |bs| <= 4
    ensures forall i :: 0 <= i < |bs| ==> IsByte(bs[i])
    ensures |bs| == 1 <==> (c as int) < 0x80
  {
    var n := c as int;
    if n < 0x80 then [n]
    else if n < 0x800 then [0xC0 + n / 64, 0x80 + n % 64]
    else if n < 0x10000 then [0xE0 + n / 4096, 0x80 + (n / 64) % 64, 0x80 + n % 64]
    else [0xF0 + n / 262144, 0x80 + (n / 4096) % 64, 0x80 + (n / 64) % 64, 0x80 + n % 64]
  }

  function Utf8(s: string): (bs: seq<int>)
    ensures forall i :: 0 <= i < |bs| ==> IsByte(bs[i])
  {
    if s == [] then [] else Utf8Char(s[0]) + Utf8(s[1..])
  }

  const HexDigits: string := "0123456789ABCDEF"

  /** `%XX` with upper-case hex digits, as Python writes it. */
  function PercentByte(b: int): (r: string)
    requires IsByte(b)
    ensures |r| == 3 && r[0] == '%' && IsAlwaysSafe(r[1]) && IsAlwaysSafe(r[2])
  {
    ['%', HexDigits[b / 16], HexDigits[b % 16]]
  }

  function PercentBytes(bs: seq<int>): string
    requires forall i :: 0 <= i < |bs| ==> IsByte(bs[i])
  {
    if bs == [] then [] else PercentByte(bs[0]) + PercentBytes(bs[1..])
  }

  lemma {:induction false} PercentBytesEncoded(bs: seq<int>)
    requires forall i :: 0 <= i < |bs| ==> IsByte(bs[i])
    ensures forall i :: 0 <= i < |PercentBytes(bs)| ==> IsEncodedChar(PercentBytes(bs)[i])
  {
    if bs != [] {
      PercentBytesEncoded(bs[1..]);
    }
  }

  function EncodeChar(f: Flavor, c: char): (r: string)
    ensures forall i :: 0 <= i < |r| ==> IsEncodedChar(r[i])
  {
    if KeepsLiteral(f, c) then [c]
    else if f == QuotePlus && c == ' ' then "+"
    else PercentBytesEncoded(Utf8Char(c)); PercentBytes(Utf8Char(c))
  }

  /** `quote(s)` or `quote_plus(s)`. */
  function Encode(f: Flavor, s: string): (r: string)
    ensures forall i :: 0 <= i < |r| ==> IsEncodedChar(r[i])
  {
    if s == [] then [] else EncodeChar(f, s[0]) + Encode(f, s[1..])
  }

  lemma {:induction false} PercentBytesHaveNoPlus(bs: seq<int>)
    requires forall i :: 0 <= i < |bs| ==> IsByte(bs[i])
    ensures '+' !in PercentBytes(bs)
  {
    if bs != [] {
      PercentBytesHaveNoPlus(bs[1..]);
      var head := PercentByte(bs[0]);
      assert '+' !in head by {
        assert head == [head[0], head[1], head[2]];
      }
    }
  }

  /** `quote` writes no `+` at all: a literal `+` is escaped and a space becomes `%20`. */
  lemma {:induction false} QuoteEmitsNoPlus(s: string)
    ensures '+' !in Encode(Quote, s)
  {
    if s != [] {
      QuoteEmitsNoPlus(s[1..]);
      if !KeepsLiteral(Quote, s[0]) {
        PercentBytesHaveNoPlus(Utf8Char(s[0]));
      }
    }
  }

  /** `quote_plus` writes a space as `+`. */
  lemma QuotePlusSpace()
    ensures Encode(QuotePlus, " ") == "+"
  {
    assert !KeepsLiteral(QuotePlus, ' ');
  }

  /** The value of a hex digit of either case, or -1. */
  function HexValue(c: char): int {
    if '0' <= c <= '9' then c as int - '0' as int
    else if 'A' <= c <= 'F' then c as int - 'A' as int + 10
    else if 'a' <= c <= 'f' then c as int - 'a' as int + 10
    else -1
  }

  /**
   * The byte sequence `unquote` works on: `%XX` gives one byte, `+` a space
   * (for `unquote_plus`), any other character its own UTF-8 bytes; a `%` not
   * followed by two hex digits stays literal.
   */
  function PercentDecode(f: Flavor, s: string): seq<int>
    decreases |s|
  {
    if s == [] then []
    else if s[0] == '%' && |s| >= 3 && HexValue(s[1]) >= 0 && HexValue(s[2]) >= 0 then
      [HexValue(s[1]) * 16 + HexValue(s[2])] + PercentDecode(f, s[3..])
    else if f == QuotePlus && s[0] == '+' then [0x20] + PercentDecode(f, s[1..])
    else Utf8Char(s[0]) + PercentDecode(f, s[1..])
  }

  predicate IsCont(b: int) { 0x80 <= b < 0xC0 }

  predicate IsScalar(n: int) { (0 <= n < 0xD800) || (0xE000 <= n < 0x110000) }

  function Scalar(n: int, len: nat): Option<(char, nat)> {
    if IsScalar(n) then Some((n as char, len)) else None
  }

  /** The first character of a UTF-8 byte sequence and how many bytes it takes. */
  function DecodeFirst(bs: seq<int>): (r: Option<(char, nat)>)
    requires |bs| > 0
    ensures r.Some? ==> 1 <= r.value.1 <= |bs|
  {
    var b0 := bs[0];
    if 0 <= b0 < 0x80 then Some((b0 as char, 1))
    else if 0xC0 <= b0 < 0xE0 && |bs| >= 2 && IsCont(bs[1]) then
      Scalar((b0 - 0xC0) * 64 + (bs[1] - 0x80), 2)
    else if 0xE0 <= b0 < 0xF0 && |bs| >= 3 && IsCont(bs[1]) && IsCont(bs[2]) then
      Scalar((b0 - 0xE0) * 4096 + (bs[1] - 0x80) * 64 + (bs[2] - 0x80), 3)
    else if 0xF0 <= b0 < 0xF8 && |bs| >= 4 && IsCont(bs[1]) && IsCont(bs[2]) && IsCont(bs[3]) then
      Scalar((b0 - 0xF0) * 262144 + (bs[1] - 0x80) * 4096 + (bs[2] - 0x80) * 64 + (bs[3] - 0x80), 4)
    else None
  }

  /** Strict UTF-8 decoding; `None` for a malformed sequence. */
  function Utf8Decode(bs: seq<int>): Option<string>
    decreases |bs|
  {
    if bs == [] then Some([])
    else match DecodeFirst(bs)
      case None => None
      case Some((c, k)) =>
        match Utf8Decode(bs[k..])
        case None => None
        case Some(t) => Some([c] + t)
  }

  /** `unquote(s)` or `unquote_plus(s)`. */
  function Decode(f: Flavor, s: string): Option<string> {
    Utf8Decode(PercentDecode(f, s))
  }

  lemma ScalarOfChar(c: char, len: nat)
    ensures Scalar(c as int, len) == Some((c, len))
  {
  }

  lemma DecodeTwo(n: int, rest: seq<int>)
    requires 0x80 <= n < 0x800
    ensures DecodeFirst([0xC0 + n / 64, 0x80 + n % 64] + rest) == Scalar(n, 2)
  {
    var bs := [0xC0 + n / 64, 0x80 + n % 64] + rest;
    assert bs[0] == 0xC0 + n / 64 && bs[1] == 0x80 + n % 64;
    assert (n / 64) * 64 + n % 64 == n;
  }

  lemma DecodeThree(n: int, rest: seq<int>)
    requires 0x800 <= n < 0x10000
    ensures DecodeFirst([0xE0 + n / 4096, 0x80 + (n / 64) % 64, 0x80 + n % 64] + rest) == Scalar(n, 3)
  {
    var bs := [0xE0 + n / 4096, 0x80 + (n / 64) % 64, 0x80 + n % 64] + rest;
    assert bs[0] == 0xE0 + n / 4096 && bs[1] == 0x80 + (n / 64) % 64 && bs[2] == 0x80 + n % 64;
    var q := n / 64;
    assert q * 64 + n % 64 == n;
    assert (q / 64) * 64 + q % 64 == q;
    assert q / 64 == n / 4096;
  }

  lemma DecodeFour(n: int, rest: seq<int>)
    requires 0x10000 <= n < 0x110000
    ensures DecodeFirst([0xF0 + n / 262144, 0x80 + (n / 4096) % 64, 0x80 + (n / 64) % 64, 0x80 + n % 64] + rest) == Scalar(n, 4)
  {
    var bs := [0xF0 + n / 262144, 0x80 + (n / 4096) % 64, 0x80 + (n / 64) % 64, 0x80 + n % 64] + rest;
    assert bs[0] == 0xF0 + n / 262144 && bs[1] == 0x80 + (n / 4096) % 64;
    assert bs[2] == 0x80 + (n / 64) % 64 && bs[3] == 0x80 + n % 64;
    var q := n / 64;
    var p := q / 64;
    assert q * 64 + n % 64 == n;
    assert p * 64 + q % 64 == q;
    assert p == n / 4096;
    assert (p / 64) * 64 + p % 64 == p;
    assert p / 64 == n / 262144;
  }

  lemma DecodeFirstChar(c: char, rest: seq<int>)
    ensures DecodeFirst(Utf8Char(c) + rest) == Some((c, |Utf8Char(c)|))
  {
    var n := c as int;
    ScalarOfChar(c, |Utf8Char(c)|);
    if n < 0x80 {
    } else if n < 0x800 {
      DecodeTwo(n, rest);
    } else if n < 0x10000 {
      DecodeThree(n, rest);
    } else {
      DecodeFour(n, rest);
    }
  }

  /** UTF-8 decoding undoes UTF-8 encoding. */
  lemma {:induction false} Utf8RoundTrip(s: string)
    ensures Utf8Decode(Utf8(s)) == Some(s)
  {
    if s != [] {
      var head := Utf8Char(s[0]);
      var bs := head + Utf8(s[1..]);
      DecodeFirstChar(s[0], Utf8(s[1..]));
      assert bs[|head|..] == Utf8(s[1..]);
      Utf8RoundTrip(s[1..]);
      assert s == [s[0]] + s[1..];
    }
  }

  lemma HexRoundTrip(b: int)
    requires IsByte(b)
    ensures HexValue(HexDigits[b / 16]) * 16 + HexValue(HexDigits[b % 16]) == b
  {
    var hi, lo := b / 16, b % 16;
    assert 0 <= hi < 16 && 0 <= lo < 16;
    assert hi * 16 + lo == b;
    assert HexValue(HexDigits[hi]) == hi;
    assert HexValue(HexDigits[lo]) == lo;
  }

  lemma PercentByteDecode(f: Flavor, b: int, t: string)
    requires IsByte(b)
    ensures PercentDecode(f, PercentByte(b) + t) == [b] + PercentDecode(f, t)
  {
    var s := PercentByte(b) + t;
    HexRoundTrip(b);
    assert s[0] == '%' && s[1] == HexDigits[b / 16] && s[2] == HexDigits[b % 16];
    assert HexValue(s[1]) == b / 16 && HexValue(s[2]) == b % 16;
    assert s[3..] == t;
  }

  lemma {:induction false} PercentBytesCons(bs: seq<int>, t: string)
    requires bs != [] && forall i :: 0 <= i < |bs| ==> IsByte(bs[i])
    ensures PercentBytes(bs) + t == PercentByte(bs[0]) + (PercentBytes(bs[1..]) + t)
  {
  }

  lemma ConsAppend(xs: seq<int>, ys: seq<int>)
    requires xs != []
    ensures [xs[0]] + (xs[1..] + ys) == xs + ys
  {
    assert xs == [xs[0]] + xs[1..];
  }

  lemma PercentBytesEmpty(bs: seq<int>, t: string)
    requires bs == []
    ensures PercentBytes(bs) + t == t
  {
  }

  lemma PercentBytesHead(f: Flavor, bs: seq<int>, t: string)
    requires bs != [] && forall i :: 0 <= i < |bs| ==> IsByte(bs[i])
    ensures PercentDecode(f, PercentBytes(bs) + t) == [bs[0]] + PercentDecode(f, PercentBytes(bs[1..]) + t)
  {
    var tail := PercentBytes(bs[1..]) + t;
    PercentBytesCons(bs, t);
    PercentByteDecode(f, bs[0], tail);
  }

  lemma {:induction false} PercentBytesDecode(f: Flavor, bs: seq<int>, t: string)
    requires forall i :: 0 <= i < |bs| ==> IsByte(bs[i])
    ensures PercentDecode(f, PercentBytes(bs) + t) == bs + PercentDecode(f, t)
  {
    if bs == [] {
      PercentBytesEmpty(bs, t);
    } else {
      PercentBytesHead(f, bs, t);
      PercentBytesDecode(f, bs[1..], t);
      ConsAppend(bs, PercentDecode(f, t));
    }
  }

  lemma EncodeCharDecode(f: Flavor, c: char, t: string)
    ensures PercentDecode(f, EncodeChar(f, c) + t) == Utf8Char(c) + PercentDecode(f, t)
  {
    if KeepsLiteral(f, c) {
      assert ([c] + t)[1..] == t;
    } else if f == QuotePlus && c == ' ' {
      assert ("+" + t)[1..] == t;
    } else {
      PercentBytesDecode(f, Utf8Char(c), t);
    }
  }

  /** Percent-decoding an encoded string gives back the string's UTF-8 bytes. */
  lemma {:induction false} PercentDecodeEncode(f: Flavor, s: string)
    ensures PercentDecode(f, Encode(f, s)) == Utf8(s)
  {
    if s != [] {
      EncodeCharDecode(f, s[0], Encode(f, s[1..]));
      PercentDecodeEncode(f, s[1..]);
    }
  }

  /** `unquote(quote(s)) == s` and `unquote_plus(quote_plus(s)) == s`. */
  lemma DecodeEncode(f: Flavor, s: string)
    ensures Decode(f, Encode(f, s)) == Some(s)
  {
    PercentDecodeEncode(f, s);
    Utf8RoundTrip(s);
  }

  /** The encoders are injective. */
  lemma EncodeInjective(f: Flavor, s: string, t: string)
    requires Encode(f, s) == Encode(f, t)
    ensures s == t
  {
    DecodeEncode(f, s);
    DecodeEncode(f, t);
  }
}
