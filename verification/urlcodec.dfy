/**
 * Python's `urllib.parse.quote_plus` with its default `safe=''` and its
 * inverse `unquote_plus`: percent-encoding (section 2.1 of RFC 3986) of the
 * UTF-8 bytes of a string, where only the unreserved characters of section
 * 2.3 stay literal and a space is written `+`.
 */
module UrlCodec {
  import opened Wrappers
  import opened Text
  import opened Utf8

  /** ALPHA / DIGIT / "-" / "." / "_" / "~" (section 2.3 of RFC 3986). */
  predicate IsUnreserved(c: char) {
    ('A' <= c <= 'Z') || ('a' <= c <= 'z') || ('0' <= c <= '9') || c == '-' || c == '.' || c == '_' || c == '~'
  }

  /** `0`-`9` and `A`-`F`: the digits of the escapes Python writes. */
  predicate IsUpperHex(c: char) {
    ('0' <= c <= '9') || ('A' <= c <= 'F')
  }

  /** The upper-case hexadecimal digit of `v`, which reads back as `v`. */
  function HexDigit(v: nat): (c: char)
    requires v < 16
    ensures IsUpperHex(c) && IsUnreserved(c)
    ensures HexValue(c) == Some(v)
  {
    if v < 10 then ('0' as int + v) as char else ('A' as int + v - 10) as char
  }

  /** The escape `%XY` of one byte: two upper-case digits that read back
      as the byte. */
  function EscapeByte(b: Byte): (r: string)
    ensures |r| == 3 && r[0] == '%' && IsUpperHex(r[1]) && IsUpperHex(r[2])
    ensures HexValue(r[1]) == Some(b / 16) && HexValue(r[2]) == Some(b % 16)
  {
    ['%', HexDigit(b / 16), HexDigit(b % 16)]
  }

  /** The value of a hexadecimal digit of either case, as `unquote` reads it. */
  function HexValue(c: char): (r: Option<nat>)
    ensures r.Some? ==> r.value < 16
  {
    if '0' <= c <= '9' then Some(c as int - '0' as int)
    else if 'A' <= c <= 'F' then Some(c as int - 'A' as int + 10)
    else if 'a' <= c <= 'f' then Some(c as int - 'a' as int + 10)
    else None
  }

  /** `%XY` for every byte, in upper-case hexadecimal; `EscapeAt` pins the
      triple of each byte. */
  function Escape(bs: seq<Byte>): (r: string)
    ensures |r| == 3 * |bs|
    ensures forall k :: 0 <= k < |r| ==> r[k] == '%' || IsUpperHex(r[k])
  {
    if |bs| == 0 then []
    else EscapeByte(bs[0]) + Escape(bs[1..])
  }

  /** The `k`-th triple of `Escape(bs)` spells the escape of `bs[k]`. */
  lemma {:induction false} EscapeAt(bs: seq<Byte>, k: nat)
    requires k < |bs|
    ensures Escape(bs)[3 * k] == '%'
    ensures Escape(bs)[3 * k + 1] == HexDigit(bs[k] / 16)
    ensures Escape(bs)[3 * k + 2] == HexDigit(bs[k] % 16)
  {
    var head, tail := EscapeByte(bs[0]), Escape(bs[1..]);
    assert Escape(bs) == head + tail;
    if k > 0 {
      EscapeAt(bs[1..], k - 1);
      assert bs[1..][k - 1] == bs[k];
      var j := 3 * (k - 1);
      assert Escape(bs)[3 * k] == tail[j];
      assert Escape(bs)[3 * k + 1] == tail[j + 1];
      assert Escape(bs)[3 * k + 2] == tail[j + 2];
    }
  }

  /** Byte `k` of `bs` is written at `3 * k` as a `%` and two upper-case
      digits that read back as the byte. */
  lemma EscapeDigits(bs: seq<Byte>, k: nat)
    requires k < |bs|
    ensures Escape(bs)[3 * k] == '%'
    ensures IsUpperHex(Escape(bs)[3 * k + 1]) && IsUpperHex(Escape(bs)[3 * k + 2])
    ensures HexValue(Escape(bs)[3 * k + 1]) == Some(bs[k] / 16)
    ensures HexValue(Escape(bs)[3 * k + 2]) == Some(bs[k] % 16)
  {
    EscapeAt(bs, k);
  }

  /** One character of `quote_plus`: a space is `+`, an unreserved character
      stays, anything else is escaped; only a space gives a `+`. */
  function QuoteChar(c: char): (r: string)
    ensures '+' in r <==> c == ' '
    ensures IsUnreserved(c) ==> r == [c]
  {
    if c == ' ' then "+"
    else if IsUnreserved(c) then [c]
    else Escape(EncodeChar(c))
  }

  /** `quote_plus(s)`: every output character is unreserved, `%` or `+`, and
      a `+` appears exactly when the input holds a space. */
  function QuotePlus(s: string): (r: string)
    ensures forall k :: 0 <= k < |r| ==> IsUnreserved(r[k]) || r[k] == '%' || r[k] == '+'
    ensures '+' in r <==> ' ' in s
  {
    if |s| == 0 then [] else QuoteChar(s[0]) + QuotePlus(s[1..])
  }

  /** The bytes `unquote` hands to the UTF-8 decoder: a `%` followed by two
      hexadecimal digits is that byte, any other character (a lone `%`
      included) stands for its own UTF-8 bytes. */
  function PercentDecode(s: string): seq<Byte>
  {
    if |s| == 0 then []
    else if s[0] == '%' && |s| >= 3 && HexValue(s[1]).Some? && HexValue(s[2]).Some? then
      [HexValue(s[1]).value * 16 + HexValue(s[2]).value] + PercentDecode(s[3..])
    else
      EncodeChar(s[0]) + PercentDecode(s[1..])
  }

  /** `unquote(s)`; `None` where the decoded bytes are not well-formed UTF-8. */
  function Unquote(s: string): Option<string> {
    Decode(PercentDecode(s))
  }

  /** `unquote_plus(s)`: `+` means space, then `unquote`. */
  function UnquotePlus(s: string): Option<string> {
    Unquote(ReplaceChar(s, '+', ' '))
  }

  /** `HexValue` reads back every digit `Escape` writes. */
  lemma HexValueDigit(v: nat)
    requires v < 16
    ensures HexValue(HexDigit(v)) == Some(v)
  {
  }

  lemma PercentDecodeOneEscape(b: Byte, rest: string)
    ensures PercentDecode(EscapeByte(b) + rest) == [b] + PercentDecode(rest)
  {
    var t := EscapeByte(b) + rest;
    HexValueDigit(b / 16);
    HexValueDigit(b % 16);
    assert t[0] == '%' && t[1] == HexDigit(b / 16) && t[2] == HexDigit(b % 16);
    assert t[3..] == rest;
  }

  lemma {:induction false} PercentDecodeEscape(bs: seq<Byte>, rest: string)
    ensures PercentDecode(Escape(bs) + rest) == bs + PercentDecode(rest)
  {
    if |bs| > 0 {
      var b := bs[0];
      EscapeUnfold(bs, rest);
      PercentDecodeOneEscape(b, Escape(bs[1..]) + rest);
      PercentDecodeEscape(bs[1..], rest);
      assert [b] + bs[1..] == bs;
    } else {
      assert Escape(bs) + rest == rest;
    }
  }

  lemma EscapeUnfold(bs: seq<Byte>, rest: string)
    requires |bs| > 0
    ensures Escape(bs) + rest == EscapeByte(bs[0]) + (Escape(bs[1..]) + rest)
  {
    assert Escape(bs) == EscapeByte(bs[0]) + Escape(bs[1..]);
    Associate(EscapeByte(bs[0]), Escape(bs[1..]), rest);
  }

  lemma Associate(a: string, b: string, c: string)
    ensures (a + b) + c == a + (b + c)
  {
  }

  lemma PercentDecodeLiteral(c: char, rest: string)
    requires c != '%'
    ensures PercentDecode([c] + rest) == EncodeChar(c) + PercentDecode(rest)
  {
    assert ([c] + rest)[1..] == rest;
  }

  /** One quoted character, after `+` is turned back into a space, reads
      back as that character's UTF-8 bytes. */
  lemma PercentDecodeQuoteChar(c: char, rest: string)
    ensures PercentDecode(ReplaceChar(QuoteChar(c), '+', ' ') + rest) == EncodeChar(c) + PercentDecode(rest)
  {
    var q := QuoteChar(c);
    if c == ' ' {
      assert ReplaceChar(q, '+', ' ') == [' '];
      PercentDecodeLiteral(' ', rest);
    } else if IsUnreserved(c) {
      assert ReplaceChar(q, '+', ' ') == [c];
      PercentDecodeLiteral(c, rest);
    } else {
      assert ReplaceChar(q, '+', ' ') == q;
      PercentDecodeEscape(EncodeChar(c), rest);
    }
  }

  /** Under `unquote_plus`'s first step, a quoted string reads back as the
      UTF-8 bytes of the original. */
  lemma {:induction false} PercentDecodeQuote(s: string)
    ensures PercentDecode(ReplaceChar(QuotePlus(s), '+', ' ')) == Encode(s)
  {
    if |s| > 0 {
      var q := QuoteChar(s[0]);
      var rr := ReplaceChar(QuotePlus(s[1..]), '+', ' ');
      ReplaceCharAppend(q, QuotePlus(s[1..]), '+', ' ');
      PercentDecodeQuoteChar(s[0], rr);
      PercentDecodeQuote(s[1..]);
    }
  }

  /** Round trip: `unquote_plus(quote_plus(s)) == s` for every string. */
  lemma QuotePlusRoundTrip(s: string)
    ensures UnquotePlus(QuotePlus(s)) == Some(s)
  {
    PercentDecodeQuote(s);
    DecodeEncode(s);
  }

  /** `quote_plus` works one character at a time. */
  lemma {:induction false} QuotePlusAppend(a: string, b: string)
    ensures QuotePlus(a + b) == QuotePlus(a) + QuotePlus(b)
  {
    if |a| > 0 {
      assert (a + b)[0] == a[0];
      assert (a + b)[1..] == a[1..] + b;
      QuotePlusAppend(a[1..], b);
    } else {
      assert a + b == b;
    }
  }

  /** A name made only of unreserved characters is left as it is. */
  lemma {:induction false} QuotePlusUnreserved(s: string)
    requires forall k :: 0 <= k < |s| ==> IsUnreserved(s[k])
    ensures QuotePlus(s) == s
  {
    if |s| > 0 {
      QuotePlusUnreserved(s[1..]);
      assert [s[0]] + s[1..] == s;
    }
  }

  /** A quoted value cannot end a query parameter or the query early: it holds
      no space, `&`, `=`, `?` or `#`. */
  lemma QuotePlusIsQuerySafe(s: string)
    ensures forall k :: 0 <= k < |QuotePlus(s)| ==> QuotePlus(s)[k] !in " &=?#"
  {
  }
}
