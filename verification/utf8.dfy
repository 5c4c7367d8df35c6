/**
 * UTF-8 as Python's `str.encode('utf-8')` and strict `bytes.decode('utf-8')`
 * use it (section 3 of RFC 3629): one to four bytes per Unicode scalar value,
 * no overlong forms, no surrogates, nothing above U+10FFFF.
 */
module Utf8 {
  import opened Wrappers

  type Byte = b: int | 0 <= b < 256

  predicate IsContinuation(b: Byte) {
    0x80 <= b < 0xC0
  }

  /** The encoding of one scalar value, shortest form. */
  function EncodeChar(c: char): (bs: seq<Byte>)
    ensures 1 <= |bs| <= 4
    ensures (|bs| == 1) == (c as int < 0x80)
    ensures forall k :: 1 <= k < |bs| ==> IsContinuation(bs[k])
  {
    var n := c as int;
    if n < 0x80 then [n]
    else if n < 0x800 then [0xC0 + n / 64, 0x80 + n % 64]
    else if n < 0x1_0000 then [0xE0 + n / 4096, 0x80 + (n / 64) % 64, 0x80 + n % 64]
    else [0xF0 + n / 262144, 0x80 + (n / 4096) % 64, 0x80 + (n / 64) % 64, 0x80 + n % 64]
  }

  function Encode(s: string): (bs: seq<Byte>)
    ensures |s| <= |bs| <= 4 * |s|
  {
    if |s| == 0 then [] else EncodeChar(s[0]) + Encode(s[1..])
  }

  lemma {:induction false} EncodeAppend(x: string, y: string)
    ensures Encode(x + y) == Encode(x) + Encode(y)
  {
    if |x| == 0 {
      assert x + y == y;
    } else {
      assert (x + y)[1..] == x[1..] + y;
      EncodeAppend(x[1..], y);
    }
  }

  /** The first scalar value of a well-formed byte sequence and the number of
      bytes it occupies; `None` on any ill-formed prefix (Table 3-7 of the
      Unicode Standard). */
  function DecodeFirst(bs: seq<Byte>): (r: Option<(char, nat)>)
    requires |bs| > 0
    ensures r.Some? ==> 1 <= r.value.1 <= |bs| && r.value.1 <= 4
  {
    var b0: int := bs[0];
    var b1: int := if |bs| > 1 then bs[1] else 0;
    var b2: int := if |bs| > 2 then bs[2] else 0;
    var b3: int := if |bs| > 3 then bs[3] else 0;
    if b0 < 0x80 then
      Some((b0 as char, 1))
    else if 0xC2 <= b0 <= 0xDF && |bs| >= 2 && IsContinuation(b1) then
      Some((((b0 - 0xC0) * 64 + (b1 - 0x80)) as char, 2))
    else if 0xE0 <= b0 <= 0xEF && |bs| >= 3 && IsContinuation(b1) && IsContinuation(b2)
         && (b0 != 0xE0 || b1 >= 0xA0) && (b0 != 0xED || b1 < 0xA0) then
      Some((((b0 - 0xE0) * 4096 + (b1 - 0x80) * 64 + (b2 - 0x80)) as char, 3))
    else if 0xF0 <= b0 <= 0xF4 && |bs| >= 4 && IsContinuation(b1) && IsContinuation(b2) && IsContinuation(b3)
         && (b0 != 0xF0 || b1 >= 0x90) && (b0 != 0xF4 || b1 < 0x90) then
      Some((((b0 - 0xF0) * 262144 + (b1 - 0x80) * 4096 + (b2 - 0x80) * 64 + (b3 - 0x80)) as char, 4))
    else
      None
  }

  /** Strict decoding: `None` where Python's strict decoder raises. */
  function Decode(bs: seq<Byte>): Option<string>
    decreases |bs|
  {
    if |bs| == 0 then Some([])
    else match DecodeFirst(bs)
      case None => None
      case Some((c, k)) =>
        match Decode(bs[k..])
        case None => None
        case Some(t) => Some([c] + t)
  }

  lemma DivMod64(n: int)
    requires 0 <= n
    ensures n == (n / 64) * 64 + n % 64
    ensures n / 4096 == (n / 64) / 64
    ensures n / 262144 == (n / 4096) / 64
  {
  }

  /** Decoding the encoding of one scalar value reads back that value and
      exactly its bytes, whatever follows. */
  lemma DecodeEncodeChar(c: char, rest: seq<Byte>)
    ensures DecodeFirst(EncodeChar(c) + rest) == Some((c, |EncodeChar(c)|))
  {
    var n := c as int;
    var bs := EncodeChar(c) + rest;
    DivMod64(n);
    DivMod64(n / 64);
    DivMod64(n / 4096);
    if n < 0x80 {
    } else if n < 0x800 {
      assert bs[0] == 0xC0 + n / 64 && bs[1] == 0x80 + n % 64;
    } else if n < 0x1_0000 {
      assert bs[0] == 0xE0 + n / 4096 && bs[1] == 0x80 + (n / 64) % 64 && bs[2] == 0x80 + n % 64;
    } else {
      assert bs[0] == 0xF0 + n / 262144 && bs[1] == 0x80 + (n / 4096) % 64;
      assert bs[2] == 0x80 + (n / 64) % 64 && bs[3] == 0x80 + n % 64;
    }
  }

  /** Round trip: strict decoding inverts encoding. */
  lemma {:induction false} DecodeEncode(s: string)
    ensures Decode(Encode(s)) == Some(s)
  {
    if |s| > 0 {
      var e := EncodeChar(s[0]);
      DecodeEncodeChar(s[0], Encode(s[1..]));
      assert (e + Encode(s[1..]))[|e|..] == Encode(s[1..]);
      DecodeEncode(s[1..]);
      assert [s[0]] + s[1..] == s;
    }
  }

  /** Splits a value into its high part and its low six bits. */
  lemma Split6(n: int, hi: int, lo: int)
    requires 0 <= lo < 64 && n == hi * 64 + lo
    ensures n / 64 == hi && n % 64 == lo
  {
  }

  /** The bytes the strict decoder accepts for one scalar value are exactly
      that value's encoding: no other spelling of it is accepted. */
  lemma EncodeDecodeFirst(bs: seq<Byte>)
    requires |bs| > 0 && DecodeFirst(bs).Some?
    ensures EncodeChar(DecodeFirst(bs).value.0) == bs[..DecodeFirst(bs).value.1]
  {
    var (c, k) := DecodeFirst(bs).value;
    var n := c as int;
    DivMod64(n);
    DivMod64(n / 64);
    DivMod64(n / 4096);
    if k == 2 {
      var b0, b1 := bs[0] as int - 0xC0, bs[1] as int - 0x80;
      Split6(n, b0, b1);
    } else if k == 3 {
      var b0, b1, b2 := bs[0] as int - 0xE0, bs[1] as int - 0x80, bs[2] as int - 0x80;
      Split6(n, b0 * 64 + b1, b2);
      Split6(n / 64, b0, b1);
    } else if k == 4 {
      var b0, b1, b2, b3 := bs[0] as int - 0xF0, bs[1] as int - 0x80, bs[2] as int - 0x80, bs[3] as int - 0x80;
      Split6(n, (b0 * 64 + b1) * 64 + b2, b3);
      Split6(n / 64, b0 * 64 + b1, b2);
      Split6(n / 4096, b0, b1);
    }
  }

  /** Strict decoding is injective: a decoded string re-encodes to the very
      bytes it came from. */
  lemma {:induction false} EncodeDecode(bs: seq<Byte>)
    requires Decode(bs).Some?
    ensures Encode(Decode(bs).value) == bs
    decreases |bs|
  {
    if |bs| > 0 {
      var (c, k) := DecodeFirst(bs).value;
      EncodeDecodeFirst(bs);
      EncodeDecode(bs[k..]);
      assert bs[..k] + bs[k..] == bs;
    }
  }
}
