/**
 * UTF-8, as Python's `str.encode("utf-8")` produces it for a string of
 * Unicode scalar values. Dafny's `char` is a scalar value (surrogates are
 * excluded by the type), so encoding never fails here.
 */
module Utf8 {
  import opened Wrappers

  newtype byte = x: int | 0 <= x < 0x100

  /** Bytes UTF-8 spends on one code point: thresholds 0x80, 0x800, 0x10000. */
  function CharLen(c: char): (n: nat)
  {
    if c as int < 0x80 then 1
    else if c as int < 0x800 then 2
    else if c as int < 0x10000 then 3
    else 4
  }

  /** Closed-form UTF-8 length of a string: the sum of its code points' lengths. */
  function Utf8Len(s: string): (n: nat)
  {
    if s == [] then 0 else CharLen(s[0]) + Utf8Len(s[1..])
  }

  /** The UTF-8 bytes of one code point. */
  function EncodeChar(c: char): (bs: seq<byte>)
    ensures |bs| == CharLen(c)
    ensures LeadLen(bs[0]) == |bs|
    ensures forall i :: 1 <= i < |bs| ==> IsCont(bs[i])
  {
    var x := c as int;
    var q1 := x / 64;
    var q2 := q1 / 64;
    if x < 0x80 then
      [x as byte]
    else if x < 0x800 then
      [(0xC0 + q1) as byte, (0x80 + x % 64) as byte]
    else if x < 0x10000 then
      [(0xE0 + q2) as byte, (0x80 + q1 % 64) as byte, (0x80 + x % 64) as byte]
    else
      [(0xF0 + q2 / 64) as byte, (0x80 + q2 % 64) as byte,
       (0x80 + q1 % 64) as byte, (0x80 + x % 64) as byte]
  }

  /** `s.encode("utf-8")`: the code points' encodings, concatenated in order. */
  function Encode(s: string): (bs: seq<byte>)
    ensures |bs| == Utf8Len(s)
  {
    if s == [] then [] else EncodeChar(s[0]) + Encode(s[1..])
  }

  /** The sequence length a lead byte announces; 0 for a byte no sequence starts with. */
  function LeadLen(b: byte): nat
  {
    if b < 0x80 then 1
    else if 0xC2 <= b < 0xE0 then 2
    else if 0xE0 <= b < 0xF0 then 3
    else if 0xF0 <= b < 0xF5 then 4
    else 0
  }

  /** A continuation byte, 10xxxxxx. */
  predicate IsCont(b: byte)
  {
    0x80 <= b < 0xC0
  }

  /** The scalar value `x`, if it is one. */
  function ScalarOf(x: int): Option<char>
  {
    if 0 <= x < 0xD800 || 0xE000 <= x < 0x110000 then Some(x as char) else None
  }

  /** Strict decoding of one complete sequence: rejects overlong forms, surrogates and values past 0x10FFFF. */
  function DecodeChar(bs: seq<byte>): Option<char>
  {
    if |bs| == 1 && bs[0] < 0x80 then
      Some(bs[0] as int as char)
    else if |bs| == 2 && LeadLen(bs[0]) == 2 && IsCont(bs[1]) then
      ScalarOf((bs[0] as int - 0xC0) * 64 + (bs[1] as int - 0x80))
    else if |bs| == 3 && LeadLen(bs[0]) == 3 && IsCont(bs[1]) && IsCont(bs[2]) then
      var x := (bs[0] as int - 0xE0) * 4096 + (bs[1] as int - 0x80) * 64 + (bs[2] as int - 0x80);
      if x < 0x800 then None else ScalarOf(x)
    else if |bs| == 4 && LeadLen(bs[0]) == 4 && IsCont(bs[1]) && IsCont(bs[2]) && IsCont(bs[3]) then
      var x := (bs[0] as int - 0xF0) * 262144 + (bs[1] as int - 0x80) * 4096
             + (bs[2] as int - 0x80) * 64 + (bs[3] as int - 0x80);
      if x < 0x10000 then None else ScalarOf(x)
    else
      None
  }

  /** Strict UTF-8 decoding of a byte string; None on any malformed sequence. */
  function Decode(bs: seq<byte>): Option<string>
    decreases |bs|
  {
    if bs == [] then Some([])
    else
      var n := LeadLen(bs[0]);
      if n == 0 || |bs| < n then None
      else
        match DecodeChar(bs[..n])
        case None => None
        case Some(c) =>
          match Decode(bs[n..])
          case None => None
          case Some(rest) => Some([c] + rest)
  }

  /** Decoding undoes the encoding of one code point. */
  lemma DecodeEncodeChar(c: char)
    ensures DecodeChar(EncodeChar(c)) == Some(c)
  {
    var x := c as int;
    if x < 0x80 {
    } else if x < 0x800 {
      DecodeEncode2(c);
    } else if x < 0x10000 {
      DecodeEncode3(c);
    } else {
      DecodeEncode4(c);
    }
  }

  lemma DecodeEncode2(c: char)
    requires 0x80 <= c as int < 0x800
    ensures DecodeChar(EncodeChar(c)) == Some(c)
  {
    var x, bs := c as int, EncodeChar(c);
    var q1 := x / 64;
    assert bs == [(0xC0 + q1) as byte, (0x80 + x % 64) as byte];
    assert (bs[0] as int - 0xC0) * 64 + (bs[1] as int - 0x80) == x;
    assert DecodeChar(bs) == ScalarOf(x);
  }

  lemma DecodeEncode3(c: char)
    requires 0x800 <= c as int < 0x10000
    ensures DecodeChar(EncodeChar(c)) == Some(c)
  {
    var x, bs := c as int, EncodeChar(c);
    var q1 := x / 64;
    var q2 := q1 / 64;
    assert bs == [(0xE0 + q2) as byte, (0x80 + q1 % 64) as byte, (0x80 + x % 64) as byte];
    assert q1 == q2 * 64 + q1 % 64 && x == q1 * 64 + x % 64;
    var b0, b1, b2 := bs[0] as int - 0xE0, bs[1] as int - 0x80, bs[2] as int - 0x80;
    assert b0 * 4096 + b1 * 64 + b2 == x;
    assert DecodeChar(bs) == ScalarOf(x);
  }

  lemma DecodeEncode4(c: char)
    requires 0x10000 <= c as int
    ensures DecodeChar(EncodeChar(c)) == Some(c)
  {
    var x, bs := c as int, EncodeChar(c);
    var q1 := x / 64;
    var q2 := q1 / 64;
    var q3 := q2 / 64;
    assert bs == [(0xF0 + q3) as byte, (0x80 + q2 % 64) as byte,
                  (0x80 + q1 % 64) as byte, (0x80 + x % 64) as byte];
    assert q2 == q3 * 64 + q2 % 64 && q1 == q2 * 64 + q1 % 64 && x == q1 * 64 + x % 64;
    var b0, b1, b2, b3 := bs[0] as int - 0xF0, bs[1] as int - 0x80, bs[2] as int - 0x80, bs[3] as int - 0x80;
    assert b0 * 64 + b1 == q2;
    assert (b0 * 64 + b1) * 64 + b2 == q1;
    assert b0 * 262144 + b1 * 4096 + b2 * 64 + b3 == x;
    assert DecodeChar(bs) == ScalarOf(x);
  }

  /** A sequence that decodes to `c` is exactly the encoding of `c`: the decoder accepts one form per code point. */
  lemma EncodeDecodeChar(bs: seq<byte>, c: char)
    requires DecodeChar(bs) == Some(c)
    ensures EncodeChar(c) == bs
  {
    if |bs| == 2 {
      EncodeDecode2(bs, c);
    } else if |bs| == 3 {
      EncodeDecode3(bs, c);
    } else if |bs| == 4 {
      EncodeDecode4(bs, c);
    }
  }

  lemma EncodeDecode2(bs: seq<byte>, c: char)
    requires |bs| == 2 && DecodeChar(bs) == Some(c)
    ensures EncodeChar(c) == bs
  {
    var b0, b1 := bs[0] as int - 0xC0, bs[1] as int - 0x80;
    var x := b0 * 64 + b1;
    assert c as int == x;
    Digits2(b0, b1);
    assert EncodeChar(c) == [(0xC0 + b0) as byte, (0x80 + b1) as byte];
  }

  lemma EncodeDecode3(bs: seq<byte>, c: char)
    requires |bs| == 3 && DecodeChar(bs) == Some(c)
    ensures EncodeChar(c) == bs
  {
    var b0, b1, b2 := bs[0] as int - 0xE0, bs[1] as int - 0x80, bs[2] as int - 0x80;
    var x := (b0 * 64 + b1) * 64 + b2;
    assert c as int == x;
    Digits2(b0 * 64 + b1, b2);
    Digits2(b0, b1);
    assert EncodeChar(c) == [(0xE0 + b0) as byte, (0x80 + b1) as byte, (0x80 + b2) as byte];
  }

  lemma EncodeDecode4(bs: seq<byte>, c: char)
    requires |bs| == 4 && DecodeChar(bs) == Some(c)
    ensures EncodeChar(c) == bs
  {
    var b0, b1, b2, b3 := bs[0] as int - 0xF0, bs[1] as int - 0x80, bs[2] as int - 0x80, bs[3] as int - 0x80;
    var x := ((b0 * 64 + b1) * 64 + b2) * 64 + b3;
    assert c as int == x;
    Digits2((b0 * 64 + b1) * 64 + b2, b3);
    Digits2(b0 * 64 + b1, b2);
    Digits2(b0, b1);
    assert EncodeChar(c) == [(0xF0 + b0) as byte, (0x80 + b1) as byte, (0x80 + b2) as byte, (0x80 + b3) as byte];
  }

  /** Base-64 digits of a two-digit number. */
  lemma Digits2(b0: int, b1: int)
    requires 0 <= b0 && 0 <= b1 < 64
    ensures (b0 * 64 + b1) / 64 == b0 && (b0 * 64 + b1) % 64 == b1
  {
  }

  /** Round trip: `bytes.decode(s.encode("utf-8")) == s`. */
  lemma {:induction false} DecodeEncode(s: string)
    ensures Decode(Encode(s)) == Some(s)
  {
    if s != [] {
      var head, tail := EncodeChar(s[0]), Encode(s[1..]);
      var bs := head + tail;
      assert bs[0] == head[0];
      assert bs[..|head|] == head;
      assert bs[|head|..] == tail;
      DecodeEncodeChar(s[0]);
      DecodeEncode(s[1..]);
      assert [s[0]] + s[1..] == s;
    }
  }

  /** The encoding is the only byte string that decodes to `s`. */
  lemma {:induction false} EncodeDecode(bs: seq<byte>, s: string)
    requires Decode(bs) == Some(s)
    ensures Encode(s) == bs
    decreases |bs|, 1
  {
    if bs != [] {
      var n := LeadLen(bs[0]);
      EncodeDecodeSplit(bs[..n], bs[n..], DecodeChar(bs[..n]).value, Decode(bs[n..]).value);
      assert bs == bs[..n] + bs[n..];
    }
  }

  /** One decoded code point followed by a decoded rest re-encodes to the bytes they came from. */
  lemma {:induction false} EncodeDecodeSplit(head: seq<byte>, tail: seq<byte>, c: char, rest: string)
    requires head != [] && DecodeChar(head) == Some(c) && Decode(tail) == Some(rest)
    ensures Encode([c] + rest) == head + tail
    decreases |head| + |tail|, 0
  {
    EncodeDecodeChar(head, c);
    EncodeDecode(tail, rest);
    EncodeCons(c, rest);
  }

  /** Encoding a string that starts with `c`. */
  lemma EncodeCons(c: char, rest: string)
    ensures Encode([c] + rest) == EncodeChar(c) + Encode(rest)
  {
    assert ([c] + rest)[1..] == rest;
  }

  /** Every code point costs between one and four bytes. */
  lemma {:induction false} Utf8LenBounds(s: string)
    ensures |s| <= Utf8Len(s) <= 4 * |s|
  {
    if s != [] {
      Utf8LenBounds(s[1..]);
    }
  }

  /** An ASCII string encodes to exactly one byte per character. */
  lemma {:induction false} AsciiLen(s: string)
    requires forall i :: 0 <= i < |s| ==> s[i] as int < 0x80
    ensures Utf8Len(s) == |s|
  {
    if s != [] {
      AsciiLen(s[1..]);
    }
  }
}
