/** Strict UTF-8, as Python's `bytes.decode("UTF-8")` applies it: overlong forms, surrogates,
    values above U+10FFFF, stray continuation bytes and truncated sequences are all errors. */
module Utf8 {
  import opened Wrappers
  import opened Words

  predicate IsContinuation(b: Byte) { 0x80 <= b < 0xC0 }

  /** The character the well-formed sequence at the head of `bs` encodes, with its length in
      bytes; None when the head is not well formed. */
  function DecodeHead(bs: seq<Byte>): (r: Option<(char, nat)>)
    requires bs != []
    ensures r.Some? ==> 1 <= r.value.1 <= |bs|
  {
    var b0 := bs[0] as int;
    if b0 < 0x80 then Some((b0 as char, 1))
    else if 0xC2 <= b0 < 0xE0 then
      if |bs| >= 2 && IsContinuation(bs[1]) then
        Some((((b0 - 0xC0) * 0x40 + (bs[1] as int - 0x80)) as char, 2))
      else None
    else if 0xE0 <= b0 < 0xF0 then
      var lo := if b0 == 0xE0 then 0xA0 else 0x80;
      var hi := if b0 == 0xED then 0xA0 else 0xC0;
      if |bs| >= 3 && lo <= bs[1] < hi && IsContinuation(bs[2]) then
        Some((((b0 - 0xE0) * 0x1000 + (bs[1] as int - 0x80) * 0x40 + (bs[2] as int - 0x80)) as char, 3))
      else None
    else if 0xF0 <= b0 < 0xF5 then
      var lo := if b0 == 0xF0 then 0x90 else 0x80;
      var hi := if b0 == 0xF4 then 0x90 else 0xC0;
      if |bs| >= 4 && lo <= bs[1] < hi && IsContinuation(bs[2]) && IsContinuation(bs[3]) then
        Some((((b0 - 0xF0) * 0x4_0000 + (bs[1] as int - 0x80) * 0x1000 + (bs[2] as int - 0x80) * 0x40
               + (bs[3] as int - 0x80)) as char, 4))
      else None
    else None
  }

  /** The text `bs` encodes, or None (UnicodeDecodeError) when any part of it is malformed. */
  function Decode(bs: seq<Byte>): (r: Option<string>)
    ensures r.Some? ==> |r.value| <= |bs|
    decreases |bs|
  {
    if bs == [] then Some([])
    else
      match DecodeHead(bs)
      case None => None
      case Some((c, n)) =>
        match Decode(bs[n..])
        case None => None
        case Some(rest) => Some([c] + rest)
  }

  /** The UTF-8 encoding of one character: one to four bytes by the size of its scalar value,
      the value's bits spread six at a time over the continuation bytes. */
  function EncodeChar(c: char): (bs: seq<Byte>)
    ensures 1 <= |bs| <= 4
  {
    var cp := c as int;
    var q1 := cp / 0x40;
    var q2 := q1 / 0x40;
    var q3 := q2 / 0x40;
    if cp < 0x80 then [cp]
    else if cp < 0x800 then [0xC0 + q1, 0x80 + cp % 0x40]
    else if cp < 0x1_0000 then [0xE0 + q2, 0x80 + q1 % 0x40, 0x80 + cp % 0x40]
    else [0xF0 + q3, 0x80 + q2 % 0x40, 0x80 + q1 % 0x40, 0x80 + cp % 0x40]
  }

  function Encode(s: string): (bs: seq<Byte>)
    ensures |s| <= |bs| <= 4 * |s|
  {
    if s == [] then [] else EncodeChar(s[0]) + Encode(s[1..])
  }

  /** Decoding reads back exactly the character encoded at the head, whatever follows it. */
  lemma DecodeHeadEncodeChar(c: char, rest: seq<Byte>)
    ensures DecodeHead(EncodeChar(c) + rest) == Some((c, |EncodeChar(c)|))
  {
    var cp := c as int;
    if cp < 0x80 {
    } else if cp < 0x800 {
      DecodeHeadTwo(c, rest);
    } else if cp < 0x1_0000 {
      DecodeHeadThree(c, rest);
    } else {
      DecodeHeadFour(c, rest);
    }
  }

  lemma DecodeHeadTwo(c: char, rest: seq<Byte>)
    requires 0x80 <= c as int < 0x800
    ensures DecodeHead(EncodeChar(c) + rest) == Some((c, 2))
  {
    var cp := c as int;
    var q1, r0 := cp / 0x40, cp % 0x40;
    assert cp == q1 * 0x40 + r0;
    var bs := EncodeChar(c) + rest;
    assert bs[0] == 0xC0 + q1 && bs[1] == 0x80 + r0;
  }

  lemma DecodeHeadThree(c: char, rest: seq<Byte>)
    requires 0x800 <= c as int < 0x1_0000
    ensures DecodeHead(EncodeChar(c) + rest) == Some((c, 3))
  {
    var cp := c as int;
    var q1, r0 := cp / 0x40, cp % 0x40;
    var q2, r1 := q1 / 0x40, q1 % 0x40;
    assert cp == q1 * 0x40 + r0;
    assert q1 == q2 * 0x40 + r1;
    var bs := EncodeChar(c) + rest;
    assert bs[0] == 0xE0 + q2 && bs[1] == 0x80 + r1 && bs[2] == 0x80 + r0;
  }

  lemma DecodeHeadFour(c: char, rest: seq<Byte>)
    requires 0x1_0000 <= c as int
    ensures DecodeHead(EncodeChar(c) + rest) == Some((c, 4))
  {
    var cp := c as int;
    var q1, r0 := cp / 0x40, cp % 0x40;
    var q2, r1 := q1 / 0x40, q1 % 0x40;
    var q3, r2 := q2 / 0x40, q2 % 0x40;
    assert cp == q1 * 0x40 + r0;
    assert q1 == q2 * 0x40 + r1;
    assert q2 == q3 * 0x40 + r2;
    var bs := EncodeChar(c) + rest;
    assert bs[0] == 0xF0 + q3 && bs[1] == 0x80 + r2 && bs[2] == 0x80 + r1 && bs[3] == 0x80 + r0;
  }

  /** Every string survives an encode-decode round trip. */
  lemma {:induction false} DecodeEncode(s: string)
    ensures Decode(Encode(s)) == Some(s)
  {
    if s != [] {
      var head := EncodeChar(s[0]);
      var bs := head + Encode(s[1..]);
      DecodeHeadEncodeChar(s[0], Encode(s[1..]));
      assert bs[|head|..] == Encode(s[1..]);
      DecodeEncode(s[1..]);
      assert [s[0]] + s[1..] == s;
    }
  }

  /** The quotient and remainder by 64 of a value written as q * 64 + r with r a 6-bit digit. */
  lemma SixBits(cp: int, q: int, r: int)
    requires 0 <= r < 0x40 && cp == q * 0x40 + r
    ensures cp / 0x40 == q && cp % 0x40 == r
  {
  }

  /** Encoding gives back exactly the well-formed head a character was decoded from: the
      decoder accepts no second spelling of any character. */
  lemma EncodeCharDecodeHead(bs: seq<Byte>)
    requires bs != [] && DecodeHead(bs).Some?
    ensures EncodeChar(DecodeHead(bs).value.0) == bs[..DecodeHead(bs).value.1]
  {
    var b0 := bs[0] as int;
    var (c, n) := DecodeHead(bs).value;
    var cp := c as int;
    if b0 < 0x80 {
    } else if b0 < 0xE0 {
      var r0 := bs[1] as int - 0x80;
      SixBits(cp, b0 - 0xC0, r0);
      assert EncodeChar(c) == [bs[0], bs[1]];
    } else if b0 < 0xF0 {
      var r1, r0 := bs[1] as int - 0x80, bs[2] as int - 0x80;
      var q1 := (b0 - 0xE0) * 0x40 + r1;
      SixBits(cp, q1, r0);
      SixBits(q1, b0 - 0xE0, r1);
      assert EncodeChar(c) == [bs[0], bs[1], bs[2]];
    } else {
      var r2, r1, r0 := bs[1] as int - 0x80, bs[2] as int - 0x80, bs[3] as int - 0x80;
      var q2 := (b0 - 0xF0) * 0x40 + r2;
      var q1 := q2 * 0x40 + r1;
      SixBits(cp, q1, r0);
      SixBits(q1, q2, r1);
      SixBits(q2, b0 - 0xF0, r2);
      assert EncodeChar(c) == [bs[0], bs[1], bs[2], bs[3]];
    }
  }

  /** Whatever decodes, encodes back to the same bytes: together with DecodeEncode, Decode and
      Encode are inverse bijections between strings and well-formed byte sequences. */
  lemma {:induction false} EncodeDecode(bs: seq<Byte>)
    requires Decode(bs).Some?
    ensures Encode(Decode(bs).value) == bs
    decreases |bs|
  {
    if bs != [] {
      var n := EncodeDecodeHead(bs);
      EncodeDecode(bs[n..]);
      SplitAt(bs, n);
    }
  }

  lemma SplitAt<T>(s: seq<T>, n: nat)
    requires n <= |s|
    ensures s[..n] + s[n..] == s
  {
  }

  /** Re-encoding a decoded text gives back the head's n bytes, followed by the re-encoding of
      what the rest of the bytes decode to. */
  lemma EncodeDecodeHead(bs: seq<Byte>) returns (n: nat)
    requires bs != [] && Decode(bs).Some?
    ensures 1 <= n <= |bs| && Decode(bs[n..]).Some?
    ensures Encode(Decode(bs).value) == bs[..n] + Encode(Decode(bs[n..]).value)
  {
    var c: char;
    c, n := DecodeHead(bs).value.0, DecodeHead(bs).value.1;
    var rest := Decode(bs[n..]).value;
    assert Decode(bs).value == [c] + rest;
    EncodeCharDecodeHead(bs);
    assert ([c] + rest)[1..] == rest;
  }

  /** Bytes below 0x80 decode one for one into the characters with the same code. */
  lemma {:induction false} DecodeAscii(bs: seq<Byte>)
    requires forall i :: 0 <= i < |bs| ==> bs[i] < 0x80
    ensures Decode(bs).Some?
    ensures |Decode(bs).value| == |bs|
    ensures forall i :: 0 <= i < |bs| ==> Decode(bs).value[i] as int == bs[i]
  {
    if bs != [] {
      DecodeAscii(bs[1..]);
    }
  }
}
