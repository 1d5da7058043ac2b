/**
 * UTF-8 as RFC 3629 defines it: the byte string `unescape(encodeURIComponent(s))`
 * stands for in `toBase64`, and the strict decoding `decodeURIComponent(escape(b))`
 * performs in `fromBase64` (script.js), which fails on any byte sequence that
 * is not the encoding of a code point: a stray continuation byte, a
 * truncated sequence, an overlong form, a surrogate, or a value above
 * U+10FFFF.
 */
module Utf8 {
  import opened Text

  type Byte = x: int | 0 <= x < 256

  predicate IsContinuation(x: Byte)
  {
    0x80 <= x < 0xC0
  }

  /** The encoding of one scalar value: one to four bytes by its size. */
  function EncodeChar(c: char): (r: seq<Byte>)
    ensures 1 <= |r| <= 4
  {
    var cp := c as int;
    if cp < 0x80 then [cp]
    else if cp < 0x800 then [0xC0 + cp / 64, 0x80 + cp % 64]
    else if cp < 0x10000 then [0xE0 + cp / 4096, 0x80 + (cp / 64) % 64, 0x80 + cp % 64]
    else [0xF0 + cp / 262144, 0x80 + (cp / 4096) % 64, 0x80 + (cp / 64) % 64, 0x80 + cp % 64]
  }

  /** `unescape(encodeURIComponent(s))`, read as bytes. */
  function Encode(s: string): seq<Byte>
  {
    if s == [] then [] else EncodeChar(s[0]) + Encode(s[1..])
  }

  datatype Decoded = Decoded(c: char, len: nat)

  /** Decodes the sequence at the start of `b`, or fails. */
  function DecodeFirst(b: seq<Byte>): (r: Option<Decoded>)
    requires b != []
    ensures r.Some? ==> 1 <= r.value.len <= |b|
  {
    var b0: int := b[0];
    if b0 < 0x80 then Some(Decoded(b0 as char, 1))
    else if 0xC2 <= b0 <= 0xDF then
      if |b| >= 2 && IsContinuation(b[1]) then
        Some(Decoded(Payload2(b0, b[1]) as char, 2))
      else None
    else if 0xE0 <= b0 <= 0xEF then
      if |b| >= 3 && IsContinuation(b[1]) && IsContinuation(b[2]) then
        var cp := Payload3(b0, b[1], b[2]);
        if cp < 0x800 || 0xD800 <= cp <= 0xDFFF then None
        else Some(Decoded(cp as char, 3))
      else None
    else if 0xF0 <= b0 <= 0xF4 then
      if |b| >= 4 && IsContinuation(b[1]) && IsContinuation(b[2]) && IsContinuation(b[3]) then
        var cp := Payload4(b0, b[1], b[2], b[3]);
        if cp < 0x10000 || cp > 0x10FFFF then None
        else Some(Decoded(cp as char, 4))
      else None
    else None
  }

  /** The code point bits carried by a two-, three- or four-byte sequence. */
  function Payload2(b0: int, b1: int): (cp: int)
    requires 0xC2 <= b0 <= 0xDF && 0x80 <= b1 < 0xC0
    ensures 0x80 <= cp < 0x800
  {
    (b0 - 0xC0) * 64 + (b1 - 0x80)
  }

  function Payload3(b0: int, b1: int, b2: int): (cp: int)
    requires 0xE0 <= b0 <= 0xEF && 0x80 <= b1 < 0xC0 && 0x80 <= b2 < 0xC0
    ensures 0 <= cp < 0x10000
  {
    (b0 - 0xE0) * 4096 + (b1 - 0x80) * 64 + (b2 - 0x80)
  }

  function Payload4(b0: int, b1: int, b2: int, b3: int): (cp: int)
    requires 0xF0 <= b0 <= 0xF4 && 0x80 <= b1 < 0xC0 && 0x80 <= b2 < 0xC0 && 0x80 <= b3 < 0xC0
    ensures 0 <= cp < 0x140000
  {
    (b0 - 0xF0) * 262144 + (b1 - 0x80) * 4096 + (b2 - 0x80) * 64 + (b3 - 0x80)
  }

  /** `decodeURIComponent(escape(b))`: `None` where the script would throw. */
  function Decode(b: seq<Byte>): Option<string>
    decreases |b|
  {
    if b == [] then Some([])
    else match DecodeFirst(b)
      case None => None
      case Some(d) =>
        match Decode(b[d.len..])
        case None => None
        case Some(rest) => Some([d.c] + rest)
  }

  lemma Encode2Payload(cp: int)
    requires 0x80 <= cp < 0x800
    ensures 0xC2 <= 0xC0 + cp / 64 <= 0xDF && 0x80 <= 0x80 + cp % 64 < 0xC0
    ensures Payload2(0xC0 + cp / 64, 0x80 + cp % 64) == cp
  {
  }

  lemma Encode3Payload(cp: int)
    requires 0x800 <= cp < 0x10000
    ensures 0xE0 <= 0xE0 + cp / 4096 <= 0xEF
    ensures Payload3(0xE0 + cp / 4096, 0x80 + (cp / 64) % 64, 0x80 + cp % 64) == cp
  {
    assert cp / 64 == (cp / 4096) * 64 + (cp / 64) % 64;
  }

  lemma Encode4Payload(cp: int)
    requires 0x10000 <= cp < 0x110000
    ensures 0xF0 <= 0xF0 + cp / 262144 <= 0xF4
    ensures Payload4(0xF0 + cp / 262144, 0x80 + (cp / 4096) % 64, 0x80 + (cp / 64) % 64, 0x80 + cp % 64) == cp
  {
    assert cp / 64 == (cp / 4096) * 64 + (cp / 64) % 64;
    assert cp / 4096 == (cp / 262144) * 64 + (cp / 4096) % 64;
  }

  /** Decoding the encoding of a character in front of anything reads back
      that character and exactly its bytes. */
  lemma DecodeFirstOfEncodeChar(c: char, rest: seq<Byte>)
    ensures DecodeFirst(EncodeChar(c) + rest) == Some(Decoded(c, |EncodeChar(c)|))
  {
    var cp := c as int;
    var b := EncodeChar(c) + rest;
    if cp < 0x80 {
    } else if cp < 0x800 {
      assert b[0] == 0xC0 + cp / 64 && b[1] == 0x80 + cp % 64;
      Encode2Payload(cp);
    } else if cp < 0x10000 {
      assert b[0] == 0xE0 + cp / 4096 && b[1] == 0x80 + (cp / 64) % 64 && b[2] == 0x80 + cp % 64;
      Encode3Payload(cp);
    } else {
      assert b[0] == 0xF0 + cp / 262144 && b[1] == 0x80 + (cp / 4096) % 64;
      assert b[2] == 0x80 + (cp / 64) % 64 && b[3] == 0x80 + cp % 64;
      Encode4Payload(cp);
    }
  }

  /** Strict decoding undoes the encoding. */
  lemma {:induction false} DecodeEncode(s: string)
    ensures Decode(Encode(s)) == Some(s)
    decreases |s|
  {
    if s != [] {
      var h := EncodeChar(s[0]);
      DecodeFirstOfEncodeChar(s[0], Encode(s[1..]));
      assert (h + Encode(s[1..]))[|h|..] == Encode(s[1..]);
      DecodeEncode(s[1..]);
      assert s == [s[0]] + s[1..];
    }
  }

  lemma Payload2Encodes(b0: int, b1: int)
    requires 0xC2 <= b0 <= 0xDF && 0x80 <= b1 < 0xC0
    ensures var cp := Payload2(b0, b1); cp / 64 == b0 - 0xC0 && cp % 64 == b1 - 0x80
  {
  }

  lemma Payload3Encodes(b0: int, b1: int, b2: int)
    requires 0xE0 <= b0 <= 0xEF && 0x80 <= b1 < 0xC0 && 0x80 <= b2 < 0xC0
    ensures var cp := Payload3(b0, b1, b2);
      cp / 4096 == b0 - 0xE0 && (cp / 64) % 64 == b1 - 0x80 && cp % 64 == b2 - 0x80
  {
    var cp := Payload3(b0, b1, b2);
    assert cp / 64 == (b0 - 0xE0) * 64 + (b1 - 0x80);
  }

  lemma Payload4Encodes(b0: int, b1: int, b2: int, b3: int)
    requires 0xF0 <= b0 <= 0xF4 && 0x80 <= b1 < 0xC0 && 0x80 <= b2 < 0xC0 && 0x80 <= b3 < 0xC0
    ensures var cp := Payload4(b0, b1, b2, b3);
      && cp / 262144 == b0 - 0xF0 && (cp / 4096) % 64 == b1 - 0x80
      && (cp / 64) % 64 == b2 - 0x80 && cp % 64 == b3 - 0x80
  {
    var cp := Payload4(b0, b1, b2, b3);
    assert cp / 64 == (b0 - 0xF0) * 4096 + (b1 - 0x80) * 64 + (b2 - 0x80);
    assert cp / 4096 == (b0 - 0xF0) * 64 + (b1 - 0x80);
  }

  /** What `DecodeFirst` reads is the encoding of the character it returns. */
  lemma EncodeCharOfDecodeFirst(b: seq<Byte>)
    requires b != [] && DecodeFirst(b).Some?
    ensures EncodeChar(DecodeFirst(b).value.c) == b[..DecodeFirst(b).value.len]
  {
    var b0: int := b[0];
    if b0 < 0x80 {
    } else if b0 <= 0xDF {
      Payload2Encodes(b0, b[1]);
    } else if b0 <= 0xEF {
      Payload3Encodes(b0, b[1], b[2]);
    } else {
      Payload4Encodes(b0, b[1], b[2], b[3]);
    }
  }

  /** A byte string decodes only if it is the encoding of what it decodes
      to: every accepted input is canonical UTF-8. */
  lemma {:induction false} EncodeDecode(b: seq<Byte>)
    requires Decode(b).Some?
    ensures Encode(Decode(b).value) == b
    decreases |b|
  {
    if b != [] {
      var d := DecodeFirst(b).value;
      var s, rest := Decode(b).value, Decode(b[d.len..]).value;
      assert s == [d.c] + rest;
      assert s != [] && s[0] == d.c && s[1..] == rest;
      assert Encode(s) == EncodeChar(d.c) + Encode(rest);
      assert EncodeChar(d.c) == b[..d.len] by {
        EncodeCharOfDecodeFirst(b);
      }
      assert Encode(rest) == b[d.len..] by {
        EncodeDecode(b[d.len..]);
      }
      assert b == b[..d.len] + b[d.len..];
    }
  }

  /** Decoding succeeds on `b` with result `s` exactly when `b` is the
      encoding of `s`. */
  lemma DecodeIff(b: seq<Byte>, s: string)
    ensures Decode(b) == Some(s) <==> Encode(s) == b
  {
    if Decode(b) == Some(s) {
      EncodeDecode(b);
    }
    if Encode(s) == b {
      DecodeEncode(s);
    }
  }
}
