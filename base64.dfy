/**
 * Base 64 as the browser's `btoa` and `atob` apply it, and the two script
 * helpers built on them (script.js): `toBase64` encodes a string's UTF-8
 * bytes with the padded alphabet of RFC 4648 section 4; `fromBase64` removes
 * line breaks (the remote wraps the content it returns), decodes forgivingly
 * as `atob` does, and decodes the bytes as strict UTF-8.
 */
module Base64 {
  import opened Text
  import Utf8

  type Byte = Utf8.Byte

  /** The 64-character alphabet of RFC 4648 section 4. */
  predicate IsDigitChar(c: char)
  {
    'A' <= c <= 'Z' || 'a' <= c <= 'z' || '0' <= c <= '9' || c == '+' || c == '/'
  }

  function Digit(v: int): (c: char)
    requires 0 <= v < 64
    ensures IsDigitChar(c)
  {
    if v < 26 then ('A' as int + v) as char
    else if v < 52 then ('a' as int + v - 26) as char
    else if v < 62 then ('0' as int + v - 52) as char
    else if v == 62 then '+'
    else '/'
  }

  function Value(c: char): (v: int)
    requires IsDigitChar(c)
    ensures 0 <= v < 64 && Digit(v) == c
  {
    if 'A' <= c <= 'Z' then c as int - 'A' as int
    else if 'a' <= c <= 'z' then c as int - 'a' as int + 26
    else if '0' <= c <= '9' then c as int - '0' as int + 52
    else if c == '+' then 62
    else 63
  }

  lemma ValueOfDigit(v: int)
    requires 0 <= v < 64
    ensures Value(Digit(v)) == v
  {
  }

  predicate AllDigits(t: string)
  {
    forall i :: 0 <= i < |t| ==> IsDigitChar(t[i])
  }

  /** The digits of the encoding without padding: each three bytes become
      four digits; a final one or two bytes become two or three digits, the
      unused low bits zero. */
  function EncodeDigits(b: seq<Byte>): (t: string)
    ensures AllDigits(t)
  {
    if |b| == 0 then []
    else if |b| == 1 then [Digit(b[0] / 4), Digit((b[0] % 4) * 16)]
    else if |b| == 2 then [Digit(b[0] / 4), Digit((b[0] % 4) * 16 + b[1] / 16), Digit((b[1] % 16) * 4)]
    else
      var rest := EncodeDigits(b[3..]);
      var quad := Quad(b[0], b[1], b[2]);
      assert forall i :: 4 <= i < 4 + |rest| ==> (quad + rest)[i] == rest[i - 4];
      quad + rest
  }

  /** The four digits of three bytes. */
  function Quad(b0: Byte, b1: Byte, b2: Byte): (q: string)
    ensures |q| == 4 && AllDigits(q)
  {
    [Digit(b0 / 4), Digit((b0 % 4) * 16 + b1 / 16), Digit((b1 % 16) * 4 + b2 / 64), Digit(b2 % 64)]
  }

  function Padding(n: nat): string
  {
    if n % 3 == 1 then "==" else if n % 3 == 2 then "=" else ""
  }

  /** `btoa` of a byte string. */
  function Btoa(b: seq<Byte>): string
  {
    EncodeDigits(b) + Padding(|b|)
  }

  /** The white space `atob` ignores: tab, line feed, form feed, carriage
      return and space. */
  predicate IsAsciiWhitespace(c: char)
  {
    c == '\t' || c == '\n' || c == '\U{000C}' || c == '\r' || c == ' '
  }

  function StripAsciiWhitespace(s: string): (r: string)
    ensures forall i :: 0 <= i < |r| ==> !IsAsciiWhitespace(r[i])
  {
    if s == [] then []
    else (if IsAsciiWhitespace(s[0]) then [] else [s[0]]) + StripAsciiWhitespace(s[1..])
  }

  /** `s.replace(/\n/g, '')` */
  function RemoveLineFeeds(s: string): (r: string)
    ensures '\n' !in r
  {
    if s == [] then []
    else (if s[0] == '\n' then [] else [s[0]]) + RemoveLineFeeds(s[1..])
  }

  /** The padding step of `atob`: one or two final '=' are dropped. */
  function DropPadding(t: string): string
  {
    if |t| >= 2 && t[|t| - 2] == '=' && t[|t| - 1] == '=' then t[..|t| - 2]
    else if |t| >= 1 && t[|t| - 1] == '=' then t[..|t| - 1]
    else t
  }

  /** The bytes a group's digit values carry, each the next eight bits. */
  function Byte0(v0: int, v1: int): (r: Byte)
    requires 0 <= v0 < 64 && 0 <= v1 < 64
  {
    v0 * 4 + v1 / 16
  }

  function Byte1(v1: int, v2: int): (r: Byte)
    requires 0 <= v1 < 64 && 0 <= v2 < 64
  {
    (v1 % 16) * 16 + v2 / 4
  }

  function Byte2(v2: int, v3: int): (r: Byte)
    requires 0 <= v2 < 64 && 0 <= v3 < 64
  {
    (v2 % 4) * 64 + v3
  }

  /** The three bytes a group of four digits carries. */
  function DecodeGroup(c0: char, c1: char, c2: char, c3: char): seq<Byte>
    requires IsDigitChar(c0) && IsDigitChar(c1) && IsDigitChar(c2) && IsDigitChar(c3)
  {
    var v0, v1, v2, v3 := Value(c0), Value(c1), Value(c2), Value(c3);
    [Byte0(v0, v1), Byte1(v1, v2), Byte2(v2, v3)]
  }

  /** The one or two bytes a final group of two or three digits carries,
      the leftover low bits discarded. */
  function DecodeLast(t: string): seq<Byte>
    requires AllDigits(t) && (|t| == 2 || |t| == 3)
  {
    var v0, v1 := Value(t[0]), Value(t[1]);
    if |t| == 2 then [Byte0(v0, v1)]
    else [Byte0(v0, v1), Byte1(v1, Value(t[2]))]
  }

  /** Reads the digits back, four to three bytes. */
  function DecodeDigits(t: string): (b: seq<Byte>)
    requires AllDigits(t) && |t| % 4 != 1
    decreases |t|
  {
    if |t| == 0 then []
    else if |t| < 4 then DecodeLast(t)
    else DecodeGroup(t[0], t[1], t[2], t[3]) + DecodeDigits(t[4..])
  }

  /** `atob(s)`: `None` where it throws. */
  function Atob(s: string): Option<seq<Byte>>
  {
    var t := StripAsciiWhitespace(s);
    var t := if |t| % 4 == 0 then DropPadding(t) else t;
    if |t| % 4 == 1 || !AllDigits(t) then None
    else Some(DecodeDigits(t))
  }

  /** `toBase64(s)` */
  function ToBase64(s: string): string
  {
    Btoa(Utf8.Encode(s))
  }

  /** `fromBase64(s)`: `None` where `atob` or the UTF-8 decoding throws. */
  function FromBase64(s: string): Option<string>
  {
    match Atob(RemoveLineFeeds(s))
    case None => None
    case Some(bytes) => Utf8.Decode(bytes)
  }

  /** Three bytes survive the trip through four digit values. */
  lemma QuadRoundTrip(b0: Byte, b1: Byte, b2: Byte)
    ensures Byte0(b0 / 4, (b0 % 4) * 16 + b1 / 16) == b0
    ensures Byte1((b0 % 4) * 16 + b1 / 16, (b1 % 16) * 4 + b2 / 64) == b1
    ensures Byte2((b1 % 16) * 4 + b2 / 64, b2 % 64) == b2
  {
  }

  /** Four digits read back to the three bytes they were made from. */
  lemma DecodeQuad(b0: Byte, b1: Byte, b2: Byte)
    ensures var quad := Quad(b0, b1, b2);
      DecodeGroup(quad[0], quad[1], quad[2], quad[3]) == [b0, b1, b2]
  {
    var v0, v1, v2, v3 := b0 / 4, (b0 % 4) * 16 + b1 / 16, (b1 % 16) * 4 + b2 / 64, b2 % 64;
    ValueOfDigit(v0);
    ValueOfDigit(v1);
    ValueOfDigit(v2);
    ValueOfDigit(v3);
    QuadRoundTrip(b0, b1, b2);
  }

  /** Decoding reads the first group of four digits on its own. */
  lemma DecodeDigitsFirstGroup(quad: string, rest: string)
    requires |quad| == 4 && AllDigits(quad)
    requires AllDigits(rest) && |rest| % 4 != 1
    ensures AllDigits(quad + rest)
    ensures DecodeDigits(quad + rest) == DecodeGroup(quad[0], quad[1], quad[2], quad[3]) + DecodeDigits(rest)
  {
    var t := quad + rest;
    assert forall i :: 4 <= i < |t| ==> t[i] == rest[i - 4];
    assert t[4..] == rest;
  }

  /** A final one or two bytes read back from their two or three digits. */
  lemma DecodeTail(b: seq<Byte>)
    requires 1 <= |b| <= 2
    ensures |EncodeDigits(b)| % 4 != 1 && DecodeDigits(EncodeDigits(b)) == b
  {
    var t := EncodeDigits(b);
    if |b| == 1 {
      var v0, v1 := b[0] / 4, (b[0] % 4) * 16;
      assert t == [Digit(v0), Digit(v1)];
      QuadRoundTrip(b[0], 0, 0);
      ValueOfDigit(v0);
      ValueOfDigit(v1);
    } else {
      var v0, v1, v2 := b[0] / 4, (b[0] % 4) * 16 + b[1] / 16, (b[1] % 16) * 4;
      assert t == [Digit(v0), Digit(v1), Digit(v2)];
      QuadRoundTrip(b[0], b[1], 0);
      ValueOfDigit(v0);
      ValueOfDigit(v1);
      ValueOfDigit(v2);
    }
  }

  /** Three bytes make four digits; a final one or two make two or three. */
  lemma {:induction false} EncodeDigitsLength(b: seq<Byte>)
    ensures |EncodeDigits(b)| % 4 == if |b| % 3 == 0 then 0 else |b| % 3 + 1
    decreases |b|
  {
    if |b| >= 3 {
      EncodeDigitsLength(b[3..]);
      var n, m := |EncodeDigits(b[3..])|, |b[3..]|;
      assert |EncodeDigits(b)| == n + 4 by {
        assert EncodeDigits(b) == Quad(b[0], b[1], b[2]) + EncodeDigits(b[3..]);
      }
      assert |b| == m + 3;
      AddFourMod(n);
      AddThreeMod(m);
    }
  }

  /** Reading back the digits gives back the bytes. */
  lemma {:induction false} DecodeEncodeDigits(b: seq<Byte>)
    ensures |EncodeDigits(b)| % 4 != 1
    ensures DecodeDigits(EncodeDigits(b)) == b
    decreases |b|
  {
    EncodeDigitsLength(b);
    if 1 <= |b| <= 2 {
      DecodeTail(b);
    } else if |b| >= 3 {
      var q, rest := Quad(b[0], b[1], b[2]), EncodeDigits(b[3..]);
      assert EncodeDigits(b) == q + rest;
      assert DecodeDigits(rest) == b[3..] && |rest| % 4 != 1 by {
        DecodeEncodeDigits(b[3..]);
      }
      assert DecodeDigits(q + rest) == DecodeGroup(q[0], q[1], q[2], q[3]) + DecodeDigits(rest) by {
        DecodeDigitsFirstGroup(q, rest);
      }
      assert DecodeGroup(q[0], q[1], q[2], q[3]) == b[..3] by {
        DecodeQuad(b[0], b[1], b[2]);
        assert b[..3] == [b[0], b[1], b[2]];
      }
      assert b == b[..3] + b[3..];
    }
  }

  lemma AddFourMod(n: nat)
    ensures (n + 4) % 4 == n % 4
  {
  }

  lemma AddThreeMod(n: nat)
    ensures (n + 3) % 3 == n % 3
  {
  }

  /** The padded encoding is a whole number of four-character groups, in the
      alphabet apart from the final padding. */
  lemma BtoaShape(b: seq<Byte>)
    ensures |Btoa(b)| % 4 == 0
    ensures forall i :: 0 <= i < |Btoa(b)| ==> IsDigitChar(Btoa(b)[i]) || (Btoa(b)[i] == '=' && i >= |Btoa(b)| - 2)
  {
    var t := Btoa(b);
    var d, pad := EncodeDigits(b), Padding(|b|);
    assert t == d + pad;
    assert |pad| <= 2 && forall j :: 0 <= j < |pad| ==> pad[j] == '=';
    assert |t| % 4 == 0 by {
      EncodeDigitsLength(b);
      PaddedLength(|d|, |b|);
    }
    forall i | 0 <= i < |t| ensures IsDigitChar(t[i]) || (t[i] == '=' && i >= |t| - 2) {
      if i < |d| {
        assert t[i] == d[i];
      } else {
        assert t[i] == pad[i - |d|];
      }
    }
  }

  /** The digits and the padding together fill whole groups of four. */
  lemma PaddedLength(digits: nat, bytes: nat)
    requires digits % 4 == if bytes % 3 == 0 then 0 else bytes % 3 + 1
    ensures (digits + |Padding(bytes)|) % 4 == 0
  {
  }

  lemma {:induction false} StripKeeps(s: string)
    requires forall i :: 0 <= i < |s| ==> !IsAsciiWhitespace(s[i])
    ensures StripAsciiWhitespace(s) == s
    decreases |s|
  {
    if s != [] {
      StripKeeps(s[1..]);
      assert s == [s[0]] + s[1..];
    }
  }

  lemma {:induction false} RemoveLineFeedsKeeps(s: string)
    requires '\n' !in s
    ensures RemoveLineFeeds(s) == s
    decreases |s|
  {
    if s != [] {
      RemoveLineFeedsKeeps(s[1..]);
      assert s == [s[0]] + s[1..];
    }
  }

  /** Padding is dropped exactly as far as `btoa` added it. */
  lemma DropPaddingOfBtoa(b: seq<Byte>)
    ensures DropPadding(Btoa(b)) == EncodeDigits(b)
  {
    var d := EncodeDigits(b);
    var t := Btoa(b);
    if |b| % 3 == 1 {
      assert t[..|t| - 2] == d;
    } else if |b| % 3 == 2 {
      assert t[|t| - 2] == d[|d| - 1];
      assert t[..|t| - 1] == d;
    } else {
      assert t == d;
      if |d| >= 1 {
        assert IsDigitChar(d[|d| - 1]);
      }
    }
  }

  /** `atob` undoes `btoa`. */
  lemma AtobBtoa(b: seq<Byte>)
    ensures Atob(Btoa(b)) == Some(b)
  {
    var t := Btoa(b);
    BtoaShape(b);
    StripKeeps(t);
    DropPaddingOfBtoa(b);
    DecodeEncodeDigits(b);
  }

  /** `atob` also accepts the encoding without its padding. */
  lemma AtobUnpadded(b: seq<Byte>)
    ensures Atob(EncodeDigits(b)) == Some(b)
  {
    var d := EncodeDigits(b);
    StripKeeps(d);
    DecodeEncodeDigits(b);
    if |d| % 4 == 0 && |d| >= 1 {
      assert IsDigitChar(d[|d| - 1]);
    }
  }

  /** `fromBase64` undoes `toBase64`. */
  lemma FromBase64ToBase64(s: string)
    ensures FromBase64(ToBase64(s)) == Some(s)
  {
    var b := Utf8.Encode(s);
    var t := ToBase64(s);
    BtoaShape(b);
    assert '\n' !in t by {
      forall i | 0 <= i < |t| ensures t[i] != '\n' {
      }
    }
    RemoveLineFeedsKeeps(t);
    AtobBtoa(b);
    Utf8.DecodeEncode(s);
  }

  /** Line breaks anywhere in the encoded text (the remote's content comes
      back wrapped) do not change what it decodes to. */
  lemma FromBase64WrappedLines(s: string, wrapped: string)
    requires RemoveLineFeeds(wrapped) == ToBase64(s)
    ensures FromBase64(wrapped) == Some(s)
  {
    FromBase64ToBase64(s);
    RemoveLineFeedsKeeps(ToBase64(s));
  }

  lemma {:induction false} StripAfterRemove(s: string)
    ensures StripAsciiWhitespace(RemoveLineFeeds(s)) == StripAsciiWhitespace(s)
    decreases |s|
  {
    if s != [] {
      StripAfterRemove(s[1..]);
      if s[0] == '\n' {
        calc {
          StripAsciiWhitespace(RemoveLineFeeds(s));
          { assert RemoveLineFeeds(s) == [] + RemoveLineFeeds(s[1..]) == RemoveLineFeeds(s[1..]); }
          StripAsciiWhitespace(RemoveLineFeeds(s[1..]));
          StripAsciiWhitespace(s[1..]);
          { assert IsAsciiWhitespace(s[0]); }
          [] + StripAsciiWhitespace(s[1..]);
        }
      } else {
        var r := RemoveLineFeeds(s[1..]);
        assert ([s[0]] + r)[0] == s[0] && ([s[0]] + r)[1..] == r;
      }
    }
  }

  /** Removing the line feeds before `atob` changes nothing: `atob` already
      ignores all ASCII white space. */
  lemma LineFeedRemovalRedundant(s: string)
    ensures Atob(RemoveLineFeeds(s)) == Atob(s)
  {
    StripAfterRemove(s);
  }
}
