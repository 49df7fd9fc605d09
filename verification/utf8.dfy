/**
  UTF-8 as in section 3 of RFC 3629: the encoding behind `bytes(s, 'utf-8')`.
  A Dafny `char` is a Unicode scalar value, so every string is encodable; the
  decoder is the specification partner and rejects overlong forms, surrogates
  and code points above U+10FFFF.
 */
module Utf8 {
  import opened Wrappers
  import opened Bytes

  /** One scalar value becomes one to four octets, by the table of RFC 3629, section 3. */
  function EncodeChar(c: char): (r: seq<byte>)
    ensures 1 <= |r| <= 4
    ensures |r| == 1 <==> c as int < 0x80
    ensures |r| == 1 ==> r[0] == c as int
  {
    var cp := c as int;
    if cp < 0x80 then [cp]
    else if cp < 0x800 then [0xC0 + cp / 64, 0x80 + cp % 64]
    else if cp < 0x10000 then [0xE0 + cp / 4096, 0x80 + (cp / 64) % 64, 0x80 + cp % 64]
    else [0xF0 + cp / 262144, 0x80 + (cp / 4096) % 64, 0x80 + (cp / 64) % 64, 0x80 + cp % 64]
  }

  /** `bytes(s, 'utf-8')`: never shorter than the string, equal in length for ASCII. */
  function Encode(s: string): (r: seq<byte>)
    ensures |r| >= |s|
    ensures |s| > 0 ==> |r| > 0
    decreases |s|
  {
    if |s| == 0 then [] else EncodeChar(s[0]) + Encode(s[1..])
  }

  predicate IsContinuation(b: byte) {
    0x80 <= b < 0xC0
  }

  /**
    Reads one scalar value from the front of `b`, returning it with the number
    of octets it occupies; `None` for a malformed or non-canonical sequence.
   */
  function DecodeChar(b: seq<byte>): (r: Option<(char, nat)>)
    requires |b| > 0
    ensures r.Some? ==> 1 <= r.value.1 <= |b|
  {
    var b0 := b[0] as int;
    if b0 < 0x80 then Some((b0 as char, 1))
    else if 0xC2 <= b0 < 0xE0 then
      if |b| >= 2 && IsContinuation(b[1]) then
        Some((((b0 - 0xC0) * 64 + (b[1] as int - 0x80)) as char, 2))
      else None
    else if 0xE0 <= b0 < 0xF0 then
      if |b| >= 3 && IsContinuation(b[1]) && IsContinuation(b[2]) then
        var cp := (b0 - 0xE0) * 4096 + (b[1] as int - 0x80) * 64 + (b[2] as int - 0x80);
        if cp < 0x800 || (0xD800 <= cp < 0xE000) then None else Some((cp as char, 3))
      else None
    else if 0xF0 <= b0 < 0xF5 then
      if |b| >= 4 && IsContinuation(b[1]) && IsContinuation(b[2]) && IsContinuation(b[3]) then
        var cp := (b0 - 0xF0) * 262144 + (b[1] as int - 0x80) * 4096 + (b[2] as int - 0x80) * 64 + (b[3] as int - 0x80);
        if cp < 0x10000 || cp > 0x10FFFF then None else Some((cp as char, 4))
      else None
    else None
  }

  /** Strict decoder: `None` unless the whole input is well-formed UTF-8. */
  function Decode(b: seq<byte>): (r: Option<string>)
    ensures r.Some? ==> |r.value| <= |b|
    decreases |b|
  {
    if |b| == 0 then Some([])
    else
      match DecodeChar(b)
      case None => None
      case Some((c, n)) =>
        match Decode(b[n..])
        case None => None
        case Some(rest) => Some([c] + rest)
  }

  /** A code point is its three base-64 digits plus the quotient above them. */
  lemma Digits(cp: int)
    requires 0 <= cp
    ensures cp == (cp / 262144) * 262144 + ((cp / 4096) % 64) * 4096 + ((cp / 64) % 64) * 64 + cp % 64
    ensures cp == (cp / 4096) * 4096 + ((cp / 64) % 64) * 64 + cp % 64
  {
    var q1 := cp / 64;
    var q2 := q1 / 64;
    assert q2 == cp / 4096;
    assert q2 / 64 == cp / 262144;
  }

  lemma DecodeEncodeChar(c: char, rest: seq<byte>)
    ensures DecodeChar(EncodeChar(c) + rest) == Some((c, |EncodeChar(c)|))
  {
    var cp := c as int;
    var e := EncodeChar(c);
    var b := e + rest;
    assert b[..|e|] == e;
    if cp >= 0x800 {
      Digits(cp);
    }
  }

  /** Round trip: decoding an encoding gives back exactly the string. */
  lemma {:induction false} DecodeEncode(s: string)
    ensures Decode(Encode(s)) == Some(s)
    decreases |s|
  {
    if |s| > 0 {
      var e := EncodeChar(s[0]);
      var b := Encode(s);
      DecodeEncodeChar(s[0], Encode(s[1..]));
      assert b[|e|..] == Encode(s[1..]);
      DecodeEncode(s[1..]);
      assert s == [s[0]] + s[1..];
    }
  }

  /** Encoding is injective: distinct strings have distinct octet sequences. */
  lemma EncodeInjective(x: string, y: string)
    requires Encode(x) == Encode(y)
    ensures x == y
  {
    DecodeEncode(x);
    DecodeEncode(y);
  }

  lemma EncodeDecodeChar(b: seq<byte>)
    requires |b| > 0
    requires DecodeChar(b).Some?
    ensures EncodeChar(DecodeChar(b).value.0) == b[..DecodeChar(b).value.1]
  {
    var (c, n) := DecodeChar(b).value;
    var cp := c as int;
    if n == 1 {
      assert cp == b[0];
    } else if n == 2 {
      var b0, b1 := b[0] as int, b[1] as int;
      assert cp == (b0 - 0xC0) * 64 + (b1 - 0x80);
      assert 0x80 <= cp < 0x800;
      assert cp / 64 == b0 - 0xC0 && cp % 64 == b1 - 0x80;
      assert EncodeChar(c) == [b[0], b[1]];
    } else if n == 3 {
      EncodeDecodeThree(b[0], b[1], b[2], cp);
      assert EncodeChar(c) == [b[0], b[1], b[2]];
    } else {
      EncodeDecodeFour(b[0], b[1], b[2], b[3], cp);
      assert EncodeChar(c) == [b[0], b[1], b[2], b[3]];
    }
  }

  lemma EncodeDecodeThree(b0: int, b1: int, b2: int, cp: int)
    requires 0xE0 <= b0 < 0xF0 && 0x80 <= b1 < 0xC0 && 0x80 <= b2 < 0xC0
    requires cp == (b0 - 0xE0) * 4096 + (b1 - 0x80) * 64 + (b2 - 0x80)
    ensures cp / 4096 == b0 - 0xE0 && (cp / 64) % 64 == b1 - 0x80 && cp % 64 == b2 - 0x80
  {
    var q := cp / 64;
    assert q == (b0 - 0xE0) * 64 + (b1 - 0x80);
    assert cp / 4096 == q / 64;
  }

  lemma EncodeDecodeFour(b0: int, b1: int, b2: int, b3: int, cp: int)
    requires 0xF0 <= b0 < 0xF5 && 0x80 <= b1 < 0xC0 && 0x80 <= b2 < 0xC0 && 0x80 <= b3 < 0xC0
    requires cp == (b0 - 0xF0) * 262144 + (b1 - 0x80) * 4096 + (b2 - 0x80) * 64 + (b3 - 0x80)
    ensures cp / 262144 == b0 - 0xF0
    ensures (cp / 4096) % 64 == b1 - 0x80
    ensures (cp / 64) % 64 == b2 - 0x80
    ensures cp % 64 == b3 - 0x80
  {
    var q1 := cp / 64;
    assert q1 == (b0 - 0xF0) * 4096 + (b1 - 0x80) * 64 + (b2 - 0x80);
    var q2 := q1 / 64;
    assert q2 == (b0 - 0xF0) * 64 + (b1 - 0x80);
    assert cp / 4096 == q2;
    assert cp / 262144 == q2 / 64;
  }

  /** A successful decode is one leading scalar value followed by the decode of the rest. */
  lemma DecodeStep(b: seq<byte>)
    requires |b| > 0
    requires Decode(b).Some?
    ensures DecodeChar(b).Some?
    ensures Decode(b[DecodeChar(b).value.1..]).Some?
    ensures Decode(b).value == [DecodeChar(b).value.0] + Decode(b[DecodeChar(b).value.1..]).value
  {
  }

  /** One encoded scalar value followed by an encoded rest is the encoding of the joined string. */
  lemma EncodeCons(c: char, rest: string, b: seq<byte>, n: nat)
    requires n <= |b|
    requires EncodeChar(c) == b[..n] && Encode(rest) == b[n..]
    ensures Encode([c] + rest) == b
  {
    assert ([c] + rest)[1..] == rest;
    assert b == b[..n] + b[n..];
  }

  /** The other direction: whatever the decoder accepts is the encoding of its result. */
  lemma {:induction false} EncodeDecode(b: seq<byte>)
    requires Decode(b).Some?
    ensures Encode(Decode(b).value) == b
    decreases |b|
  {
    if |b| > 0 {
      DecodeStep(b);
      var n := DecodeChar(b).value.1;
      EncodeDecodeChar(b);
      EncodeDecode(b[n..]);
      EncodeCons(DecodeChar(b).value.0, Decode(b[n..]).value, b, n);
    }
  }
}
