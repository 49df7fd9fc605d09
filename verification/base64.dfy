/**
  Standard Base64 with `=` padding, as in section 4 of RFC 4648: the encoder
  behind `base64.b64encode`, and a canonical decoder used as its specification
  partner (it accepts exactly the strings the encoder produces).
 */
module Base64 {
  import opened Wrappers
  import opened Bytes

  /** The 64 symbols of the standard alphabet (RFC 4648, section 4, Table 1). */
  predicate IsAlphabetChar(c: char) {
    ('A' <= c <= 'Z') || ('a' <= c <= 'z') || ('0' <= c <= '9') || c == '+' || c == '/'
  }

  const Pad: char := '='

  /** A character that may occur in encoder output: a symbol or the pad. */
  predicate IsBase64Char(c: char) {
    IsAlphabetChar(c) || c == Pad
  }

  /** Position of an alphabet symbol in Table 1. */
  function Index(c: char): (i: int)
    requires IsAlphabetChar(c)
    ensures 0 <= i < 64
  {
    if 'A' <= c <= 'Z' then c as int - 'A' as int
    else if 'a' <= c <= 'z' then c as int - 'a' as int + 26
    else if '0' <= c <= '9' then c as int - '0' as int + 52
    else if c == '+' then 62
    else 63
  }

  /** The symbol for a 6-bit value; `Index` undoes it. */
  function Symbol(i: int): (c: char)
    requires 0 <= i < 64
    ensures IsAlphabetChar(c)
    ensures Index(c) == i
  {
    if i < 26 then ('A' as int + i) as char
    else if i < 52 then ('a' as int + (i - 26)) as char
    else if i < 62 then ('0' as int + (i - 52)) as char
    else if i == 62 then '+'
    else '/'
  }

  lemma SymbolOfIndex(c: char)
    requires IsAlphabetChar(c)
    ensures Symbol(Index(c)) == c
  {
  }

  /** Three octets become four symbols. */
  function EncodeBlock(a: byte, b: byte, c: byte): (q: string)
  {
    [Symbol(a / 4), Symbol((a % 4) * 16 + b / 16), Symbol((b % 16) * 4 + c / 64), Symbol(c % 64)]
  }

  /** A final group of two octets: three symbols and one pad. */
  function EncodeTwo(a: byte, b: byte): (q: string)
  {
    [Symbol(a / 4), Symbol((a % 4) * 16 + b / 16), Symbol((b % 16) * 4), Pad]
  }

  /** A final group of one octet: two symbols and two pads. */
  function EncodeOne(a: byte): (q: string)
  {
    [Symbol(a / 4), Symbol((a % 4) * 16), Pad, Pad]
  }

  /** `base64.b64encode`: every output has length 4 * ceil(n / 3). */
  function Encode(data: seq<byte>): (s: string)
    ensures |s| == 4 * ((|data| + 2) / 3)
    decreases |data|
  {
    if |data| == 0 then ""
    else if |data| == 1 then EncodeOne(data[0])
    else if |data| == 2 then EncodeTwo(data[0], data[1])
    else EncodeBlock(data[0], data[1], data[2]) + Encode(data[3..])
  }

  /** Encoder output consists only of alphabet symbols and pads, so it never contains ':'. */
  lemma {:induction false} EncodeAlphabet(data: seq<byte>)
    ensures forall i :: 0 <= i < |Encode(data)| ==> IsBase64Char(Encode(data)[i])
    ensures ':' !in Encode(data)
    decreases |data|
  {
    if |data| > 2 {
      EncodeAlphabet(data[3..]);
      var q := EncodeBlock(data[0], data[1], data[2]);
      assert Encode(data) == q + Encode(data[3..]);
      assert forall i :: 0 <= i < 4 ==> IsBase64Char(q[i]);
    }
  }

  predicate AllSymbols(q: string)
    requires |q| == 4
  {
    IsAlphabetChar(q[0]) && IsAlphabetChar(q[1]) && IsAlphabetChar(q[2]) && IsAlphabetChar(q[3])
  }

  /** Four symbols without padding become three octets. */
  function DecodeBlock(q: string): (r: Option<seq<byte>>)
    requires |q| == 4
    ensures r.Some? <==> AllSymbols(q)
    ensures r.Some? ==> |r.value| == 3
  {
    if !AllSymbols(q) then None
    else
      var i0, i1, i2, i3 := Index(q[0]), Index(q[1]), Index(q[2]), Index(q[3]);
      Some([i0 * 4 + i1 / 16, (i1 % 16) * 16 + i2 / 4, (i2 % 4) * 64 + i3])
  }

  /**
    The last group, which may carry one or two pads. Unused low bits of the
    last symbol must be zero, so that only canonical encodings are accepted.
   */
  function DecodeFinal(q: string): (r: Option<seq<byte>>)
    requires |q| == 4
    ensures r.Some? ==> 1 <= |r.value| <= 3
  {
    if AllSymbols(q) then DecodeBlock(q)
    else if IsAlphabetChar(q[0]) && IsAlphabetChar(q[1]) && q[2] == Pad && q[3] == Pad then
      var i0, i1 := Index(q[0]), Index(q[1]);
      if i1 % 16 == 0 then Some([i0 * 4 + i1 / 16]) else None
    else if IsAlphabetChar(q[0]) && IsAlphabetChar(q[1]) && IsAlphabetChar(q[2]) && q[3] == Pad then
      var i0, i1, i2 := Index(q[0]), Index(q[1]), Index(q[2]);
      if i2 % 4 == 0 then Some([i0 * 4 + i1 / 16, (i1 % 16) * 16 + i2 / 4]) else None
    else None
  }

  /** Canonical decoder: `None` for any string the encoder cannot produce. */
  function Decode(s: string): (r: Option<seq<byte>>)
    ensures r.Some? ==> |s| % 4 == 0
    decreases |s|
  {
    if |s| == 0 then Some([])
    else if |s| < 4 then None
    else if |s| == 4 then DecodeFinal(s)
    else
      match DecodeBlock(s[..4])
      case None => None
      case Some(head) =>
        match Decode(s[4..])
        case None => None
        case Some(tail) => Some(head + tail)
  }

  lemma DecodeEncodeBlock(a: byte, b: byte, c: byte)
    ensures DecodeBlock(EncodeBlock(a, b, c)) == Some([a, b, c])
  {
    var i0, i1, i2, i3 := a / 4, (a % 4) * 16 + b / 16, (b % 16) * 4 + c / 64, c % 64;
    JoinBlock(a, b, c);
    var q := EncodeBlock(a, b, c);
    assert Index(q[0]) == i0 && Index(q[1]) == i1 && Index(q[2]) == i2 && Index(q[3]) == i3;
    assert DecodeBlock(q).value == [i0 * 4 + i1 / 16, (i1 % 16) * 16 + i2 / 4, (i2 % 4) * 64 + i3];
  }

  /** Reassembling the four six-bit values of a group gives back its three octets. */
  lemma JoinBlock(a: byte, b: byte, c: byte)
    ensures var i0, i1, i2, i3 := a / 4, (a % 4) * 16 + b / 16, (b % 16) * 4 + c / 64, c % 64;
      i0 * 4 + i1 / 16 == a && (i1 % 16) * 16 + i2 / 4 == b && (i2 % 4) * 64 + i3 == c
  {
  }

  lemma DecodeEncodeTwo(a: byte, b: byte)
    ensures DecodeFinal(EncodeTwo(a, b)) == Some([a, b])
  {
    var q := EncodeTwo(a, b);
    assert Index(q[0]) == a / 4;
    assert Index(q[1]) == (a % 4) * 16 + b / 16;
    assert Index(q[2]) == (b % 16) * 4;
  }

  lemma DecodeEncodeOne(a: byte)
    ensures DecodeFinal(EncodeOne(a)) == Some([a])
  {
    var q := EncodeOne(a);
    assert Index(q[0]) == a / 4;
    assert Index(q[1]) == (a % 4) * 16;
  }

  /** Round trip: decoding an encoding gives back exactly the input octets. */
  lemma {:induction false} DecodeEncode(data: seq<byte>)
    ensures Decode(Encode(data)) == Some(data)
    decreases |data|
  {
    if |data| == 0 {
    } else if |data| == 1 {
      DecodeEncodeOne(data[0]);
      assert data == [data[0]];
    } else if |data| == 2 {
      DecodeEncodeTwo(data[0], data[1]);
      assert data == [data[0], data[1]];
    } else if |data| == 3 {
      DecodeEncodeThree(data);
    } else {
      DecodeEncode(data[3..]);
      DecodeEncodeLong(data);
    }
  }

  lemma DecodeEncodeThree(data: seq<byte>)
    requires |data| == 3
    ensures Decode(Encode(data)) == Some(data)
  {
    var q := EncodeBlock(data[0], data[1], data[2]);
    DecodeEncodeBlock(data[0], data[1], data[2]);
    assert Encode(data) == q by { assert data[3..] == []; }
    assert data == [data[0], data[1], data[2]];
  }

  /** The inductive step: a leading full group decodes back, given the rest does. */
  lemma DecodeEncodeLong(data: seq<byte>)
    requires |data| > 3
    requires Decode(Encode(data[3..])) == Some(data[3..])
    ensures Decode(Encode(data)) == Some(data)
  {
    FirstThree(data);
    var q, rest := EncodeBlock(data[0], data[1], data[2]), Encode(data[3..]);
    assert Encode(data) == q + rest;
    DecodeEncodeBlock(data[0], data[1], data[2]);
    DecodeConcat(q, rest);
  }

  lemma FirstThree(data: seq<byte>)
    requires |data| >= 3
    ensures data == [data[0], data[1], data[2]] + data[3..]
  {
  }

  /** A full group followed by a non-empty decodable rest decodes piecewise. */
  lemma DecodeConcat(q: string, rest: string)
    requires |q| == 4 && |rest| > 0
    requires DecodeBlock(q).Some? && Decode(rest).Some?
    ensures Decode(q + rest) == Some(DecodeBlock(q).value + Decode(rest).value)
  {
    var s := q + rest;
    assert s[..4] == q;
    assert s[4..] == rest;
  }

  /** Encoding is injective: distinct octet strings have distinct encodings. */
  lemma EncodeInjective(x: seq<byte>, y: seq<byte>)
    requires Encode(x) == Encode(y)
    ensures x == y
  {
    DecodeEncode(x);
    DecodeEncode(y);
  }

  lemma EncodeDecodeBlock(q: string)
    requires |q| == 4
    requires DecodeBlock(q).Some?
    ensures var r := DecodeBlock(q).value; EncodeBlock(r[0], r[1], r[2]) == q
  {
    var i0, i1, i2, i3 := Index(q[0]), Index(q[1]), Index(q[2]), Index(q[3]);
    var a, b, c := i0 * 4 + i1 / 16, (i1 % 16) * 16 + i2 / 4, (i2 % 4) * 64 + i3;
    assert DecodeBlock(q).value == [a, b, c];
    SplitHigh(i0, i1);
    SplitMiddle(i1, i2);
    SplitLow(i2, i3);
    assert EncodeBlock(a, b, c) == [Symbol(i0), Symbol(i1), Symbol(i2), Symbol(i3)];
    assert Symbol(i0) == q[0] by { SymbolOfIndex(q[0]); }
    assert Symbol(i1) == q[1] by { SymbolOfIndex(q[1]); }
    assert Symbol(i2) == q[2] by { SymbolOfIndex(q[2]); }
    assert Symbol(i3) == q[3] by { SymbolOfIndex(q[3]); }
    assert q == [q[0], q[1], q[2], q[3]];
  }

  /** The first octet of a group holds symbol 0 and the top two bits of symbol 1. */
  lemma SplitHigh(i0: int, i1: int)
    requires 0 <= i0 < 64 && 0 <= i1 < 64
    ensures (i0 * 4 + i1 / 16) / 4 == i0
    ensures (i0 * 4 + i1 / 16) % 4 == i1 / 16
  {
  }

  /** The second octet holds the low four bits of symbol 1 and the top four of symbol 2. */
  lemma SplitMiddle(i1: int, i2: int)
    requires 0 <= i1 < 64 && 0 <= i2 < 64
    ensures (i1 / 16) * 16 + ((i1 % 16) * 16 + i2 / 4) / 16 == i1
    ensures ((i1 % 16) * 16 + i2 / 4) % 16 == i2 / 4
  {
  }

  /** The third octet holds the low two bits of symbol 2 and all of symbol 3. */
  lemma SplitLow(i2: int, i3: int)
    requires 0 <= i2 < 64 && 0 <= i3 < 64
    ensures (i2 / 4) * 4 + ((i2 % 4) * 64 + i3) / 64 == i2
    ensures ((i2 % 4) * 64 + i3) % 64 == i3
  {
  }

  /** Re-encoding the two octets of a one-pad group yields the symbols it was read from. */
  lemma EncodeTwoSymbols(i0: int, i1: int, i2: int)
    requires 0 <= i0 < 64 && 0 <= i1 < 64 && 0 <= i2 < 64 && i2 % 4 == 0
    ensures EncodeTwo(i0 * 4 + i1 / 16, (i1 % 16) * 16 + i2 / 4) == [Symbol(i0), Symbol(i1), Symbol(i2), Pad]
  {
    var a, b := i0 * 4 + i1 / 16, (i1 % 16) * 16 + i2 / 4;
    SplitHigh(i0, i1);
    SplitMiddle(i1, i2);
    assert (b % 16) * 4 == i2;
  }

  /** A final group with one pad is the encoding of the two octets it decodes to. */
  lemma EncodeDecodeTwo(q: string)
    requires |q| == 4
    requires IsAlphabetChar(q[0]) && IsAlphabetChar(q[1]) && IsAlphabetChar(q[2]) && q[3] == Pad
    requires Index(q[2]) % 4 == 0
    ensures var i0, i1, i2 := Index(q[0]), Index(q[1]), Index(q[2]);
      EncodeTwo(i0 * 4 + i1 / 16, (i1 % 16) * 16 + i2 / 4) == q
  {
    var i0, i1, i2 := Index(q[0]), Index(q[1]), Index(q[2]);
    EncodeTwoSymbols(i0, i1, i2);
    assert Symbol(i0) == q[0] by { SymbolOfIndex(q[0]); }
    assert Symbol(i1) == q[1] by { SymbolOfIndex(q[1]); }
    assert Symbol(i2) == q[2] by { SymbolOfIndex(q[2]); }
    assert q == [q[0], q[1], q[2], Pad];
  }

  /** A final group with two pads is the encoding of the one octet it decodes to. */
  lemma EncodeDecodeOne(q: string)
    requires |q| == 4
    requires IsAlphabetChar(q[0]) && IsAlphabetChar(q[1]) && q[2] == Pad && q[3] == Pad
    requires Index(q[1]) % 16 == 0
    ensures EncodeOne(Index(q[0]) * 4 + Index(q[1]) / 16) == q
  {
    assert q == [q[0], q[1], Pad, Pad];
    var i0, i1 := Index(q[0]), Index(q[1]);
    SplitHigh(i0, i1);
    SymbolOfIndex(q[0]);
    SymbolOfIndex(q[1]);
    assert EncodeOne(i0 * 4 + i1 / 16) == [Symbol(i0), Symbol(i1), Pad, Pad];
  }

  lemma EncodeDecodeFinal(q: string)
    requires |q| == 4
    requires DecodeFinal(q).Some?
    ensures Encode(DecodeFinal(q).value) == q
  {
    if AllSymbols(q) {
      EncodeDecodeFull(q);
    } else if IsAlphabetChar(q[2]) {
      EncodeDecodePadOne(q);
    } else {
      EncodeDecodePadTwo(q);
    }
  }

  lemma EncodeDecodeFull(q: string)
    requires |q| == 4 && AllSymbols(q)
    ensures Encode(DecodeFinal(q).value) == q
  {
    var r := DecodeFinal(q).value;
    EncodeDecodeBlock(q);
    assert r[3..] == [];
  }

  lemma EncodeDecodePadOne(q: string)
    requires |q| == 4 && !AllSymbols(q) && IsAlphabetChar(q[2])
    requires DecodeFinal(q).Some?
    ensures Encode(DecodeFinal(q).value) == q
  {
    var i0, i1, i2 := Index(q[0]), Index(q[1]), Index(q[2]);
    var a, b := i0 * 4 + i1 / 16, (i1 % 16) * 16 + i2 / 4;
    assert DecodeFinal(q) == Some([a, b]);
    assert Encode([a, b]) == EncodeTwo(a, b);
    EncodeDecodeTwo(q);
  }

  lemma EncodeDecodePadTwo(q: string)
    requires |q| == 4 && !AllSymbols(q) && !IsAlphabetChar(q[2])
    requires DecodeFinal(q).Some?
    ensures Encode(DecodeFinal(q).value) == q
  {
    var a := Index(q[0]) * 4 + Index(q[1]) / 16;
    assert DecodeFinal(q) == Some([a]);
    assert Encode([a]) == EncodeOne(a);
    EncodeDecodeOne(q);
  }

  /**
    The other direction: whatever the decoder accepts is exactly the encoding
    of what it returns, so the decoder is a faithful inverse.
   */
  lemma {:induction false} EncodeDecode(s: string)
    requires Decode(s).Some?
    ensures Encode(Decode(s).value) == s
    decreases |s|
  {
    if |s| == 0 {
    } else if |s| == 4 {
      EncodeDecodeFinal(s);
    } else {
      var head := DecodeBlock(s[..4]).value;
      var tail := Decode(s[4..]).value;
      EncodeDecodeBlock(s[..4]);
      EncodeDecode(s[4..]);
      var data := head + tail;
      assert Decode(s).value == data;
      assert data[..3] == head;
      assert data[3..] == tail;
      assert Encode(data) == EncodeBlock(head[0], head[1], head[2]) + Encode(tail);
      assert s == s[..4] + s[4..];
    }
  }
}
