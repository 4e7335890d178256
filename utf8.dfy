/**
 * UTF-8 as Rust's `String::from_utf8` checks it: a byte sequence is accepted
 * exactly when it is a concatenation of well-formed sequences in the sense of
 * the Unicode Standard, section 3.9, Table 3-7 (no overlong forms, no
 * surrogates, nothing above U+10FFFF). `Dafny`'s `char` is a Unicode scalar
 * value, so a decoded string is a `seq<char>`.
 */
module Utf8 {
  import opened Wrappers
  import opened Arith

  type Byte = x: int | 0 <= x < 0x100

  predicate IsContinuation(b: Byte) {
    0x80 <= b <= 0xBF
  }

  /** Least value of the second byte after lead byte `b0` (Table 3-7). */
  function SecondLow(b0: Byte): Byte {
    if b0 == 0xE0 then 0xA0 else if b0 == 0xF0 then 0x90 else 0x80
  }

  /** Greatest value of the second byte after lead byte `b0` (Table 3-7). */
  function SecondHigh(b0: Byte): Byte {
    if b0 == 0xED then 0x9F else if b0 == 0xF4 then 0x8F else 0xBF
  }

  /** The scalar value encoded at the front of `bs` and the number of bytes it takes, if well formed. */
  function DecodeFirst(bs: seq<Byte>): (r: Option<(char, nat)>)
    requires |bs| > 0
    ensures r.Some? ==> 1 <= r.value.1 <= 4 && r.value.1 <= |bs|
  {
    var b0 := bs[0];
    if b0 < 0x80 then
      Some((b0 as char, 1))
    else if 0xC2 <= b0 <= 0xDF then
      if 2 <= |bs| && IsContinuation(bs[1]) then
        Some((Scalar2(b0, bs[1]) as char, 2))
      else None
    else if 0xE0 <= b0 <= 0xEF then
      if 3 <= |bs| && SecondLow(b0) <= bs[1] <= SecondHigh(b0) && IsContinuation(bs[2]) then
        Some((Scalar3(b0, bs[1], bs[2]) as char, 3))
      else None
    else if 0xF0 <= b0 <= 0xF4 then
      if 4 <= |bs| && SecondLow(b0) <= bs[1] <= SecondHigh(b0) && IsContinuation(bs[2]) && IsContinuation(bs[3]) then
        Some((Scalar4(b0, bs[1], bs[2], bs[3]) as char, 4))
      else None
    else None
  }

  /** The scalar value of a well-formed two-byte sequence. */
  function Scalar2(b0: Byte, b1: Byte): (v: int)
    requires 0xC2 <= b0 <= 0xDF && IsContinuation(b1)
    ensures 0x80 <= v < 0x800
  {
    (b0 as int - 0xC0) * 0x40 + (b1 as int - 0x80)
  }

  /** The scalar value of a well-formed three-byte sequence: never a surrogate. */
  function Scalar3(b0: Byte, b1: Byte, b2: Byte): (v: int)
    requires 0xE0 <= b0 <= 0xEF && SecondLow(b0) <= b1 <= SecondHigh(b0) && IsContinuation(b2)
    ensures 0x800 <= v < 0xD800 || 0xE000 <= v < 0x10000
  {
    (b0 as int - 0xE0) * 0x1000 + (b1 as int - 0x80) * 0x40 + (b2 as int - 0x80)
  }

  /** The scalar value of a well-formed four-byte sequence. */
  function Scalar4(b0: Byte, b1: Byte, b2: Byte, b3: Byte): (v: int)
    requires 0xF0 <= b0 <= 0xF4 && SecondLow(b0) <= b1 <= SecondHigh(b0) && IsContinuation(b2) && IsContinuation(b3)
    ensures 0x10000 <= v < 0x110000
  {
    (b0 as int - 0xF0) * 0x40000 + (b1 as int - 0x80) * 0x1000 + (b2 as int - 0x80) * 0x40 + (b3 as int - 0x80)
  }

  /** `String::from_utf8`: the decoded text, or None when `bs` is not valid UTF-8. */
  function Decode(bs: seq<Byte>): (r: Option<string>)
    ensures r.Some? ==> |r.value| <= |bs|
    decreases |bs|
  {
    if bs == [] then Some([])
    else
      match DecodeFirst(bs)
      case None => None
      case Some((c, n)) =>
        match Decode(bs[n..])
        case None => None
        case Some(rest) => Some([c] + rest)
  }

  /** The UTF-8 encoding of one scalar value (the partner of `DecodeFirst`). */
  function EncodeChar(c: char): (bs: seq<Byte>)
    ensures 1 <= |bs| <= 4
  {
    var v := c as int;
    if v < 0x80 then [v]
    else if v < 0x800 then [0xC0 + v / 0x40, 0x80 + v % 0x40]
    else if v < 0x10000 then [0xE0 + v / 0x1000, 0x80 + v / 0x40 % 0x40, 0x80 + v % 0x40]
    else [0xF0 + v / 0x40000, 0x80 + v / 0x1000 % 0x40, 0x80 + v / 0x40 % 0x40, 0x80 + v % 0x40]
  }

  /** The UTF-8 encoding of a string (Rust's `String::into_bytes`). */
  function Encode(s: string): (bs: seq<Byte>)
    ensures |s| <= |bs| <= 4 * |s|
    decreases |s|
  {
    if s == [] then [] else EncodeChar(s[0]) + Encode(s[1..])
  }

  /** Decoding the front of an encoded character gives that character back, whatever follows it. */
  lemma DecodeFirstEncodeChar(c: char, rest: seq<Byte>)
    ensures DecodeFirst(EncodeChar(c) + rest) == Some((c, |EncodeChar(c)|))
  {
    var v := c as int;
    if v < 0x80 {
    } else if v < 0x800 {
      Front2(c, rest);
    } else if v < 0x10000 {
      Front3(c, rest);
    } else {
      Front4(c, rest);
    }
  }

  lemma Front2(c: char, rest: seq<Byte>)
    requires 0x80 <= c as int < 0x800
    ensures DecodeFirst(EncodeChar(c) + rest) == Some((c, 2))
  {
    var v := c as int;
    var e := EncodeChar(c);
    var bs := e + rest;
    assert bs[0] == e[0] && bs[1] == e[1];
    assert Scalar2(e[0], e[1]) == v;
  }

  lemma Front3(c: char, rest: seq<Byte>)
    requires 0x800 <= c as int < 0x10000
    ensures DecodeFirst(EncodeChar(c) + rest) == Some((c, 3))
  {
    var e := EncodeChar(c);
    var bs := e + rest;
    assert bs[0] == e[0] && bs[1] == e[1] && bs[2] == e[2];
    Split3(c as int);
  }

  lemma Front4(c: char, rest: seq<Byte>)
    requires 0x10000 <= c as int
    ensures DecodeFirst(EncodeChar(c) + rest) == Some((c, 4))
  {
    var e := EncodeChar(c);
    var bs := e + rest;
    assert bs[0] == e[0] && bs[1] == e[1] && bs[2] == e[2] && bs[3] == e[3];
    Split4(c as int);
  }

  lemma Split3(v: int)
    requires 0x800 <= v < 0xD800 || 0xE000 <= v < 0x10000
    ensures var b0, b1, b2 := 0xE0 + v / 0x1000, 0x80 + v / 0x40 % 0x40, 0x80 + v % 0x40;
      SecondLow(b0) <= b1 <= SecondHigh(b0) && IsContinuation(b2) && Scalar3(b0, b1, b2) == v
  {
    var z, q := v % 0x40, v / 0x40;
    var y, x := q % 0x40, q / 0x40;
    assert v / 0x1000 == x by {
      DivUnique(v, x, y * 0x40 + z, 0x1000);
    }
  }

  lemma Split4(v: int)
    requires 0x10000 <= v < 0x110000
    ensures var b0, b1, b2, b3 := 0xF0 + v / 0x40000, 0x80 + v / 0x1000 % 0x40, 0x80 + v / 0x40 % 0x40, 0x80 + v % 0x40;
      SecondLow(b0) <= b1 <= SecondHigh(b0) && IsContinuation(b2) && IsContinuation(b3) && Scalar4(b0, b1, b2, b3) == v
  {
    var w, q1 := v % 0x40, v / 0x40;
    var z, q2 := q1 % 0x40, q1 / 0x40;
    var y, x := q2 % 0x40, q2 / 0x40;
    assert v == ((x * 0x40 + y) * 0x40 + z) * 0x40 + w;
    assert v / 0x1000 == q2 by {
      DivUnique(v, q2, z * 0x40 + w, 0x1000);
    }
    assert v / 0x40000 == x by {
      DivUnique(v, x, (y * 0x40 + z) * 0x40 + w, 0x40000);
    }
  }

  /** Round trip: every string's encoding is valid UTF-8 and decodes to that string. */
  lemma {:induction false} DecodeEncode(s: string)
    ensures Decode(Encode(s)) == Some(s)
    decreases |s|
  {
    if s != [] {
      var head := EncodeChar(s[0]);
      DecodeFirstEncodeChar(s[0], Encode(s[1..]));
      assert Encode(s)[|head|..] == Encode(s[1..]);
      DecodeEncode(s[1..]);
      assert s == [s[0]] + s[1..];
    }
  }

  /** The other direction: a decoded character re-encodes to exactly the bytes it was decoded from. */
  lemma EncodeCharDecodeFirst(bs: seq<Byte>)
    requires |bs| > 0 && DecodeFirst(bs).Some?
    ensures EncodeChar(DecodeFirst(bs).value.0) == bs[..DecodeFirst(bs).value.1]
  {
    var n := DecodeFirst(bs).value.1;
    if n == 2 {
      Join2(bs[0], bs[1]);
      assert bs[..2] == [bs[0], bs[1]];
    } else if n == 3 {
      Join3(bs[0], bs[1], bs[2]);
      assert bs[..3] == [bs[0], bs[1], bs[2]];
    } else if n == 4 {
      Join4(bs[0], bs[1], bs[2], bs[3]);
      assert bs[..4] == [bs[0], bs[1], bs[2], bs[3]];
    }
  }

  lemma Digits2(x: int, y: int)
    requires 0 <= y < 0x40
    ensures (x * 0x40 + y) / 0x40 == x && (x * 0x40 + y) % 0x40 == y
  {
  }

  lemma Join2(b0: Byte, b1: Byte)
    requires 0xC2 <= b0 <= 0xDF && IsContinuation(b1)
    ensures EncodeChar(Scalar2(b0, b1) as char) == [b0, b1]
  {
    Digits2(b0 as int - 0xC0, b1 as int - 0x80);
  }

  lemma Join3(b0: Byte, b1: Byte, b2: Byte)
    requires 0xE0 <= b0 <= 0xEF && SecondLow(b0) <= b1 <= SecondHigh(b0) && IsContinuation(b2)
    ensures EncodeChar(Scalar3(b0, b1, b2) as char) == [b0, b1, b2]
  {
    var x, y, z := b0 as int - 0xE0, b1 as int - 0x80, b2 as int - 0x80;
    var hi := x * 0x40 + y;
    var v := Scalar3(b0, b1, b2);
    assert v == hi * 0x40 + z;
    Digits2(hi, z);
    Digits2(x, y);
    assert v / 0x1000 == hi / 0x40 by {
      assert v / 0x40 == hi;
    }
  }

  lemma Join4(b0: Byte, b1: Byte, b2: Byte, b3: Byte)
    requires 0xF0 <= b0 <= 0xF4 && SecondLow(b0) <= b1 <= SecondHigh(b0) && IsContinuation(b2) && IsContinuation(b3)
    ensures EncodeChar(Scalar4(b0, b1, b2, b3) as char) == [b0, b1, b2, b3]
  {
    var x, y, z, w := b0 as int - 0xF0, b1 as int - 0x80, b2 as int - 0x80, b3 as int - 0x80;
    var top := x * 0x40 + y;
    var mid := top * 0x40 + z;
    var v := Scalar4(b0, b1, b2, b3);
    assert v == mid * 0x40 + w;
    Digits2(mid, w);
    Digits2(top, z);
    Digits2(x, y);
    assert v / 0x1000 == mid / 0x40 by {
      assert v / 0x40 == mid;
    }
    assert v / 0x40000 == top / 0x40 by {
      assert v / 0x1000 == top;
    }
  }

  /** Decoding loses nothing: valid input is the encoding of its decoded text, so `Decode` is injective. */
  lemma {:induction false} EncodeDecode(bs: seq<Byte>)
    requires Decode(bs).Some?
    ensures Encode(Decode(bs).value) == bs
    decreases |bs|
  {
    if bs != [] {
      DecodeStep(bs);
      var (c, n) := DecodeFirst(bs).value;
      EncodeCharDecodeFirst(bs);
      EncodeDecode(bs[n..]);
      EncodeGlue(bs, n, c, Decode(bs[n..]).value);
    }
  }

  /** The step of `EncodeDecode`: the first scalar's encoding followed by the rest's gives back the input. */
  lemma EncodeGlue(bs: seq<Byte>, n: nat, c: char, t: string)
    requires n <= |bs| && EncodeChar(c) == bs[..n] && Encode(t) == bs[n..]
    ensures Encode([c] + t) == bs
  {
    EncodeStep(c, t);
    assert bs == bs[..n] + bs[n..];
  }

  /** A nonempty valid input decodes as its first scalar followed by the decoded rest. */
  lemma DecodeStep(bs: seq<Byte>)
    requires bs != [] && Decode(bs).Some?
    ensures DecodeFirst(bs).Some?
    ensures Decode(bs[DecodeFirst(bs).value.1..]).Some?
    ensures Decode(bs).value == [DecodeFirst(bs).value.0] + Decode(bs[DecodeFirst(bs).value.1..]).value
  {
  }

  /** Encoding a string that starts with `c`. */
  lemma EncodeStep(c: char, t: string)
    ensures Encode([c] + t) == EncodeChar(c) + Encode(t)
  {
    assert ([c] + t)[0] == c && ([c] + t)[1..] == t;
  }
}
