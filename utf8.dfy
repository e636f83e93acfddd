/**
 * UTF-8 as Python's `bytes.decode()` and `str.encode()` use it with the
 * default 'strict' error handler: a byte sequence decodes exactly when it is
 * well-formed in the sense of Table 3-7 of the Unicode Standard (no overlong
 * forms, no surrogates, nothing above U+10FFFF), and otherwise the call raises.
 */
module Utf8 {
  import opened Wrappers
  import opened Text

  /** A continuation byte 10xxxxxx. */
  predicate IsCont(b: byte)
  {
    0x80 <= b <= 0xBF
  }

  /** The allowed range of the second byte of a three-byte sequence. */
  predicate SecondOfThree(b0: byte, b1: byte)
  {
    if b0 == 0xE0 then 0xA0 <= b1 <= 0xBF
    else if b0 == 0xED then 0x80 <= b1 <= 0x9F
    else IsCont(b1)
  }

  /** The allowed range of the second byte of a four-byte sequence. */
  predicate SecondOfFour(b0: byte, b1: byte)
  {
    if b0 == 0xF0 then 0x90 <= b1 <= 0xBF
    else if b0 == 0xF4 then 0x80 <= b1 <= 0x8F
    else IsCont(b1)
  }

  /** The character encoded by the well-formed sequence at the start of `bs`
      and that sequence's length, or `None` when `bs` does not start with one. */
  function DecodeFirst(bs: seq<byte>): (r: Option<(char, nat)>)
    requires |bs| > 0
    ensures r.Some? ==> 1 <= r.value.1 <= 4 && r.value.1 <= |bs|
  {
    var b0: int := bs[0];
    if b0 < 0x80 then
      Some((b0 as char, 1))
    else if 0xC2 <= b0 <= 0xDF then
      if |bs| >= 2 && IsCont(bs[1])
      then Some((Value2(b0, bs[1]) as char, 2))
      else None
    else if 0xE0 <= b0 <= 0xEF then
      if |bs| >= 3 && SecondOfThree(b0, bs[1]) && IsCont(bs[2])
      then Some((Value3(b0, bs[1], bs[2]) as char, 3))
      else None
    else if 0xF0 <= b0 <= 0xF4 then
      if |bs| >= 4 && SecondOfFour(b0, bs[1]) && IsCont(bs[2]) && IsCont(bs[3])
      then Some((Value4(b0, bs[1], bs[2], bs[3]) as char, 4))
      else None
    else
      None
  }

  /** The code point of a two-byte sequence. */
  function Value2(b0: int, b1: int): int
  {
    (b0 - 0xC0) * 64 + (b1 - 0x80)
  }

  /** The code point of a three-byte sequence. */
  function Value3(b0: int, b1: int, b2: int): int
  {
    (b0 - 0xE0) * 4096 + (b1 - 0x80) * 64 + (b2 - 0x80)
  }

  /** The code point of a four-byte sequence. */
  function Value4(b0: int, b1: int, b2: int, b3: int): int
  {
    (b0 - 0xF0) * 262144 + (b1 - 0x80) * 4096 + (b2 - 0x80) * 64 + (b3 - 0x80)
  }

  /** `bs.decode('utf-8')`: the decoded text, or `None` where Python raises
      `UnicodeDecodeError`. */
  function Decode(bs: seq<byte>): Option<string>
    decreases |bs|
  {
    if bs == [] then Some([])
    else match DecodeFirst(bs)
      case None => None
      case Some((c, n)) =>
        match Decode(bs[n..])
        case None => None
        case Some(rest) => Some([c] + rest)
  }

  /** The UTF-8 form of one character. */
  function EncodeChar(c: char): (r: seq<byte>)
    ensures 1 <= |r| <= 4
  {
    var v := c as int;
    if v < 0x80 then [v]
    else if v < 0x800 then [0xC0 + v / 64, 0x80 + v % 64]
    else if v < 0x10000 then [0xE0 + v / 4096, 0x80 + (v / 64) % 64, 0x80 + v % 64]
    else [0xF0 + v / 262144, 0x80 + (v / 4096) % 64, 0x80 + (v / 64) % 64, 0x80 + v % 64]
  }

  /** `s.encode('utf-8')`. */
  function Encode(s: string): seq<byte>
  {
    if s == [] then [] else EncodeChar(s[0]) + Encode(s[1..])
  }

  /** Encoding distributes over concatenation. */
  lemma {:induction false} EncodeAppend(a: string, b: string)
    ensures Encode(a + b) == Encode(a) + Encode(b)
  {
    if a == [] {
      assert a + b == b;
    } else {
      assert (a + b)[0] == a[0] && (a + b)[1..] == a[1..] + b;
      EncodeAppend(a[1..], b);
    }
  }

  /** Encoding three lines joined by a separator encodes each part. */
  lemma EncodeJoined(l1: string, l2: string, l3: string, sep: string)
    ensures Encode(l1 + sep + l2 + sep + l3) == Encode(l1) + Encode(sep) + Encode(l2) + Encode(sep) + Encode(l3)
  {
    EncodeAppend(l1 + sep + l2 + sep, l3);
    EncodeAppend(l1 + sep + l2, sep);
    EncodeAppend(l1 + sep, l2);
    EncodeAppend(l1, sep);
  }

  /** A byte below 0x80 in the encoding of a character is that character:
      every byte of a longer encoding has its top bit set. */
  lemma EncodeCharLow(c: char, i: nat)
    requires i < |EncodeChar(c)| && EncodeChar(c)[i] < 0x80
    ensures c as int == EncodeChar(c)[i]
  {
  }

  /** Text without a given ASCII character encodes without that byte. */
  lemma {:induction false} EncodeAvoids(s: string, b: byte)
    requires b < 0x80 && forall i :: 0 <= i < |s| ==> s[i] as int != b
    ensures forall i :: 0 <= i < |Encode(s)| ==> Encode(s)[i] != b
  {
    if s != [] {
      EncodeAvoids(s[1..], b);
      var head := EncodeChar(s[0]);
      forall i | 0 <= i < |Encode(s)|
        ensures Encode(s)[i] != b
      {
        if i < |head| {
          if head[i] < 0x80 {
            EncodeCharLow(s[0], i);
          }
        } else {
          assert Encode(s)[i] == Encode(s[1..])[i - |head|];
        }
      }
    }
  }

  /** Text made only of ASCII characters. */
  predicate IsAscii(s: string)
  {
    forall i :: 0 <= i < |s| ==> s[i] as int < 0x80
  }

  lemma AsciiAppend(a: string, b: string)
    requires IsAscii(a) && IsAscii(b)
    ensures IsAscii(a + b)
  {
    assert forall i :: |a| <= i < |a + b| ==> (a + b)[i] == b[i - |a|];
  }

  /** ASCII text encodes to its own code points, one byte each. */
  lemma {:induction false} EncodeAscii(s: string)
    requires IsAscii(s)
    ensures |Encode(s)| == |s|
    ensures forall i :: 0 <= i < |s| ==> Encode(s)[i] == s[i] as int
  {
    if s != [] {
      EncodeAscii(s[1..]);
    }
  }

  /** A bytes literal, which Python only allows to hold ASCII: the code
      points of the text, one byte each (reduced modulo 256 so that the
      function is total). */
  function Bytes(s: string): (r: seq<byte>)
    ensures |r| == |s|
  {
    seq(|s|, i requires 0 <= i < |s| => s[i] as int % 256)
  }

  lemma DecodeEncode2(v: int)
    requires 0x80 <= v < 0x800
    ensures 0xC2 <= 0xC0 + v / 64 <= 0xDF && IsCont(0x80 + v % 64)
    ensures Value2(0xC0 + v / 64, 0x80 + v % 64) == v
  {
  }

  lemma DecodeEncode3(v: int)
    requires 0x800 <= v < 0x10000 && !(0xD800 <= v < 0xE000)
    ensures 0xE0 <= 0xE0 + v / 4096 <= 0xEF
    ensures SecondOfThree(0xE0 + v / 4096, 0x80 + (v / 64) % 64) && IsCont(0x80 + v % 64)
    ensures Value3(0xE0 + v / 4096, 0x80 + (v / 64) % 64, 0x80 + v % 64) == v
  {
    assert (v / 4096) * 64 + (v / 64) % 64 == v / 64;
    assert (v / 64) * 64 + v % 64 == v;
  }

  lemma DecodeEncode4(v: int)
    requires 0x10000 <= v < 0x110000
    ensures 0xF0 <= 0xF0 + v / 262144 <= 0xF4
    ensures SecondOfFour(0xF0 + v / 262144, 0x80 + (v / 4096) % 64)
    ensures IsCont(0x80 + (v / 64) % 64) && IsCont(0x80 + v % 64)
    ensures Value4(0xF0 + v / 262144, 0x80 + (v / 4096) % 64, 0x80 + (v / 64) % 64, 0x80 + v % 64) == v
  {
    assert (v / 262144) * 64 + (v / 4096) % 64 == v / 4096;
    assert (v / 4096) * 64 + (v / 64) % 64 == v / 64;
    assert (v / 64) * 64 + v % 64 == v;
  }

  /** The first character of an encoding decodes back, consuming exactly its bytes. */
  lemma DecodeEncodeChar(c: char, rest: seq<byte>)
    ensures DecodeFirst(EncodeChar(c) + rest) == Some((c, |EncodeChar(c)|))
  {
    var v := c as int;
    var bs := EncodeChar(c) + rest;
    if v < 0x80 {
    } else if v < 0x800 {
      assert bs[0] == 0xC0 + v / 64 && bs[1] == 0x80 + v % 64;
      DecodeEncode2(v);
    } else if v < 0x10000 {
      assert bs[0] == 0xE0 + v / 4096 && bs[1] == 0x80 + (v / 64) % 64 && bs[2] == 0x80 + v % 64;
      DecodeEncode3(v);
    } else {
      assert bs[0] == 0xF0 + v / 262144 && bs[1] == 0x80 + (v / 4096) % 64;
      assert bs[2] == 0x80 + (v / 64) % 64 && bs[3] == 0x80 + v % 64;
      DecodeEncode4(v);
    }
  }

  /** Decoding undoes encoding: every string survives a round trip. */
  lemma {:induction false} DecodeEncode(s: string)
    ensures Decode(Encode(s)) == Some(s)
  {
    if s != [] {
      var e := EncodeChar(s[0]);
      var bs := e + Encode(s[1..]);
      assert Encode(s) == bs && bs != [];
      DecodeEncodeChar(s[0], Encode(s[1..]));
      assert bs[|e|..] == Encode(s[1..]);
      DecodeEncode(s[1..]);
      assert [s[0]] + s[1..] == s;
    }
  }

  lemma EncodeDecode2(b0: int, b1: int)
    requires 0xC2 <= b0 <= 0xDF && 0x80 <= b1 <= 0xBF
    ensures 0x80 <= Value2(b0, b1) < 0x800
    ensures 0xC0 + Value2(b0, b1) / 64 == b0 && 0x80 + Value2(b0, b1) % 64 == b1
  {
  }

  lemma EncodeDecode3(b0: int, b1: int, b2: int)
    requires 0xE0 <= b0 <= 0xEF && 0x80 <= b1 <= 0xBF && 0x80 <= b2 <= 0xBF
    requires b0 == 0xE0 ==> 0xA0 <= b1
    ensures 0x800 <= Value3(b0, b1, b2) < 0x10000
    ensures 0xE0 + Value3(b0, b1, b2) / 4096 == b0
    ensures 0x80 + (Value3(b0, b1, b2) / 64) % 64 == b1 && 0x80 + Value3(b0, b1, b2) % 64 == b2
  {
    var hi := (b0 - 0xE0) * 64 + (b1 - 0x80);
    var v := Value3(b0, b1, b2);
    assert v == hi * 64 + (b2 - 0x80);
    assert v / 64 == hi && v % 64 == b2 - 0x80;
    assert v / 4096 == hi / 64;
  }

  lemma EncodeDecode4(b0: int, b1: int, b2: int, b3: int)
    requires 0xF0 <= b0 <= 0xF4 && 0x80 <= b1 <= 0xBF && 0x80 <= b2 <= 0xBF && 0x80 <= b3 <= 0xBF
    requires b0 == 0xF0 ==> 0x90 <= b1
    ensures 0x10000 <= Value4(b0, b1, b2, b3)
    ensures 0xF0 + Value4(b0, b1, b2, b3) / 262144 == b0
    ensures 0x80 + (Value4(b0, b1, b2, b3) / 4096) % 64 == b1
    ensures 0x80 + (Value4(b0, b1, b2, b3) / 64) % 64 == b2 && 0x80 + Value4(b0, b1, b2, b3) % 64 == b3
  {
    var hi := (b0 - 0xF0) * 64 + (b1 - 0x80);
    var mid := hi * 64 + (b2 - 0x80);
    var v := Value4(b0, b1, b2, b3);
    assert v == mid * 64 + (b3 - 0x80);
    assert v / 64 == mid && v % 64 == b3 - 0x80;
    assert mid / 64 == hi && mid % 64 == b2 - 0x80;
    assert v / 4096 == mid / 64;
    assert v / 262144 == hi / 64;
  }

  /** Re-encoding the first decoded character gives back exactly the bytes it consumed. */
  lemma EncodeDecodeFirst(bs: seq<byte>)
    requires |bs| > 0 && DecodeFirst(bs).Some?
    ensures EncodeChar(DecodeFirst(bs).value.0) == bs[..DecodeFirst(bs).value.1]
  {
    var b0 := bs[0];
    if b0 < 0x80 {
    } else if b0 <= 0xDF {
      EncodeDecode2(b0, bs[1]);
    } else if b0 <= 0xEF {
      EncodeDecode3(b0, bs[1], bs[2]);
    } else {
      EncodeDecode4(b0, bs[1], bs[2], bs[3]);
    }
  }

  /** Encoding undoes decoding: bytes that decode are exactly the encoding
      of what they decode to, so `Decode` and `Encode` are inverse bijections
      between strings and well-formed byte sequences. */
  lemma {:induction false} EncodeDecode(bs: seq<byte>)
    requires Decode(bs).Some?
    ensures Encode(Decode(bs).value) == bs
    decreases |bs|
  {
    if bs != [] {
      var c := DecodeFirst(bs).value.0;
      var n := DecodeFirst(bs).value.1;
      var rest := Decode(bs[n..]).value;
      var s := [c] + rest;
      assert Decode(bs).value == s;
      assert s[0] == c && s[1..] == rest;
      assert Encode(s) == EncodeChar(c) + Encode(rest);
      EncodeDecodeFirst(bs);
      EncodeDecode(bs[n..]);
      assert bs == bs[..n] + bs[n..];
    }
  }
}
