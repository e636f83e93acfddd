/**
 * Decimal numerals: `str(n)` as the response writer formats status codes and
 * `Content-Length` values, and `int(b)` as the request framer reads a
 * `Content-Length` header value out of raw bytes.
 */
module Decimal {
  import opened Wrappers
  import opened Text
  import Utf8

  const Underscore: byte := 95
  const Plus: byte := 43
  const Minus: byte := 45

  predicate IsDigitByte(b: byte)
  {
    48 <= b <= 57
  }

  function DigitChar(d: nat): (c: char)
    requires d < 10
    ensures '0' <= c <= '9' && c as int - 48 == d
  {
    (48 + d) as char
  }

  /** `str(n)`: the shortest decimal numeral for `n`. */
  function ShowNat(n: nat): (r: string)
    ensures |r| >= 1
    ensures forall i :: 0 <= i < |r| ==> '0' <= r[i] <= '9'
    ensures r[0] == '0' ==> r == "0"
  {
    if n < 10 then [DigitChar(n)] else ShowNat(n / 10) + [DigitChar(n % 10)]
  }

  /** The digit part of a Python integer literal: digits, with single
      underscores allowed between two digits (`1_000`). */
  predicate IsDigitRun(s: seq<byte>)
  {
    && |s| > 0
    && IsDigitByte(s[0])
    && IsDigitByte(s[|s| - 1])
    && forall i :: 0 <= i < |s| ==>
         || IsDigitByte(s[i])
         || (s[i] == Underscore && 0 < i < |s| - 1 && IsDigitByte(s[i - 1]) && IsDigitByte(s[i + 1]))
  }

  /** The number a run of digits and underscores denotes (underscores ignored). */
  function DigitsValue(s: seq<byte>): nat
  {
    if s == [] then 0
    else if s[|s| - 1] == Underscore || !IsDigitByte(s[|s| - 1]) then DigitsValue(s[..|s| - 1])
    else DigitsValue(s[..|s| - 1]) * 10 + (s[|s| - 1] - 48)
  }

  /** An optionally signed integer literal with nothing around it. */
  function ParseLiteral(s: seq<byte>): (r: Option<int>)
    ensures r.Some? ==> |s| > 0
    ensures r.Some? && r.value < 0 ==> s[0] == Minus
  {
    if |s| > 0 && (s[0] == Plus || s[0] == Minus) then
      if IsDigitRun(s[1..])
      then Some(if s[0] == Minus then 0 - DigitsValue(s[1..]) else DigitsValue(s[1..]))
      else None
    else if IsDigitRun(s) then Some(DigitsValue(s))
    else None
  }

  /** Python's `int(b)` for a `bytes` argument: surrounding ASCII whitespace
      is ignored; `None` where Python raises `ValueError`. */
  function IntOf(b: seq<byte>): Option<int>
  {
    ParseLiteral(StripBytes(b))
  }

  /** Bytes with no whitespace at either end are left alone by `strip()`. */
  lemma StripBytesNoop(s: seq<byte>)
    requires s != [] ==> !IsSpaceByte(s[0]) && !IsSpaceByte(s[|s| - 1])
    ensures StripBytes(s) == s
  {
  }

  lemma {:induction false} DigitsOfShowNat(n: nat)
    ensures Utf8.IsAscii(ShowNat(n))
    ensures |Utf8.Encode(ShowNat(n))| == |ShowNat(n)|
    ensures forall i :: 0 <= i < |ShowNat(n)| ==> IsDigitByte(Utf8.Encode(ShowNat(n))[i])
    ensures DigitsValue(Utf8.Encode(ShowNat(n))) == n
  {
    var s := ShowNat(n);
    Utf8.EncodeAscii(s);
    if n >= 10 {
      var d := DigitChar(n % 10);
      DigitsOfShowNat(n / 10);
      Utf8.EncodeAppend(ShowNat(n / 10), [d]);
      var e := Utf8.Encode(s);
      assert e[..|e| - 1] == Utf8.Encode(ShowNat(n / 10));
    }
  }

  /** What the response writer renders with `str(n)`, `int()` reads back as
      `n`: the two numeral conversions are inverse. */
  lemma IntOfShowNat(n: nat)
    ensures IntOf(Utf8.Encode(ShowNat(n))) == Some(n)
  {
    DigitsOfShowNat(n);
    var e := Utf8.Encode(ShowNat(n));
    assert IsDigitByte(e[0]) && IsDigitByte(e[|e| - 1]);
    StripBytesNoop(e);
    assert IsDigitRun(e);
    assert ParseLiteral(e) == Some(n);
  }

  /** A value written after `": "` still reads back: `int()` drops the space
      that the header separator leaves in front of the digits. */
  lemma IntOfSpaced(n: nat)
    ensures IntOf(Utf8.Encode(" " + ShowNat(n))) == Some(n)
  {
    DigitsOfShowNat(n);
    var e := Utf8.Encode(ShowNat(n));
    Utf8.EncodeAppend(" ", ShowNat(n));
    assert Utf8.Encode(" ") == [32];
    var s := [32] + e;
    assert Utf8.Encode(" " + ShowNat(n)) == s;
    var left := TrimLeft(s, IsSpaceByte);
    assert IsDigitByte(e[0]) && !IsSpaceByte(s[1]);
    assert s[0] == 32 && s[1] == e[0];
    assert |left| == |e|;
    assert left == e;
    assert IsDigitByte(e[|e| - 1]);
    StripBytesNoop(e);
    IntOfShowNat(n);
  }
}
