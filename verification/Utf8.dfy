/**
  utf8encoded_strings.hpp with MQTT_USE_STR_CHECK: the contents check of UTF-8 strings, measured
  against the encoding of Unicode scalar values (RFC 3629) and the characters that section
  1.5.4 of MQTT v5.0 excludes. Masks of leading bits are ranges of the unsigned byte.
*/
module Utf8 {
  import opened Bytes
  import opened Wrappers

  datatype Validation = WellFormed | IllFormed | WellFormedWithNonCharacter

  // ---------- the validator ----------

  /** What one pass of the loop makes of the front of the string. */
  datatype Head = Bad | Good(len: nat, flagged: bool)

  predicate Cont(b: byte) { 0x80 <= b < 0xc0 }

  function HeadOf(s: seq<byte>): (h: Head)
    requires s != []
    ensures h.Good? ==> 0 < h.len <= |s|
  {
    var b := s[0];
    if b < 0x80 then
      if b == 0 then Bad else Good(1, b <= 0x1f || b == 0x7f)
    else if 0xc0 <= b < 0xe0 then
      if |s| < 2 || !Cont(s[1]) || b < 0xc2 then Bad
      else Good(2, b == 0xc2 && s[1] <= 0x9f)
    else if 0xe0 <= b < 0xf0 then
      if |s| < 3 || !Cont(s[1]) || !Cont(s[2]) || (b == 0xe0 && s[1] < 0xa0) || (b == 0xed && s[1] >= 0xa0) then Bad
      else Good(3, b == 0xef && s[1] == 0xbf && s[2] >= 0xbe)
    else if 0xf0 <= b < 0xf8 then
      if |s| < 4 || !Cont(s[1]) || !Cont(s[2]) || !Cont(s[3])
         || (b == 0xf0 && s[1] < 0x90) || (b == 0xf4 && s[1] > 0x8f) || b > 0xf4 then Bad
      else Good(4, s[1] % 16 == 15 && s[2] == 0xbf && s[3] >= 0xbe)
    else Bad
  }

  function ValidateFrom(s: seq<byte>, result: Validation): Validation
    decreases |s|
  {
    if s == [] then result
    else
      match HeadOf(s)
      case Bad => IllFormed
      case Good(len, flagged) => ValidateFrom(s[len..], if flagged then WellFormedWithNonCharacter else result)
  }

  function Validate(s: seq<byte>): Validation {
    ValidateFrom(s, WellFormed)
  }

  method ValidateContents(str: seq<byte>) returns (result: Validation)
    ensures result == Validate(str)
  {
    result := WellFormed;
    var it := 0;
    while it != |str|
      invariant it <= |str| && ValidateFrom(str[it..], result) == Validate(str)
      decreases |str| - it
    {
      ghost var rest := str[it..];
      var b := str[it];
      var left := |str| - it;
      if b < 0x80 {
        if b == 0 { return IllFormed; }
        if (1 <= b <= 0x1f) || b == 0x7f { result := WellFormedWithNonCharacter; }
        it := it + 1;
      } else if 0xc0 <= b < 0xe0 {
        if left < 2 { return IllFormed; }
        if !Cont(str[it + 1]) || b == 0xc0 || b == 0xc1 { return IllFormed; }
        if b == 0xc2 && 0x80 <= str[it + 1] <= 0x9f { result := WellFormedWithNonCharacter; }
        it := it + 2;
      } else if 0xe0 <= b < 0xf0 {
        if left < 3 { return IllFormed; }
        if !Cont(str[it + 1]) || !Cont(str[it + 2])
           || (b == 0xe0 && 0x80 <= str[it + 1] < 0xa0)
           || (b == 0xed && 0xa0 <= str[it + 1] < 0xc0) { return IllFormed; }
        if b == 0xef && str[it + 1] == 0xbf && (str[it + 2] == 0xbe || str[it + 2] == 0xbf) {
          result := WellFormedWithNonCharacter;
        }
        it := it + 3;
      } else if 0xf0 <= b < 0xf8 {
        if left < 4 { return IllFormed; }
        if !Cont(str[it + 1]) || !Cont(str[it + 2]) || !Cont(str[it + 3])
           || (b == 0xf0 && 0x80 <= str[it + 1] < 0x90)
           || (b == 0xf4 && str[it + 1] > 0x8f)
           || b > 0xf4 { return IllFormed; }
        if Masked(str[it + 1]) && str[it + 2] == 0xbf && (str[it + 3] == 0xbe || str[it + 3] == 0xbf) {
          result := WellFormedWithNonCharacter;
        }
        it := it + 4;
      } else {
        return IllFormed;
      }
      assert HeadOf(rest).Good? && rest[HeadOf(rest).len..] == str[it..];
    }
    assert str[it..] == [];
  }

  /** (b & 0b11001111) == 0b10001111 */
  predicate Masked(b: byte) {
    b / 64 == 2 && b % 16 == 15
  }

  // ---------- Unicode ----------

  /** A scalar value other than the null character. */
  predicate Scalar(c: nat) {
    0 < c <= 0x10ffff && !(0xd800 <= c < 0xe000)
  }

  /** Control characters, and the last two code points of every plane. */
  predicate Excluded(c: nat) {
    c <= 0x1f || 0x7f <= c <= 0x9f || c % 0x1_0000 >= 0xfffe
  }

  function EncodeScalar(c: nat): (r: seq<byte>)
    requires Scalar(c)
    ensures 0 < |r| <= 4
  {
    if c < 0x80 then [c]
    else if c < 0x800 then [0xc0 + c / 64, 0x80 + c % 64]
    else if c < 0x1_0000 then [0xe0 + c / 4096, 0x80 + c / 64 % 64, 0x80 + c % 64]
    else [0xf0 + c / 262144, 0x80 + c / 4096 % 64, 0x80 + c / 64 % 64, 0x80 + c % 64]
  }

  function Encode(cs: seq<nat>): seq<byte>
    requires AllScalar(cs)
  {
    if cs == [] then [] else EncodeScalar(cs[0]) + Encode(cs[1..])
  }

  predicate AllScalar(cs: seq<nat>) {
    forall i :: 0 <= i < |cs| ==> Scalar(cs[i])
  }

  predicate NoneExcluded(cs: seq<nat>) {
    forall i :: 0 <= i < |cs| ==> !Excluded(cs[i])
  }

  // ---------- one character ----------

  /** The bytes of a character, read with their weights. */
  function Weighted(s: seq<byte>): int
    requires 0 < |s| <= 4
  {
    if |s| == 1 then s[0]
    else if |s| == 2 then (s[0] as int - 0xc0) * 64 + (s[1] as int - 0x80)
    else if |s| == 3 then (s[0] as int - 0xe0) * 4096 + (s[1] as int - 0x80) * 64 + (s[2] as int - 0x80)
    else (s[0] as int - 0xf0) * 262144 + (s[1] as int - 0x80) * 4096 + (s[2] as int - 0x80) * 64 + (s[3] as int - 0x80)
  }

  lemma Weights3(a: int, b: int, c: int)
    requires 0 <= a < 16 && 0 <= b < 64 && 0 <= c < 64
    ensures var v := a * 4096 + b * 64 + c;
            v / 4096 == a && v / 64 % 64 == b && v % 64 == c
  {
    var v := a * 4096 + b * 64 + c;
    assert v / 64 == a * 64 + b;
  }

  lemma Weights4(a: int, b: int, c: int, d: int)
    requires 0 <= a < 8 && 0 <= b < 64 && 0 <= c < 64 && 0 <= d < 64
    ensures var v := a * 262144 + b * 4096 + c * 64 + d;
            v / 262144 == a && v / 4096 % 64 == b && v / 64 % 64 == c && v % 64 == d
  {
    var v := a * 262144 + b * 4096 + c * 64 + d;
    assert v / 64 == (a * 64 + b) * 64 + c;
    assert v / 4096 == a * 64 + b;
  }

  lemma Plane(b: int, c: int, d: int, a: int)
    requires 0 <= a < 8 && 0 <= b < 64 && 0 <= c < 64 && 0 <= d < 64
    ensures (a * 262144 + b * 4096 + c * 64 + d) % 0x1_0000 >= 0xfffe <==> b % 16 == 15 && c == 63 && d >= 62
  {
    var v := a * 262144 + b * 4096 + c * 64 + d;
    var high, low := a * 4 + b / 16, b % 16 * 4096 + c * 64 + d;
    assert b == b / 16 * 16 + b % 16;
    assert v == high * 0x1_0000 + low;
    Remainder(high, low);
  }

  lemma Remainder(high: int, low: int)
    requires 0 <= low < 0x1_0000
    ensures (high * 0x1_0000 + low) % 0x1_0000 == low
  {
  }

  lemma Scalar2(a: int, b: int)
    requires 2 <= a < 32 && 0 <= b < 64
    ensures var v := a * 64 + b;
            && Scalar(v) && EncodeScalar(v) == [0xc0 + a, 0x80 + b]
            && (Excluded(v) <==> a == 2 && b <= 0x1f)
  {
  }

  lemma Scalar3(a: int, b: int, c: int)
    requires 0 <= a < 16 && 0 <= b < 64 && 0 <= c < 64 && (a == 0 ==> b >= 32) && (a == 13 ==> b < 32)
    ensures var v := a * 4096 + b * 64 + c;
            && Scalar(v) && EncodeScalar(v) == [0xe0 + a, 0x80 + b, 0x80 + c]
            && (Excluded(v) <==> a == 15 && b == 63 && c >= 62)
  {
    hide Excluded;
    Excluded3(a, b, c);
    Weights3(a, b, c);
  }

  lemma Excluded3(a: int, b: int, c: int)
    requires 0 <= a < 16 && 0 <= b < 64 && 0 <= c < 64 && (a == 0 ==> b >= 32)
    ensures Excluded(a * 4096 + b * 64 + c) <==> a == 15 && b == 63 && c >= 62
  {
    var v := a * 4096 + b * 64 + c;
    assert v % 0x1_0000 == v;
  }

  lemma Scalar4(a: int, b: int, c: int, d: int)
    requires 0 <= a <= 4 && 0 <= b < 64 && 0 <= c < 64 && 0 <= d < 64 && (a == 0 ==> b >= 16) && (a == 4 ==> b < 16)
    ensures var v := a * 262144 + b * 4096 + c * 64 + d;
            && Scalar(v) && EncodeScalar(v) == [0xf0 + a, 0x80 + b, 0x80 + c, 0x80 + d]
            && (Excluded(v) <==> b % 16 == 15 && c == 63 && d >= 62)
  {
    Weights4(a, b, c, d);
    Plane(b, c, d, a);
  }

  /** The first `len` bytes encode a scalar value, which is excluded exactly if flagged. */
  ghost predicate IsScalarFront(s: seq<byte>, len: nat, flagged: bool)
    requires 0 < len <= |s| && len <= 4
  {
    var c := Weighted(s[..len]);
    c >= 0 && Scalar(c) && EncodeScalar(c) == s[..len] && flagged == Excluded(c)
  }

  lemma Front2(s: seq<byte>, a: int, b: int)
    requires |s| >= 2 && s[0] == 0xc0 + a && s[1] == 0x80 + b && 2 <= a < 32 && 0 <= b < 64
    ensures IsScalarFront(s, 2, a == 2 && b <= 0x1f)
  {
    hide Scalar, EncodeScalar, Excluded;
    Scalar2(a, b);
    assert s[..2] == [s[0], s[1]];
  }

  lemma Front3(s: seq<byte>, a: int, b: int, c: int)
    requires |s| >= 3 && s[0] == 0xe0 + a && s[1] == 0x80 + b && s[2] == 0x80 + c
    requires 0 <= a < 16 && 0 <= b < 64 && 0 <= c < 64 && (a == 0 ==> b >= 32) && (a == 13 ==> b < 32)
    ensures IsScalarFront(s, 3, a == 15 && b == 63 && c >= 62)
  {
    hide Scalar, EncodeScalar, Excluded;
    Scalar3(a, b, c);
    assert s[..3] == [s[0], s[1], s[2]];
  }

  lemma Front4(s: seq<byte>, a: int, b: int, c: int, d: int)
    requires |s| >= 4 && s[0] == 0xf0 + a && s[1] == 0x80 + b && s[2] == 0x80 + c && s[3] == 0x80 + d
    requires 0 <= a <= 4 && 0 <= b < 64 && 0 <= c < 64 && 0 <= d < 64 && (a == 0 ==> b >= 16) && (a == 4 ==> b < 16)
    ensures IsScalarFront(s, 4, b % 16 == 15 && c == 63 && d >= 62)
  {
    hide Scalar, EncodeScalar, Excluded;
    Scalar4(a, b, c, d);
    assert s[..4] == [s[0], s[1], s[2], s[3]];
  }

  /** A front that the loop accepts is the encoding of a scalar value, and it is flagged exactly
      if that character is an excluded one. */
  lemma HeadIsScalar(s: seq<byte>)
    requires s != [] && HeadOf(s).Good?
    ensures HeadOf(s).len <= 4 && IsScalarFront(s, HeadOf(s).len, HeadOf(s).flagged)
  {
    hide IsScalarFront, HeadOf;
    var len := HeadOf(s).len;
    if s[0] < 0x80 {
      HeadIsScalar1(s);
    } else if s[0] < 0xe0 {
      HeadIsScalar2(s);
    } else if s[0] < 0xf0 {
      HeadIsScalar3(s);
    } else {
      HeadIsScalar4(s);
    }
  }

  lemma HeadIsScalar1(s: seq<byte>)
    requires s != [] && HeadOf(s).Good? && s[0] < 0x80
    ensures HeadOf(s).len == 1 && IsScalarFront(s, 1, HeadOf(s).flagged)
  {
    assert s[..1] == [s[0]];
  }

  lemma HeadIsScalar2(s: seq<byte>)
    requires s != [] && HeadOf(s).Good? && 0x80 <= s[0] < 0xe0
    ensures HeadOf(s).len == 2 && IsScalarFront(s, 2, HeadOf(s).flagged)
  {
    hide IsScalarFront;
    Front2(s, s[0] as int - 0xc0, s[1] as int - 0x80);
  }

  lemma HeadIsScalar3(s: seq<byte>)
    requires s != [] && HeadOf(s).Good? && 0xe0 <= s[0] < 0xf0
    ensures HeadOf(s).len == 3 && IsScalarFront(s, 3, HeadOf(s).flagged)
  {
    hide IsScalarFront;
    Front3(s, s[0] as int - 0xe0, s[1] as int - 0x80, s[2] as int - 0x80);
  }

  lemma HeadIsScalar4(s: seq<byte>)
    requires s != [] && HeadOf(s).Good? && 0xf0 <= s[0]
    ensures HeadOf(s).len == 4 && IsScalarFront(s, 4, HeadOf(s).flagged)
  {
    hide IsScalarFront;
    Front4(s, s[0] as int - 0xf0, s[1] as int - 0x80, s[2] as int - 0x80, s[3] as int - 0x80);
  }

  /** The digits of a scalar value in its encodings of three and of four bytes. */
  lemma Digits3(v: nat)
    requires Scalar(v) && 0x800 <= v < 0x1_0000
    ensures var a, b, c := v / 4096, v / 64 % 64, v % 64;
            v == a * 4096 + b * 64 + c && a < 16 && (a == 0 ==> b >= 32) && (a == 13 ==> b < 32)
  {
    ThreeDigits(v);
  }

  lemma Digits4(v: nat)
    requires Scalar(v) && 0x1_0000 <= v
    ensures var a, b, c, d := v / 262144, v / 4096 % 64, v / 64 % 64, v % 64;
            v == a * 262144 + b * 4096 + c * 64 + d && a <= 4 && (a == 0 ==> b >= 16) && (a == 4 ==> b < 16)
  {
    ThreeDigits(v);
    var w := v / 4096;
    assert v / 262144 == w / 64;
    assert w == w / 64 * 64 + w % 64;
  }

  lemma ThreeDigits(w: nat)
    ensures w == w / 4096 * 4096 + w / 64 % 64 * 64 + w % 64
  {
    assert w / 64 == w / 4096 * 64 + w / 64 % 64;
  }

  /** And every scalar value is accepted so, whatever follows. */
  lemma ScalarIsHead(v: nat, rest: seq<byte>)
    requires Scalar(v)
    ensures HeadOf(EncodeScalar(v) + rest) == Good(|EncodeScalar(v)|, Excluded(v))
  {
    if v < 0x80 {
    } else if v < 0x800 {
      Head2(v / 64, v % 64, rest);
    } else if v < 0x1_0000 {
      Digits3(v);
      Head3(v / 4096, v / 64 % 64, v % 64, rest);
    } else {
      Digits4(v);
      Head4(v / 262144, v / 4096 % 64, v / 64 % 64, v % 64, rest);
    }
  }

  lemma Head2(a: int, b: int, rest: seq<byte>)
    requires 2 <= a < 32 && 0 <= b < 64
    ensures Scalar(a * 64 + b) && |EncodeScalar(a * 64 + b)| == 2
    ensures HeadOf(EncodeScalar(a * 64 + b) + rest) == Good(2, Excluded(a * 64 + b))
  {
    hide Scalar, EncodeScalar, Excluded;
    Scalar2(a, b);
  }

  lemma Head3(a: int, b: int, c: int, rest: seq<byte>)
    requires 0 <= a < 16 && 0 <= b < 64 && 0 <= c < 64 && (a == 0 ==> b >= 32) && (a == 13 ==> b < 32)
    ensures var v := a * 4096 + b * 64 + c;
            Scalar(v) && |EncodeScalar(v)| == 3 && HeadOf(EncodeScalar(v) + rest) == Good(3, Excluded(v))
  {
    hide Scalar, EncodeScalar, Excluded;
    Scalar3(a, b, c);
  }

  lemma Head4(a: int, b: int, c: int, d: int, rest: seq<byte>)
    requires 0 <= a <= 4 && 0 <= b < 64 && 0 <= c < 64 && 0 <= d < 64 && (a == 0 ==> b >= 16) && (a == 4 ==> b < 16)
    ensures var v := a * 262144 + b * 4096 + c * 64 + d;
            Scalar(v) && |EncodeScalar(v)| == 4 && HeadOf(EncodeScalar(v) + rest) == Good(4, Excluded(v))
  {
    hide Scalar, EncodeScalar, Excluded;
    Scalar4(a, b, c, d);
  }

  // ---------- whole strings ----------

  /** The characters of a string that is not ill-formed. */
  function Decode(s: seq<byte>): Option<seq<nat>>
    decreases |s|
  {
    if s == [] then Some([])
    else
      match HeadOf(s)
      case Bad => None
      case Good(len, _) =>
        HeadIsScalar(s);
        match Decode(s[len..])
        case None => None
        case Some(cs) => Some([Weighted(s[..len])] + cs)
  }

  /** What the front contributes to the whole string. */
  lemma FrontDecodes(s: seq<byte>)
    requires s != [] && HeadOf(s).Good?
    ensures var Good(len, flagged) := HeadOf(s);
            len <= 4 && Weighted(s[..len]) >= 0 && s == s[..len] + s[len..]
            && var c := Weighted(s[..len]);
            && Scalar(c) && EncodeScalar(c) == s[..len] && flagged == Excluded(c)
            && Decode(s) == match Decode(s[len..]) case None => None case Some(cs) => Some([c as nat] + cs)
  {
    hide HeadOf, Weighted, EncodeScalar, Scalar, Excluded;
    HeadIsScalar(s);
  }

  lemma {:induction false} ValidateDecodes(s: seq<byte>, result: Validation)
    requires result != IllFormed
    ensures Decode(s).None? <==> ValidateFrom(s, result) == IllFormed
    ensures Decode(s).Some? ==>
              && AllScalar(Decode(s).value) && Encode(Decode(s).value) == s
              && ValidateFrom(s, result) ==
                   if NoneExcluded(Decode(s).value) then result else WellFormedWithNonCharacter
    decreases |s|
  {
    if s != [] && HeadOf(s).Good? {
      hide HeadOf, Weighted, EncodeScalar, Scalar, Excluded, AllScalar, NoneExcluded, Encode;
      var Good(len, flagged) := HeadOf(s);
      FrontDecodes(s);
      hide Decode;
      ValidateDecodes(s[len..], if flagged then WellFormedWithNonCharacter else result);
      if Decode(s[len..]).Some? {
        Prepended(Weighted(s[..len]), Decode(s[len..]).value);
      }
    }
  }

  lemma Prepended(c: nat, cs: seq<nat>)
    requires Scalar(c) && AllScalar(cs)
    ensures AllScalar([c] + cs) && Encode([c] + cs) == EncodeScalar(c) + Encode(cs)
    ensures NoneExcluded([c] + cs) <==> !Excluded(c) && NoneExcluded(cs)
  {
    hide Scalar, Excluded, EncodeScalar;
    var ds := [c] + cs;
    assert ds[0] == c && ds[1..] == cs;
    if NoneExcluded(ds) {
      assert forall i :: 0 <= i < |cs| ==> cs[i] == ds[i + 1];
    }
  }

  lemma {:induction false} EncodeDecodes(cs: seq<nat>)
    requires AllScalar(cs)
    ensures Decode(Encode(cs)) == Some(cs)
  {
    if cs != [] {
      hide HeadOf, Weighted, EncodeScalar, Scalar, Excluded;
      var e, rest := EncodeScalar(cs[0]), Encode(cs[1..]);
      ScalarIsHead(cs[0], rest);
      assert (e + rest)[..|e|] == e && (e + rest)[|e|..] == rest;
      WeightedInverts(cs[0]);
      EncodeDecodes(cs[1..]);
      assert cs == [cs[0]] + cs[1..];
    }
  }

  lemma WeightedInverts(v: nat)
    requires Scalar(v)
    ensures Weighted(EncodeScalar(v)) == v
  {
    if 0x800 <= v < 0x1_0000 {
      Digits3(v);
    } else if v >= 0x1_0000 {
      Digits4(v);
    }
  }

  /** The validator against Unicode: a string is not ill-formed exactly if it encodes scalar
      values without the null character, and it is well-formed exactly if none of them is a
      control character or one of the last two code points of a plane. */
  lemma ValidateIsUnicode(s: seq<byte>)
    ensures Validate(s) != IllFormed <==> exists cs :: AllScalar(cs) && Encode(cs) == s
    ensures Validate(s) == WellFormed <==> exists cs :: AllScalar(cs) && NoneExcluded(cs) && Encode(cs) == s
  {
    ValidateDecodes(s, WellFormed);
    if exists cs :: AllScalar(cs) && Encode(cs) == s {
      var cs :| AllScalar(cs) && Encode(cs) == s;
      EncodeDecodes(cs);
    }
    if exists cs :: AllScalar(cs) && NoneExcluded(cs) && Encode(cs) == s {
      var cs :| AllScalar(cs) && NoneExcluded(cs) && Encode(cs) == s;
      EncodeDecodes(cs);
    }
  }

  /** U+FDD0, a non-character of Unicode outside the last two of a plane, is well-formed. */
  lemma NonCharactersPass()
    ensures Scalar(0xfdd0) && Validate(EncodeScalar(0xfdd0)) == WellFormed
  {
    var s := EncodeScalar(0xfdd0);
    assert s + [] == s;
    ScalarIsHead(0xfdd0, []);
    assert s[|s|..] == [];
  }
}
