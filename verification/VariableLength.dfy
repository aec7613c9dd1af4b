/**
  Variable byte integers: section 1.5.5 of MQTT v5.0, section 2.2.3 of MQTT v3.1.1.
  Seven bits a byte, least significant first; the high bit says that more follows.
*/
module VariableLength {
  import opened Bytes
  import opened Wrappers

  const MAX: nat := 0xfff_ffff

  // ---------- specification ----------

  function Encode(n: nat): (b: seq<byte>)
    ensures |b| >= 1
  {
    if n > 127 then [n % 128 + 128] + Encode(n / 128) else [n]
  }

  /** What the encoders write: nothing above MAX. */
  function Encoded(n: nat): seq<byte> {
    if n > MAX then [] else Encode(n)
  }

  /** How many bytes the continuation bits chain together. */
  function Chain(b: seq<byte>): (k: nat)
    ensures k <= |b|
    ensures b != [] ==> k > 0
  {
    if b == [] then 0 else if b[0] < 128 then 1 else 1 + Chain(b[1..])
  }

  function Value(b: seq<byte>): nat {
    if b == [] then 0 else b[0] % 128 + 128 * Value(b[1..])
  }

  /** (value, consumed). The end of the data ends the number too; five bytes are too many. */
  function Decode(b: seq<byte>): (r: (nat, nat))
    ensures r.1 <= 4 && r.1 <= |b|
  {
    var k := Chain(b);
    if k > 4 then (0, 0) else (Value(b[..k]), k)
  }

  function Pow128(k: nat): (p: nat)
    ensures p > 0
  {
    if k == 0 then 1 else 128 * Pow128(k - 1)
  }

  /** A byte with the continuation bit, put behind what is written already. */
  lemma EncodeNext(done: seq<byte>, n: nat)
    requires n > 127
    ensures done + Encode(n) == done + [n % 128 + 128] + Encode(n / 128)
  {
    Assoc(done, [n % 128 + 128], Encode(n / 128));
  }

  lemma EncodeLast(n: nat)
    requires n <= 127
    ensures Encode(n) == [n % 128]
  {
  }

  // ---------- the encoders and decoders ----------

  method VariableBytes(size: nat) returns (bytes: seq<byte>)
    ensures bytes == Encoded(size)
  {
    hide Encode;
    bytes := [];
    if size > MAX { return; }
    var rest := size;
    while rest > 127
      invariant bytes + Encode(rest) == Encode(size)
      decreases rest
    {
      EncodeNext(bytes, rest);
      bytes := bytes + [rest % 128 + 128];
      rest := rest / 128;
    }
    EncodeLast(rest);
    bytes := bytes + [rest % 128];
  }

  method VariablePush(c: seq<byte>, size: nat) returns (r: seq<byte>)
    ensures r == c + Encoded(size)
  {
    hide Encode;
    r := c;
    if size > MAX { return; }
    var rest := size;
    while rest > 127
      invariant r + Encode(rest) == c + Encode(size)
      decreases rest
    {
      EncodeNext(r, rest);
      r := r + [rest % 128 + 128];
      rest := rest / 128;
    }
    EncodeLast(rest);
    r := r + [rest % 128];
  }

  /** The overload over a container. */
  method VariableLength(bytes: seq<byte>) returns (len: nat, consumed: nat)
    ensures (len, consumed) == Decode(bytes)
  {
    len, consumed := 0, 0;
    var mul: nat := 1;
    for i := 0 to |bytes|
      invariant i <= 4 && consumed == i
      invariant len == Value(bytes[..i]) && mul == Pow128(i)
      invariant Chain(bytes) == i + Chain(bytes[i..])
    {
      var b := bytes[i];
      ValueSnoc(bytes[..i], b);
      assert bytes[..i] + [b] == bytes[..i + 1];
      assert bytes[i..][0] == b && bytes[i..][1..] == bytes[i + 1..];
      len := len + (b as int % 128) * mul;
      mul := mul * 128;
      consumed := consumed + 1;
      Powers();
      if mul > 128 * 128 * 128 * 128 {
        return 0, 0;
      }
      if b < 128 { break; }
    }
    assert bytes[..|bytes|] == bytes;
  }

  /** The overload over an iterator range, here the indices [b, e) of `data`. */
  method VariableLengthRange(data: seq<byte>, b: nat, e: nat) returns (len: nat, consumed: nat)
    requires b <= e <= |data|
    ensures (len, consumed) == Decode(data[b..e])
  {
    ghost var bytes := data[b..e];
    len, consumed := 0, 0;
    var mul: nat := 1;
    var it := b;
    while it != e
      invariant b <= it <= e && it - b == consumed <= 4
      invariant len == Value(bytes[..consumed]) && mul == Pow128(consumed)
      invariant Chain(bytes) == consumed + Chain(bytes[consumed..])
      decreases e - it
    {
      ValueSnoc(bytes[..consumed], data[it]);
      assert bytes[..consumed] + [data[it]] == bytes[..consumed + 1];
      assert bytes[consumed..][0] == data[it] && bytes[consumed..][1..] == bytes[consumed + 1..];
      len := len + (data[it] as int % 128) * mul;
      mul := mul * 128;
      consumed := consumed + 1;
      Powers();
      if mul > 128 * 128 * 128 * 128 {
        return 0, 0;
      }
      if data[it] < 128 { return; }
      it := it + 1;
    }
    assert bytes[..consumed] == bytes;
  }

  /** remaining_bytes: the encoding, or remaining_length_error when there is none. */
  method RemainingBytes(size: nat) returns (r: Result<seq<byte>>)
    ensures r == if size > MAX then Failure(RemainingLength) else Success(Encode(size))
  {
    var bytes := VariableBytes(size);
    if size <= MAX { EncodeLength(size, 4); Powers(); }
    if |bytes| == 0 || |bytes| > 4 {
      r := Failure(RemainingLength);
    } else {
      r := Success(bytes);
    }
  }

  // ---------- properties ----------

  lemma Powers()
    ensures Pow128(0) == 1 && Pow128(1) == 128 && Pow128(2) == 0x4000
    ensures Pow128(3) == 0x20_0000 && Pow128(4) == 0x1000_0000 && Pow128(5) == 0x8_0000_0000
  {
    assert Pow128(1) == 128 * Pow128(0);
    assert Pow128(2) == 128 * Pow128(1);
    assert Pow128(3) == 128 * Pow128(2);
    assert Pow128(4) == 128 * Pow128(3);
  }

  lemma {:induction false} ValueSnoc(s: seq<byte>, b: byte)
    ensures Value(s + [b]) == Value(s) + (b % 128) * Pow128(|s|)
  {
    if s == [] {
      assert (s + [b])[1..] == [];
    } else {
      assert (s + [b])[1..] == s[1..] + [b];
      ValueSnoc(s[1..], b);
      assert 128 * ((b % 128) * Pow128(|s| - 1)) == (b % 128) * (128 * Pow128(|s| - 1));
    }
  }

  /** The encoder is minimal: k bytes are enough exactly for the numbers below 128^k. */
  lemma {:induction false} EncodeLength(n: nat, k: nat)
    requires k > 0
    ensures |Encode(n)| <= k <==> n < Pow128(k)
  {
    if k == 1 {
      assert Pow128(1) == 128 * Pow128(0);
      if n > 127 { assert |Encode(n / 128)| >= 1; }
    } else {
      assert Pow128(k) == 128 * Pow128(k - 1);
      if n > 127 {
        EncodeLength(n / 128, k - 1);
      } else {
        assert Pow128(k) >= 128;
      }
    }
  }

  /** Encodings are self-delimiting: they decode to what was encoded, whatever follows. */
  lemma {:induction false} ChainOfEncoding(n: nat, rest: seq<byte>)
    ensures Chain(Encode(n) + rest) == |Encode(n)|
    ensures Value(Encode(n)) == n
  {
    var b := Encode(n) + rest;
    if n > 127 {
      assert b[1..] == Encode(n / 128) + rest;
      assert Encode(n)[1..] == Encode(n / 128);
      ChainOfEncoding(n / 128, rest);
    } else {
      assert b[0] == n && Encode(n)[1..] == [];
    }
  }

  lemma RoundTrip(n: nat, rest: seq<byte>)
    requires n <= MAX
    ensures 1 <= |Encode(n)| <= 4
    ensures Decode(Encode(n) + rest) == (n, |Encode(n)|)
  {
    EncodeLength(n, 4);
    Powers();
    ChainOfEncoding(n, rest);
    assert (Encode(n) + rest)[..|Encode(n)|] == Encode(n);
  }

  lemma {:induction false} ValueBound(b: seq<byte>)
    ensures Value(b) < Pow128(|b|)
  {
    if b != [] {
      ValueBound(b[1..]);
    }
  }

  /** The chained bytes have the continuation bit, all but possibly the last. */
  lemma {:induction false} ChainBits(b: seq<byte>)
    ensures forall i :: 0 <= i < Chain(b) - 1 ==> b[i] >= 128
    ensures Chain(b) < |b| ==> b[Chain(b) - 1] < 128
  {
    if b != [] && b[0] >= 128 {
      ChainBits(b[1..]);
    }
  }

  /** Any input: what the decoder accepts is bounded, and re-encoding never needs more bytes. It
      consists of bytes with the continuation bit up to one without it, or up to the end. */
  lemma DecodeBounds(b: seq<byte>)
    ensures Decode(b).1 > 0 ==> Decode(b).0 < Pow128(Decode(b).1)
    ensures Decode(b).1 > 0 ==> |Encode(Decode(b).0)| <= Decode(b).1
    ensures Decode(b).0 <= MAX
    ensures Decode(b).1 == 0 <==> b == [] || Chain(b) > 4
    ensures var k := Decode(b).1;
            k > 0 ==> (forall i :: 0 <= i < k - 1 ==> b[i] >= 128) && (b[k - 1] < 128 || k == |b|)
  {
    var k := Chain(b);
    ChainBits(b);
    if 0 < k <= 4 {
      ValueBound(b[..k]);
      EncodeLength(Value(b[..k]), k);
      Powers();
    }
  }

  lemma EncodeUnfold(n: nat)
    requires n > 127
    ensures Encode(n) == [n % 128 + 128] + Encode(n / 128)
  {
  }

  lemma Encode2(n: nat)
    requires 0x80 <= n < 0x4000
    ensures Encode(n) == [n % 128 + 128, n / 128]
  {
    hide Encode;
    EncodeUnfold(n);
    EncodeLast(n / 128);
  }

  lemma Encode3(n: nat)
    requires 0x4000 <= n < 0x20_0000
    ensures Encode(n) == [n % 128 + 128, n / 128 % 128 + 128, n / 128 / 128]
  {
    hide Encode;
    var a := n / 128;
    assert 0x80 <= a < 0x4000;
    EncodeUnfold(n);
    Encode2(a);
  }

  lemma Encode4(n: nat)
    requires 0x20_0000 <= n < 0x1000_0000
    ensures Encode(n) == [n % 128 + 128, n / 128 % 128 + 128, n / 128 / 128 % 128 + 128, n / 128 / 128 / 128]
  {
    hide Encode;
    var a := n / 128;
    assert 0x4000 <= a < 0x20_0000;
    EncodeUnfold(n);
    Encode3(a);
  }

  /** The digits of an encoding, least significant first, all but the last with the high bit. */
  lemma EncodeDigits(n: nat)
    requires n <= 0xfff_ffff
    ensures n < 0x80 ==> Encode(n) == [n]
    ensures 0x80 <= n < 0x4000 ==> Encode(n) == [n % 128 + 128, n / 128]
    ensures 0x4000 <= n < 0x20_0000 ==> Encode(n) == [n % 128 + 128, n / 128 % 128 + 128, n / 128 / 128]
    ensures 0x20_0000 <= n ==>
              Encode(n) == [n % 128 + 128, n / 128 % 128 + 128, n / 128 / 128 % 128 + 128, n / 128 / 128 / 128]
  {
    if n < 0x80 {
      assert Encode(n) == [n];
    } else if n < 0x4000 {
      hide Encode;
      Encode2(n);
    } else if n < 0x20_0000 {
      hide Encode;
      Encode3(n);
    } else {
      hide Encode;
      Encode4(n);
    }
  }

  /** The canonical number strings: terminated, and no redundant zero group at the end. */
  ghost predicate Canonical(b: seq<byte>) {
    && b != []
    && (forall i :: 0 <= i < |b| - 1 ==> b[i] >= 128)
    && b[|b| - 1] < 128
    && (|b| > 1 ==> b[|b| - 1] != 0)
  }

  lemma {:induction false} EncodeIsCanonical(n: nat)
    ensures Canonical(Encode(n))
    ensures n > 0 ==> Encode(n)[|Encode(n)| - 1] != 0
  {
    if n > 127 {
      EncodeIsCanonical(n / 128);
      assert Encode(n)[1..] == Encode(n / 128);
    }
  }

  lemma {:induction false} CanonicalReencodes(b: seq<byte>)
    requires Canonical(b)
    ensures Encode(Value(b)) == b
  {
    if |b| == 1 {
      assert Value(b[1..]) == 0;
    } else {
      var t := b[1..];
      CanonicalTail(b);
      CanonicalReencodes(t);
      hide Canonical;
      ValueOfLonger(b);
      assert b == [b[0]] + t;
    }
  }

  lemma CanonicalTail(b: seq<byte>)
    requires Canonical(b) && |b| > 1
    ensures Canonical(b[1..]) && b[0] >= 128 && Value(b[1..]) > 0
  {
    assert b[1..][|b| - 2] == b[|b| - 1];
    NonZero(b[1..]);
  }

  lemma ValueOfLonger(b: seq<byte>)
    requires |b| > 1 && b[0] >= 128 && Value(b[1..]) > 0
    ensures Value(b) > 127 && Value(b) / 128 == Value(b[1..]) && Value(b) % 128 + 128 == b[0]
  {
    Digit(128, b[0] - 128, Value(b[1..]));
  }

  /** Re-encoding gives the very same bytes exactly for the canonical strings. */
  lemma ReencodeIffCanonical(b: seq<byte>)
    ensures Encode(Value(b)) == b <==> Canonical(b)
  {
    EncodeIsCanonical(Value(b));
    if Canonical(b) {
      CanonicalReencodes(b);
    }
  }

  lemma {:induction false} NonZero(b: seq<byte>)
    requires b != [] && 0 < b[|b| - 1] < 128
    ensures Value(b) > 0
  {
    if |b| > 1 {
      assert b[1..][|b[1..]| - 1] == b[|b| - 1];
      NonZero(b[1..]);
    } else {
      assert Value(b[1..]) == 0;
    }
  }

  lemma {:induction false} ChainOfContinued(b: seq<byte>)
    requires forall i :: 0 <= i < |b| ==> b[i] >= 128
    ensures Chain(b) == |b|
  {
    if b != [] {
      ChainOfContinued(b[1..]);
    }
  }

  lemma {:induction false} TruncatedValue(n: nat, k: nat)
    requires 0 < k < |Encode(n)|
    ensures Value(Encode(n)[..k]) < n
    ensures forall i :: 0 <= i < k ==> Encode(n)[i] >= 128
  {
    var e := Encode(n);
    assert e[1..] == Encode(n / 128);
    if k == 1 {
      assert e[..1][1..] == [];
    } else {
      TruncatedValue(n / 128, k - 1);
      assert e[..k][1..] == Encode(n / 128)[..k - 1];
      assert forall i :: 1 <= i < k ==> e[i] == Encode(n / 128)[i - 1];
    }
  }

  /** The end of the data ends a number: an encoding that is cut short is accepted whole, as a
      smaller number. Only the caller can tell, by the continuation bit of the last byte. */
  lemma TruncatedIsAccepted(n: nat, k: nat)
    requires n <= MAX && 0 < k < |Encode(n)|
    ensures var b := Encode(n)[..k];
            Decode(b).1 == k && Decode(b).0 < n && b[k - 1] >= 128
  {
    var b := Encode(n)[..k];
    RoundTrip(n, []);
    TruncatedValue(n, k);
    ChainOfContinued(b);
    assert b[..k] == b;
  }
}
