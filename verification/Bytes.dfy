/**
  Byte strings and the fixed-width big-endian integers of two_byte_util.hpp and
  four_byte_util.hpp. A `char` of the program is its unsigned value here, a shift
  by eight is a division by 256 and a mask with 0xff a remainder.
*/
module Bytes {

  type byte = x: int | 0 <= x < 0x100
  type uint16 = x: int | 0 <= x < 0x1_0000
  type uint32 = x: int | 0 <= x < 0x1_0000_0000

  /** The contents check of UTF-8 strings. It is a parameter throughout, because
      MQTT_USE_STR_CHECK decides at build time whether anything is rejected. */
  type Utf8Check = seq<byte> -> bool

  /** A string_view that is shortened in place. */
  class Buffer {
    var data: seq<byte>

    constructor (data: seq<byte>)
      ensures this.data == data
    {
      this.data := data;
    }

    method RemovePrefix(n: nat)
      requires n <= |data|
      modifies this
      ensures data == old(data)[n..]
    {
      data := data[n..];
    }
  }

  // ---------- copying into a range ----------

  /** `s` with `w` written over it from position `at`. */
  function Overwrite(s: seq<byte>, at: nat, w: seq<byte>): (r: seq<byte>)
    requires at + |w| <= |s|
    ensures |r| == |s|
  {
    s[..at] + w + s[at + |w|..]
  }

  lemma OverwriteNext(s: seq<byte>, at: nat, w: seq<byte>, next: seq<byte>)
    requires at + |w| + |next| <= |s|
    ensures Overwrite(Overwrite(s, at, w), at + |w|, next) == Overwrite(s, at, w + next)
  {
    var m := Overwrite(s, at, w);
    assert m[..at + |w|] == s[..at] + w;
    assert m[at + |w| + |next|..] == s[at + |w| + |next|..];
    Assoc(s[..at], w, next);
  }

  lemma OverwriteOne(s: seq<byte>, at: nat, v: byte)
    requires at < |s|
    ensures Overwrite(s, at, [v]) == s[at := v]
  {
  }

  /** std::copy of `src` to position `at`. */
  method CopyInto(a: array<byte>, at: nat, src: seq<byte>)
    requires at + |src| <= a.Length
    modifies a
    ensures a[..] == Overwrite(old(a[..]), at, src)
  {
    for k := 0 to |src|
      invariant forall i :: 0 <= i < a.Length ==>
                  a[i] == if at <= i < at + k then src[i - at] else old(a[i])
    {
      a[at + k] := src[k];
    }
  }

  // ---------- two and four byte integers ----------

  function TwoBytes(v: uint16): (b: seq<byte>)
    ensures |b| == 2
  {
    [v / 0x100, v % 0x100]
  }

  function FourBytes(v: uint32): (b: seq<byte>)
    ensures |b| == 4
  {
    TwoBytes(v / 0x1_0000) + TwoBytes(v % 0x1_0000)
  }

  function MakeUint16(b: seq<byte>): uint16
    requires |b| == 2
  {
    b[0] as int * 0x100 + b[1]
  }

  function MakeUint32(b: seq<byte>): uint32
    requires |b| == 4
  {
    MakeUint16(b[..2]) as int * 0x1_0000 + MakeUint16(b[2..])
  }

  method AddUint16ToBuf(buf: seq<byte>, num: uint16) returns (r: seq<byte>)
    ensures r == buf + TwoBytes(num)
  {
    r := buf + [num / 0x100];
    r := r + [num % 0x100];
  }

  method AddUint32ToBuf(buf: seq<byte>, num: uint32) returns (r: seq<byte>)
    ensures r == buf + FourBytes(num)
  {
    r := buf + [num / 0x100_0000];
    r := r + [num / 0x1_0000 % 0x100];
    r := r + [num / 0x100 % 0x100];
    r := r + [num % 0x100];
    assert FourBytes(num) == [num / 0x100_0000, num / 0x1_0000 % 0x100, num / 0x100 % 0x100, num % 0x100] by {
      ShiftedBytes(num);
    }
  }

  /** The four shifts and masks of add_uint32_t_to_buf, as two halves. */
  lemma ShiftedBytes(v: uint32)
    ensures v / 0x1_0000 / 0x100 == v / 0x100_0000
    ensures v % 0x1_0000 / 0x100 == v / 0x100 % 0x100
    ensures v % 0x1_0000 % 0x100 == v % 0x100
  {
    var h, lo := v / 0x100, v % 0x100;
    var hi, mid := h / 0x100, h % 0x100;
    assert v == hi * 0x1_0000 + (mid * 0x100 + lo);
    assert v / 0x1_0000 == hi && v % 0x1_0000 == mid * 0x100 + lo;
  }

  /** make_uint32_t: the four bytes, most significant first. */
  method MakeUint32FromBytes(b: seq<byte>) returns (v: uint32)
    requires |b| == 4
    ensures v == MakeUint32(b)
  {
    v := b[0] as int * 0x100_0000 + b[1] as int * 0x1_0000 + b[2] as int * 0x100 + b[3];
  }

  lemma Uint16RoundTrip(v: uint16, b: seq<byte>)
    requires |b| == 2
    ensures MakeUint16(TwoBytes(v)) == v
    ensures TwoBytes(MakeUint16(b)) == b
  {
  }

  lemma Uint32RoundTrip(v: uint32, b: seq<byte>)
    requires |b| == 4
    ensures MakeUint32(FourBytes(v)) == v
    ensures FourBytes(MakeUint32(b)) == b
  {
    var f := FourBytes(v);
    assert f[..2] == TwoBytes(v / 0x1_0000) && f[2..] == TwoBytes(v % 0x1_0000);
    Uint16RoundTrip(v / 0x1_0000, b[..2]);
    Uint16RoundTrip(v % 0x1_0000, b[2..]);
    assert b[..2] + b[2..] == b;
  }

  /** Dividing by a power of two takes the low bits off. */
  lemma Digit(k: int, a: int, b: int)
    requires k == 2 || k == 4 || k == 8 || k == 16 || k == 32 || k == 64 || k == 128
    requires 0 <= a < k
    ensures (a + k * b) / k == b && (a + k * b) % k == a
  {
    if k == 2 || k == 4 || k == 8 {
    } else if k == 16 || k == 32 {
    } else {
    }
  }

  // ---------- packet identifiers, two or four bytes wide ----------

  /** The two instantiations of PacketIdBytes. */
  type Width = n: nat | n == 2 || n == 4 witness 2

  function IdLimit(n: Width): nat {
    if n == 2 then 0x1_0000 else 0x1_0000_0000
  }

  function IdBytes(n: Width, id: nat): (b: seq<byte>)
    requires id < IdLimit(n)
    ensures |b| == n
  {
    if n == 2 then TwoBytes(id) else FourBytes(id)
  }

  function MakeId(n: Width, b: seq<byte>): (id: nat)
    requires |b| == n
    ensures id < IdLimit(n)
  {
    if n == 2 then MakeUint16(b) else MakeUint32(b)
  }

  method AddPacketIdToBuf(n: Width, buf: seq<byte>, id: nat) returns (r: seq<byte>)
    requires id < IdLimit(n)
    ensures r == buf + IdBytes(n, id)
  {
    if n == 2 {
      r := AddUint16ToBuf(buf, id);
    } else {
      r := AddUint32ToBuf(buf, id);
    }
  }

  lemma IdRoundTrip(n: Width, id: nat, b: seq<byte>)
    requires id < IdLimit(n) && |b| == n
    ensures MakeId(n, IdBytes(n, id)) == id
    ensures IdBytes(n, MakeId(n, b)) == b
  {
    if n == 2 {
      Uint16RoundTrip(id, b);
    } else {
      Uint32RoundTrip(id, b);
    }
  }

  /** Most significant byte first, in both widths. */
  lemma IdLayout(n: Width, id: nat)
    requires id < IdLimit(n)
    ensures n == 2 ==> IdBytes(n, id) == [id / 256, id % 256]
    ensures n == 4 ==>
              IdBytes(n, id) == [id / 0x100_0000, id / 0x1_0000 % 256, id / 0x100 % 256, id % 256]
  {
    if n == 4 { ShiftedBytes(id); }
  }

  // ---------- lists of buffers ----------

  lemma Assoc(a: seq<byte>, b: seq<byte>, c: seq<byte>)
    ensures (a + b) + c == a + (b + c)
  {
  }

  /** The bytes that a list of buffers stands for. */
  function Flatten(bufs: seq<seq<byte>>): seq<byte> {
    if bufs == [] then [] else bufs[0] + Flatten(bufs[1..])
  }

  lemma {:induction false} FlattenAppend(a: seq<seq<byte>>, b: seq<seq<byte>>)
    ensures Flatten(a + b) == Flatten(a) + Flatten(b)
  {
    if a == [] {
      assert a + b == b;
    } else {
      assert (a + b)[1..] == a[1..] + b;
      FlattenAppend(a[1..], b);
    }
  }

  lemma FlattenSnoc(a: seq<seq<byte>>, x: seq<byte>)
    ensures Flatten(a + [x]) == Flatten(a) + x
  {
    FlattenAppend(a, [x]);
    assert Flatten([x]) == x + Flatten([]);
  }

  lemma FlattenOne(a: seq<byte>)
    ensures Flatten([a]) == a
  {
    assert Flatten([a]) == a + Flatten([]);
  }

  lemma FlattenTwo(a: seq<byte>, b: seq<byte>)
    ensures Flatten([a, b]) == a + b
  {
    FlattenOne(b);
    assert [a, b][1..] == [b];
  }

  lemma FlattenThree(a: seq<byte>, b: seq<byte>, c: seq<byte>)
    ensures Flatten([a, b, c]) == a + (b + c)
  {
    FlattenTwo(b, c);
    assert [a, b, c][1..] == [b, c];
  }

  lemma FlattenFour(a: seq<byte>, b: seq<byte>, c: seq<byte>, d: seq<byte>)
    ensures Flatten([a, b, c, d]) == a + (b + (c + d))
  {
    FlattenThree(b, c, d);
    assert [a, b, c, d][1..] == [b, c, d];
  }
}
