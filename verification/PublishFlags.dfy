/**
  publish.hpp: the options in the low four bits of a PUBLISH header. Bit 0 is retain, bits 1
  and 2 are the QoS, bit 3 is dup.
*/
module PublishFlags {
  import opened Bytes

  function GetQos(v: byte): (q: nat)
    ensures q < 4
  {
    v % 16 % 8 / 2
  }

  /** The QoS is in bits 1 and 2. */
  lemma QosBits(v: byte)
    ensures GetQos(v) == v / 2 % 4
  {
    var low, high := v % 16, v / 16;
    assert v == 16 * high + low;
    assert low / 2 == v / 2 - 8 * high;
    assert low % 8 / 2 == low / 2 % 4;
  }

  predicate IsRetain(v: byte) { v % 16 % 2 == 1 }

  predicate IsDup(v: byte) { v % 16 >= 8 }

  /** make_fixed_header(publish, 0) | opts: bits 4 and 5 are set. */
  function FixedHeader(opts: byte): (h: byte)
    ensures GetQos(h) == GetQos(opts) && IsRetain(h) == IsRetain(opts) && IsDup(h) == IsDup(opts)
    ensures h / 16 == 3 <==> opts < 64
  {
    Digit(16, opts % 16, opts / 64 * 4 + 3);
    opts / 64 * 64 + 0x30 + opts % 16
  }

  /** The three low bits, the dup bit and the high half of a byte. */
  lemma Nibbles(bits: nat, dup: bool, high: nat)
    requires bits < 8
    ensures var r := bits + (if dup then 8 else 0) + 16 * high;
            r % 16 % 8 == bits && (r % 16 >= 8) == dup && r / 16 == high
  {
    Digit(16, bits + if dup then 8 else 0, high);
  }

  /** set_dup: bit 3 is written, the others stay. */
  function SetDupBit(h: byte, dup: bool): (r: byte)
    ensures IsDup(r) == dup && GetQos(r) == GetQos(h) && IsRetain(r) == IsRetain(h) && r / 16 == h / 16
  {
    var bits := h % 16 % 8;
    Nibbles(bits, dup, h / 16);
    bits + (if dup then 8 else 0) + 16 * (h / 16)
  }

  lemma HeaderBits(dup: bool, qos: nat, retain: bool)
    requires qos < 4
    ensures var h: byte := 0x30 + (if dup then 8 else 0) + 2 * qos + (if retain then 1 else 0);
            h / 16 == 3 && GetQos(h) == qos && IsDup(h) == dup && IsRetain(h) == retain
  {
    Digit(16, (if dup then 8 else 0) + 2 * qos + (if retain then 1 else 0), 3);
  }

  /** The options and the packet type are all there is in a PUBLISH header. */
  lemma HeaderFromBits(h: byte)
    requires h / 16 == 3
    ensures h == 0x30 + (if IsDup(h) then 8 else 0) + 2 * GetQos(h) + (if IsRetain(h) then 1 else 0)
  {
  }
}
