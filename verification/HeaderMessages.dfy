/** The fixed-size messages: header only, header with packet identifier, and CONNACK. */
module HeaderMessages {
  import opened Bytes
  import opened Wrappers
  import opened VariableLength
  import opened Wire

  /** header_only_message: its two bytes are the whole packet, in every serialized form. */
  method HeaderOnlyMessage(n: Width, kind: HeaderKind) returns (message: seq<byte>)
    ensures message == PacketBytes(n, HeaderOnly(kind))
  {
    message := [HeaderByte(kind), 0];
    assert Encode(0) + [] == [0];
  }

  /** basic_header_packet_id_message. */
  method PacketIdMessage(n: Width, kind: AckKind, packetId: nat) returns (message: seq<byte>)
    requires packetId < IdLimit(n)
    ensures message == PacketBytes(n, Ack(kind, packetId))
  {
    message := [AckHeader(kind), n];
    message := AddPacketIdToBuf(n, message, packetId);
    assert Encode(n) == [n];
    assert [AckHeader(kind)] + ([n] + IdBytes(n, packetId)) == [AckHeader(kind), n] + IdBytes(n, packetId);
  }

  method ConnackMessage(n: Width, sessionPresent: bool, returnCode: byte) returns (message: seq<byte>)
    ensures message == PacketBytes(n, Connack(sessionPresent, returnCode))
  {
    message := [0x20, 0x02, if sessionPresent then 1 else 0, returnCode];
    assert Encode(2) == [2];
  }

  // ---------- PUBREL read back ----------

  /** The constructor from a buffer keeps the buffer as it is, fixed header unchecked. */
  function ParsePubrel(n: Width, b: seq<byte>): Result<seq<byte>> {
    if |b| != 2 + n then Failure(RemainingLength)
    else if b[1] != n then Failure(RemainingLength)
    else Success(b)
  }

  function PubrelId(n: Width, message: seq<byte>): nat
    requires |message| == 2 + n
  {
    MakeId(n, message[2..])
  }

  lemma PubrelRoundTrip(n: Width, id: nat)
    requires id < IdLimit(n)
    ensures var b := PacketBytes(n, Ack(Pubrel, id));
            && ParsePubrel(n, b) == Success(b) && |b| == 2 + n && PubrelId(n, b) == id
  {
    assert Encode(n) == [n];
    var b := PacketBytes(n, Ack(Pubrel, id));
    assert b[2..] == IdBytes(n, id);
    IdRoundTrip(n, id, IdBytes(n, id));
  }

  /** A buffer is accepted exactly if its second byte says how many follow, and they are a packet
      identifier. */
  lemma PubrelErrors(n: Width, b: seq<byte>)
    ensures ParsePubrel(n, b) ==
              if |b| >= 2 && b[1] as int == n && |b| - 2 == n then Success(b) else Failure(RemainingLength)
  {
  }

  /** Whatever is accepted is a PUBREL packet up to its first byte, which alone decides
      whether it is a PUBREL. */
  lemma PubrelAccepts(n: Width, b: seq<byte>)
    requires ParsePubrel(n, b).Success?
    ensures b == [b[0]] + PacketBytes(n, Ack(Pubrel, PubrelId(n, b)))[1..]
    ensures b == PacketBytes(n, Ack(Pubrel, PubrelId(n, b))) <==> b[0] == 0x62
  {
    assert Encode(n) == [n];
    IdRoundTrip(n, 0, b[2..]);
    assert b[..2] + b[2..] == b;
    assert b[..2] == [b[0], n];
  }
}
