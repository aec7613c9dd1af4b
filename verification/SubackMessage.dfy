/** basic_suback_message. */
module SubackMessage {
  import opened Bytes
  import opened Wrappers
  import opened VariableLength
  import opened Wire

  datatype Message = Message(
    fixedHeader: byte,
    entries: seq<byte>,
    packetId: seq<byte>,
    remainingLength: nat,
    remainingLengthBuf: seq<byte>)

  function MessageOf(n: Width, p: Packet): Message
    requires p.Suback? && WellFormed(n, p)
  {
    Message(0x90, p.codes, IdBytes(n, p.subackId), |Body(n, p)|, Encode(|Body(n, p)|))
  }

  function Buffers(m: Message): seq<seq<byte>> {
    [[m.fixedHeader], m.remainingLengthBuf, m.packetId, m.entries]
  }

  function Size(m: Message): nat {
    1 + |m.remainingLengthBuf| + m.remainingLength
  }

  const NUM_OF_CONST_BUFFER_SEQUENCE: nat := 4

  method Build(n: Width, params: seq<byte>, packetId: nat) returns (r: Result<Message>)
    requires packetId < IdLimit(n)
    ensures var p := Suback(packetId, params);
            r == if Sendable(n, p) then Success(MessageOf(n, p)) else Failure(RemainingLength)
  {
    hide Encode, TwoBytes, FourBytes, IdBytes;
    var remainingLength: nat := |params| + n;
    var id := AddPacketIdToBuf(n, [], packetId);
    assert id == IdBytes(n, packetId);
    var rb := RemainingBytes(remainingLength);
    if rb.Failure? { return Failure(rb.error); }
    var entries: seq<byte> := [];
    for i := 0 to |params|
      invariant entries == params[..i]
    {
      entries := entries + [params[i]];
    }
    assert params[..|params|] == params;
    r := Success(Message(0x90, entries, id, remainingLength, rb.value));
  }

  method ConstBufferSequence(m: Message) returns (ret: seq<seq<byte>>)
    ensures ret == Buffers(m)
  {
    ret := [[m.fixedHeader]];
    ret := ret + [m.remainingLengthBuf];
    ret := ret + [m.packetId];
    ret := ret + [m.entries];
  }

  method ContinuousBuffer(m: Message) returns (ret: seq<byte>)
    ensures ret == Flatten(Buffers(m))
  {
    ret := [m.fixedHeader];
    ret := ret + m.remainingLengthBuf;
    ret := ret + m.packetId;
    ret := ret + m.entries;
    FlattenFour([m.fixedHeader], m.remainingLengthBuf, m.packetId, m.entries);
  }

  lemma BuiltPacket(n: Width, p: Packet)
    requires p.Suback? && WellFormed(n, p)
    ensures Flatten(Buffers(MessageOf(n, p))) == PacketBytes(n, p)
    ensures Size(MessageOf(n, p)) == |PacketBytes(n, p)|
    ensures |Buffers(MessageOf(n, p))| == NUM_OF_CONST_BUFFER_SEQUENCE == 4
  {
    var m := MessageOf(n, p);
    FlattenFour([m.fixedHeader], m.remainingLengthBuf, m.packetId, m.entries);
  }
}
