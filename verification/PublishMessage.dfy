/**
  basic_publish_message: built from parts, read back from a buffer, marked as a duplicate,
  serialized.
*/
module PublishMessage {
  import opened Bytes
  import opened Wrappers
  import opened VariableLength
  import opened PublishFlags
  import opened StringCheck

  // ---------- the state of a message ----------

  datatype Fields = Fields(
    fixedHeader: byte,
    topicName: seq<byte>,
    topicNameLengthBuf: seq<byte>,
    packetId: seq<byte>,
    payloads: seq<seq<byte>>,
    remainingLength: nat,
    remainingLengthBuf: seq<byte>)

  function Buffers(m: Fields): seq<seq<byte>> {
    [[m.fixedHeader], m.remainingLengthBuf, m.topicNameLengthBuf, m.topicName]
      + (if m.packetId != [] then [m.packetId] else [])
      + m.payloads
  }

  /** The bytes after the remaining length. */
  function BodyBytes(m: Fields): seq<byte> {
    m.topicNameLengthBuf + (m.topicName + (m.packetId + Flatten(m.payloads)))
  }

  function MessageBytes(m: Fields): seq<byte> {
    [m.fixedHeader] + (m.remainingLengthBuf + BodyBytes(m))
  }

  function SizeOf(m: Fields): nat {
    1 + |m.remainingLengthBuf| + m.remainingLength
  }

  predicate HasId(qos: nat) {
    qos == 1 || qos == 2
  }

  // ---------- specification of the two constructors ----------

  function BodySize(n: Width, topic: seq<byte>, payloads: seq<seq<byte>>, opts: byte): nat {
    2 + |topic| + (if HasId(GetQos(opts)) then n else 0) + |Flatten(payloads)|
  }

  /** The exception that the constructor from parts throws first, if any. */
  function PublishError(n: Width, ok: Utf8Check, topic: seq<byte>, payloads: seq<seq<byte>>, opts: byte)
    : Option<Error>
  {
    if |topic| > 0xffff then Some(NumericCast)
    else if !ok(topic) then Some(Utf8Contents)
    else if BodySize(n, topic, payloads, opts) > MAX then Some(RemainingLength)
    else None
  }

  /** The sum of the lengths of the payload buffers. */
  function TotalLength(payloads: seq<seq<byte>>): nat {
    if payloads == [] then 0 else |payloads[0]| + TotalLength(payloads[1..])
  }

  lemma {:induction false} LengthOfFlat(payloads: seq<seq<byte>>)
    ensures |Flatten(payloads)| == TotalLength(payloads)
  {
    if payloads != [] { LengthOfFlat(payloads[1..]); }
  }

  /** When the constructor throws, for any options, and what. Bits 1 and 2 of the options are the
      QoS: 1 and 2 take a packet identifier. */
  lemma PublishErrors(n: Width, ok: Utf8Check, topic: seq<byte>, payloads: seq<seq<byte>>, opts: byte)
    ensures var qos := opts / 2 % 4;
            var length := 2 + |topic| + (if qos == 1 || qos == 2 then n else 0) + TotalLength(payloads);
            var e := PublishError(n, ok, topic, payloads, opts);
            && (e.None? <==> |topic| <= 0xffff && ok(topic) && length <= 0xfff_ffff)
            && (e == Some(NumericCast) <==> |topic| > 0xffff)
            && (e == Some(Utf8Contents) <==> |topic| <= 0xffff && !ok(topic))
            && (e == Some(RemainingLength) <==> |topic| <= 0xffff && ok(topic) && length > 0xfff_ffff)
  {
    LengthOfFlat(payloads);
    QosBits(opts);
    hide GetQos, Flatten;
  }

  function FieldsOf(n: Width, id: nat, topic: seq<byte>, payloads: seq<seq<byte>>, opts: byte): Fields
    requires id < IdLimit(n) && |topic| <= 0xffff
  {
    var size := BodySize(n, topic, payloads, opts);
    Fields(FixedHeader(opts), topic, TwoBytes(|topic|), if HasId(GetQos(opts)) then IdBytes(n, id) else [],
           payloads, size, Encode(size))
  }

  /** The constructor from a buffer, after the remaining length: topic, packet identifier, payload. */
  function ParseBody(n: Width, ok: Utf8Check, m: Fields, buf: seq<byte>): Result<Fields> {
    if |buf| < 2 then Failure(RemainingLength)
    else
      var len := MakeUint16(buf[..2]);
      var rest := buf[2..];
      if |rest| < len then Failure(RemainingLength)
      else if !ok(rest[..len]) then Failure(Utf8Contents)
      else
        var m' := m.(topicNameLengthBuf := buf[..2], topicName := rest[..len]);
        var tail := rest[len..];
        var qos := GetQos(m.fixedHeader);
        if qos == 3 then Failure(Protocol)
        else if qos == 0 then Success(m'.(payloads := Whole(tail)))
        else if |tail| < n then Failure(RemainingLength)
        else Success(m'.(packetId := tail[..n], payloads := Whole(tail[n..])))
  }

  function Whole(payload: seq<byte>): seq<seq<byte>> {
    if payload == [] then [] else [payload]
  }

  /** The constructor from a buffer. The remaining length is decoded, never compared. */
  function Parse(n: Width, ok: Utf8Check, buf: seq<byte>): Result<Fields> {
    if |buf| < 2 then Failure(RemainingLength)
    else
      var (len, consumed) := Decode(buf[1..]);
      ParseBody(n, ok, Fields(buf[0], [], [], [], [], len, buf[1..][..consumed]), buf[1..][consumed..])
  }

  // ---------- the message object ----------

  class Message {
    var fixedHeader: byte
    var topicName: seq<byte>
    var topicNameLengthBuf: seq<byte>
    var packetId: seq<byte>
    var payloads: seq<seq<byte>>
    var remainingLength: nat
    var remainingLengthBuf: seq<byte>

    function State(): Fields
      reads this
    {
      Fields(fixedHeader, topicName, topicNameLengthBuf, packetId, payloads, remainingLength, remainingLengthBuf)
    }

    constructor ()
      ensures State() == Fields(0, [], [], [], [], 0, [])
    {
      fixedHeader, topicName, topicNameLengthBuf, packetId := 0, [], [], [];
      payloads, remainingLength, remainingLengthBuf := [], 0, [];
    }

    /** The loop over the payload buffers in the constructor from parts. */
    method AddPayloads(bufs: seq<seq<byte>>)
      requires payloads == []
      modifies this`payloads, this`remainingLength
      ensures payloads == bufs
      ensures remainingLength == old(remainingLength) + |Flatten(bufs)|
    {
      for i := 0 to |bufs|
        invariant payloads == bufs[..i]
        invariant remainingLength == old(remainingLength) + |Flatten(bufs[..i])|
      {
        remainingLength := remainingLength + |bufs[i]|;
        payloads := payloads + [bufs[i]];
        assert bufs[..i + 1] == bufs[..i] + [bufs[i]];
        FlattenSnoc(bufs[..i], bufs[i]);
      }
      assert bufs[..|bufs|] == bufs;
    }

    method ConstBufferSequence() returns (ret: seq<seq<byte>>)
      ensures ret == Buffers(State())
    {
      ret := [[fixedHeader]];
      ret := ret + [remainingLengthBuf];
      ret := ret + [topicNameLengthBuf];
      ret := ret + [topicName];
      if packetId != [] {
        ret := ret + [packetId];
      }
      ret := ret + payloads;
    }

    method NumOfConstBufferSequence() returns (count: nat)
      ensures count == |Buffers(State())|
    {
      count := 1 + 1 + 2 + (if packetId == [] then 0 else 1) + |payloads|;
    }

    method ContinuousBuffer() returns (ret: seq<byte>)
      ensures ret == MessageBytes(State())
    {
      ret := [fixedHeader];
      ret := ret + remainingLengthBuf;
      ret := ret + topicNameLengthBuf;
      ret := ret + topicName;
      ret := ret + packetId;
      ghost var start := ret;
      for i := 0 to |payloads|
        invariant ret == start + Flatten(payloads[..i])
      {
        ret := ret + payloads[i];
        assert payloads[..i + 1] == payloads[..i] + [payloads[i]];
        FlattenSnoc(payloads[..i], payloads[i]);
      }
      assert payloads[..|payloads|] == payloads;
      RegroupBytes(State());
    }

    /** The rest of the constructor from a buffer: topic, packet identifier and payload are
        cut off the front of the view. */
    method ReadBody(n: Width, ok: Utf8Check, buf: Buffer) returns (failed: Option<Error>)
      requires packetId == [] && payloads == []
      modifies this, buf
      ensures match ParseBody(n, ok, old(State()), old(buf.data))
              case Failure(e) => failed == Some(e)
              case Success(m) => failed == None && State() == m
    {
      var qos := GetQos(fixedHeader);
      if |buf.data| < 2 { return Some(RemainingLength); }
      topicNameLengthBuf := buf.data[..2];
      var length := MakeUint16(topicNameLengthBuf);
      buf.RemovePrefix(2);
      if |buf.data| < length { return Some(RemainingLength); }
      topicName := buf.data[..length];
      var check := Utf8StringCheck(ok, topicName);
      if check.Some? { return check; }
      buf.RemovePrefix(length);
      if qos == 0 {
      } else if qos == 1 || qos == 2 {
        if |buf.data| < n { return Some(RemainingLength); }
        packetId := buf.data[..n];
        buf.RemovePrefix(n);
      } else {
        return Some(Protocol);
      }
      if buf.data != [] {
        payloads := [buf.data];
      }
      failed := None;
    }

    method PacketId(n: Width) returns (id: nat)
      requires |packetId| == n
      ensures id == MakeId(n, packetId)
      ensures id < IdLimit(n) && IdBytes(n, id) == packetId
    {
      id := MakeId(n, packetId);
      IdRoundTrip(n, 0, packetId);
    }

    /** The payloads copied one after another into a single array. */
    method PayloadAsBuffer() returns (ret: seq<byte>)
      ensures ret == Flatten(payloads)
    {
      var size := 0;
      for i := 0 to |payloads|
        invariant size == |Flatten(payloads[..i])|
      {
        size := size + |payloads[i]|;
        assert payloads[..i + 1] == payloads[..i] + [payloads[i]];
        FlattenSnoc(payloads[..i], payloads[i]);
      }
      assert payloads[..|payloads|] == payloads;
      if size == 0 { return []; }
      var ptr := new byte[size];
      var it := 0;
      for i := 0 to |payloads|
        invariant it == |Flatten(payloads[..i])| <= size
        invariant ptr[..it] == Flatten(payloads[..i])
      {
        assert payloads[..i + 1] == payloads[..i] + [payloads[i]];
        FlattenSnoc(payloads[..i], payloads[i]);
        FlattenPrefix(payloads, i + 1);
        ghost var done := ptr[..it];
        CopyInto(ptr, it, payloads[i]);
        it := it + |payloads[i]|;
        assert ptr[..it] == done + payloads[i];
      }
      ret := ptr[..];
      assert ptr[..it] == ptr[..];
    }

    method SetDup(dup: bool)
      modifies this`fixedHeader
      ensures State() == old(State()).(fixedHeader := SetDupBit(old(fixedHeader), dup))
    {
      if dup {
        fixedHeader := if IsDup(fixedHeader) then fixedHeader else fixedHeader + 8;
      } else {
        fixedHeader := if IsDup(fixedHeader) then fixedHeader - 8 else fixedHeader;
      }
    }
  }

  lemma FlattenPrefix(bufs: seq<seq<byte>>, k: nat)
    requires k <= |bufs|
    ensures |Flatten(bufs[..k])| <= |Flatten(bufs)|
  {
    assert bufs[..k] + bufs[k..] == bufs;
    FlattenAppend(bufs[..k], bufs[k..]);
  }

  lemma RegroupBytes(m: Fields)
    ensures [m.fixedHeader] + m.remainingLengthBuf + m.topicNameLengthBuf + m.topicName + m.packetId
              + Flatten(m.payloads) == MessageBytes(m)
  {
    var h, r, l := [m.fixedHeader], m.remainingLengthBuf, m.topicNameLengthBuf;
    var t, i, p := m.topicName, m.packetId, Flatten(m.payloads);
    Assoc(h + r + l + t, i, p);
    Assoc(h + r + l, t, i + p);
    Assoc(h + r, l, t + (i + p));
    Assoc(h, r, l + (t + (i + p)));
  }

  method Build(n: Width, ok: Utf8Check, packetId: nat, topicName: seq<byte>, payloads: seq<seq<byte>>, pubopts: byte)
    returns (r: Result<Message>)
    requires packetId < IdLimit(n)
    ensures match PublishError(n, ok, topicName, payloads, pubopts)
            case Some(e) => r == Failure(e)
            case None => r.Success? && fresh(r.value)
                         && r.value.State() == FieldsOf(n, packetId, topicName, payloads, pubopts)
  {
    hide Encode, TwoBytes, IdBytes, FixedHeader, GetQos, Flatten;
    var m := new Message();
    m.fixedHeader := FixedHeader(pubopts);
    m.topicName := topicName;
    if |topicName| > 0xffff { return Failure(NumericCast); }
    m.topicNameLengthBuf := TwoBytes(|topicName|);
    m.remainingLength := 2 + |topicName| + (if GetQos(pubopts) == 1 || GetQos(pubopts) == 2 then n else 0);
    m.AddPayloads(payloads);
    assert m.remainingLength == BodySize(n, topicName, payloads, pubopts);
    hide BodySize;
    var check := Utf8StringCheck(ok, m.topicName);
    if check.Some? { return Failure(check.value); }
    var rb := RemainingBytes(m.remainingLength);
    if rb.Failure? { return Failure(rb.error); }
    m.remainingLengthBuf := m.remainingLengthBuf + rb.value;
    if GetQos(pubopts) == 1 || GetQos(pubopts) == 2 {
      var id := AddPacketIdToBuf(n, m.packetId, packetId);
      m.packetId := id;
      assert m.packetId == IdBytes(n, packetId);
    }
    r := Success(m);
  }

  /** Reads a message back, consuming a view of `data` from the front. */
  method FromBuffer(n: Width, ok: Utf8Check, data: seq<byte>) returns (r: Result<Message>)
    ensures match Parse(n, ok, data)
            case Failure(e) => r == Failure(e)
            case Success(m) => r.Success? && fresh(r.value) && r.value.State() == m
  {
    var buf := new Buffer(data);
    var m := new Message();
    if |buf.data| == 0 { return Failure(RemainingLength); }
    m.fixedHeader := buf.data[0];
    buf.RemovePrefix(1);
    if |buf.data| == 0 { return Failure(RemainingLength); }
    var len, consumed := VariableLengthRange(buf.data, 0, |buf.data|);
    assert buf.data[0..|buf.data|] == buf.data;
    m.remainingLength := len;
    m.remainingLengthBuf := buf.data[..consumed];
    buf.RemovePrefix(consumed);
    var failed := m.ReadBody(n, ok, buf);
    if failed.Some? { return Failure(failed.value); }
    r := Success(m);
  }
}
