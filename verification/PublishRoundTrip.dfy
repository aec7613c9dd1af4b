/**
  What building, parsing and printing a PUBLISH message have to do with each other and with
  the wire format.
*/
module PublishRoundTrip {
  import opened Bytes
  import opened Wrappers
  import opened VariableLength
  import opened PublishFlags
  import opened PublishMessage
  import Wire

  /** The message after a series of set_dup calls. */
  function WithDups(m: Fields, dups: seq<bool>): Fields
    decreases dups
  {
    if dups == [] then m
    else WithDups(m.(fixedHeader := SetDupBit(m.fixedHeader, dups[0])), dups[1..])
  }

  /** The shape in which a message can be read back. */
  ghost predicate Shaped(n: Width, ok: Utf8Check, m: Fields) {
    && |m.topicNameLengthBuf| == 2 && MakeUint16(m.topicNameLengthBuf) == |m.topicName| && ok(m.topicName)
    && |m.packetId| == if GetQos(m.fixedHeader) == 0 then 0 else n
  }

  function Start(m: Fields): Fields {
    Fields(m.fixedHeader, [], [], [], [], m.remainingLength, m.remainingLengthBuf)
  }

  // ---------- scatter, flat and size ----------

  lemma ScatterIsFlat(m: Fields)
    ensures Flatten(Buffers(m)) == MessageBytes(m)
  {
    var head := [[m.fixedHeader], m.remainingLengthBuf, m.topicNameLengthBuf, m.topicName];
    var ids := if m.packetId != [] then [m.packetId] else [];
    FlattenFour(head[0], head[1], head[2], head[3]);
    FlattenAppend(head, ids);
    FlattenAppend(head + ids, m.payloads);
    FlattenOne(m.packetId);
    assert Flatten(ids) == m.packetId;
    var h, r, l, t, i, p := head[0], head[1], head[2], head[3], m.packetId, Flatten(m.payloads);
    Assoc(h + (r + (l + t)), i, p);
    Assoc(h, r + (l + t), i + p);
    Assoc(r, l + t, i + p);
    Assoc(l, t, i + p);
  }

  lemma {:induction false} DupsOnlyChangeDup(m: Fields, dups: seq<bool>)
    ensures var m' := WithDups(m, dups);
            && m'.(fixedHeader := 0) == m.(fixedHeader := 0)
            && GetQos(m'.fixedHeader) == GetQos(m.fixedHeader)
            && IsRetain(m'.fixedHeader) == IsRetain(m.fixedHeader)
            && IsDup(m'.fixedHeader) == (if dups == [] then IsDup(m.fixedHeader) else dups[|dups| - 1])
            && m'.fixedHeader / 16 == m.fixedHeader / 16
    decreases dups
  {
    hide SetDupBit, GetQos, IsRetain, IsDup;
    if dups != [] {
      DupsOnlyChangeDup(m.(fixedHeader := SetDupBit(m.fixedHeader, dups[0])), dups[1..]);
      if |dups| > 1 { assert dups[1..][|dups| - 2] == dups[|dups| - 1]; }
    }
  }

  /** For a built message, size() is the number of bytes written, and stays so under set_dup. */
  lemma BuiltSize(n: Width, id: nat, topic: seq<byte>, payloads: seq<seq<byte>>, opts: byte, dups: seq<bool>)
    requires id < IdLimit(n) && |topic| <= 0xffff
    ensures var m := WithDups(FieldsOf(n, id, topic, payloads, opts), dups);
            SizeOf(m) == |MessageBytes(m)|
  {
    hide Encode, TwoBytes, IdBytes, GetQos, FixedHeader;
    DupsOnlyChangeDup(FieldsOf(n, id, topic, payloads, opts), dups);
  }

  // ---------- parse after print ----------

  lemma CutBody(n: Width, m: Fields)
    requires |m.topicNameLengthBuf| == 2
    ensures var b := BodyBytes(m);
            && |b| >= 2 && b[..2] == m.topicNameLengthBuf
            && b[2..] == m.topicName + (m.packetId + Flatten(m.payloads))
            && b[2..][..|m.topicName|] == m.topicName
            && b[2..][|m.topicName|..] == m.packetId + Flatten(m.payloads)
  {
    var b := BodyBytes(m);
    var rest := m.packetId + Flatten(m.payloads);
    assert b[2..] == m.topicName + rest;
    assert (m.topicName + rest)[|m.topicName|..] == rest;
  }

  lemma ParseBodyInverts(n: Width, ok: Utf8Check, m: Fields)
    requires GetQos(m.fixedHeader) != 3 && Shaped(n, ok, m)
    ensures ParseBody(n, ok, Start(m), BodyBytes(m)) == Success(m.(payloads := Whole(Flatten(m.payloads))))
  {
    hide MakeUint16, GetQos;
    CutBody(n, m);
    var tail := m.packetId + Flatten(m.payloads);
    if GetQos(m.fixedHeader) == 0 {
      assert tail == Flatten(m.payloads);
    } else {
      assert tail[..n] == m.packetId && tail[n..] == Flatten(m.payloads);
    }
  }

  lemma ParseOfBytes(n: Width, ok: Utf8Check, m: Fields)
    requires m.remainingLength <= MAX && m.remainingLengthBuf == Encode(m.remainingLength)
    requires |m.topicNameLengthBuf| == 2
    ensures Parse(n, ok, MessageBytes(m)) == ParseBody(n, ok, Start(m), BodyBytes(m))
  {
    hide ParseBody, BodyBytes;
    var body := BodyBytes(m);
    var b := MessageBytes(m);
    RoundTrip(m.remainingLength, body);
    assert b[1..] == m.remainingLengthBuf + body;
    assert b[1..][..|m.remainingLengthBuf|] == m.remainingLengthBuf;
    assert b[1..][|m.remainingLengthBuf|..] == body;
  }

  /** Building, then any set_dup calls, then printing, then parsing: the same header, topic and
      packet identifier come back, and the payload as one buffer. It is so exactly when the QoS
      is not 3, which the constructor from parts lets through and the one from a buffer rejects. */
  lemma BuildParse(n: Width, ok: Utf8Check, id: nat, topic: seq<byte>, payloads: seq<seq<byte>>, opts: byte,
                   dups: seq<bool>)
    requires id < IdLimit(n)
    requires PublishError(n, ok, topic, payloads, opts).None?
    ensures var m := WithDups(FieldsOf(n, id, topic, payloads, opts), dups);
            Parse(n, ok, MessageBytes(m)) ==
              if GetQos(opts) == 3 then Failure(Protocol)
              else Success(m.(payloads := Whole(Flatten(payloads))))
  {
    hide TwoBytes, MakeUint16, GetQos, FixedHeader, Encode, IdBytes;
    var m0 := FieldsOf(n, id, topic, payloads, opts);
    var m := WithDups(m0, dups);
    DupsOnlyChangeDup(m0, dups);
    Uint16RoundTrip(|topic|, [0, 0]);
    ParseOfBytes(n, ok, m);
    if GetQos(opts) == 3 {
      CutBody(n, m);
    } else {
      ParseBodyInverts(n, ok, m);
    }
  }

  /** The attributes that the accessors of the parsed message report are the ones it was built from. */
  lemma BuildParseAttributes(n: Width, ok: Utf8Check, id: nat, topic: seq<byte>, payloads: seq<seq<byte>>, opts: byte,
                             dups: seq<bool>)
    requires id < IdLimit(n) && GetQos(opts) != 3
    requires PublishError(n, ok, topic, payloads, opts).None?
    ensures var r := Parse(n, ok, MessageBytes(WithDups(FieldsOf(n, id, topic, payloads, opts), dups)));
            && r.Success?
            && GetQos(r.value.fixedHeader) == GetQos(opts)
            && IsRetain(r.value.fixedHeader) == IsRetain(opts)
            && IsDup(r.value.fixedHeader) == (if dups == [] then IsDup(opts) else dups[|dups| - 1])
            && r.value.topicName == topic
            && Flatten(r.value.payloads) == Flatten(payloads)
            && (GetQos(opts) == 0 ==> r.value.packetId == [])
            && (GetQos(opts) > 0 ==> |r.value.packetId| == n && MakeId(n, r.value.packetId) == id)
  {
    hide TwoBytes, GetQos, FixedHeader, Encode, IdBytes, IsRetain, IsDup;
    BuildParse(n, ok, id, topic, payloads, opts, dups);
    DupsOnlyChangeDup(FieldsOf(n, id, topic, payloads, opts), dups);
    FlattenOne(Flatten(payloads));
    IdRoundTrip(n, id, IdBytes(n, id));
  }

  // ---------- what the constructor from a buffer reads ----------

  /** The bytes `b` after the remaining length, by offset: two length bytes, the topic, for QoS 1
      and 2 the packet identifier, and the payload as one buffer, or none if it is empty. */
  function ReadAt(n: Width, ok: Utf8Check, h: byte, b: seq<byte>, len: nat, lenBuf: seq<byte>): Result<Fields> {
    if |b| < 2 then Failure(RemainingLength)
    else
      var qos := h / 2 % 4;
      var topicEnd: nat := 2 + b[0] as int * 256 + b[1] as int;
      var start := if qos == 0 then topicEnd else topicEnd + n;
      if |b| < topicEnd then Failure(RemainingLength)
      else if !ok(b[2..topicEnd]) then Failure(Utf8Contents)
      else if qos == 3 then Failure(Protocol)
      else if |b| < start then Failure(RemainingLength)
      else
        Success(Fields(h, b[2..topicEnd], b[..2], b[topicEnd..start], if |b| == start then [] else [b[start..]],
                       len, lenBuf))
  }

  lemma BodyReads(n: Width, ok: Utf8Check, h: byte, b: seq<byte>, len: nat, lenBuf: seq<byte>)
    ensures ParseBody(n, ok, Fields(h, [], [], [], [], len, lenBuf), b) == ReadAt(n, ok, h, b, len, lenBuf)
  {
    QosBits(h);
    hide GetQos;
    if |b| >= 2 {
      var size: nat := b[0] as int * 256 + b[1] as int;
      assert MakeUint16(b[..2]) == size;
      hide MakeUint16;
      if |b| >= 2 + size { Offsets(n, b, size); }
    }
  }

  lemma Offsets(n: Width, b: seq<byte>, size: nat)
    requires |b| >= 2 + size
    ensures var tail := b[2..][size..];
            && b[2..][..size] == b[2..2 + size] && tail == b[2 + size..] && b[2 + size..2 + size] == []
            && (|tail| >= n ==> tail[..n] == b[2 + size..2 + size + n] && tail[n..] == b[2 + size + n..])
  {
  }

  /** What the constructor from a buffer makes of any buffer: the fixed header, the decoded
      remaining length, which is not compared, and the rest by offset. */
  lemma ParseReads(n: Width, ok: Utf8Check, buf: seq<byte>)
    requires |buf| >= 2
    ensures var (len, consumed) := Decode(buf[1..]);
            Parse(n, ok, buf) == ReadAt(n, ok, buf[0], buf[1 + consumed..], len, buf[1..1 + consumed])
  {
    var (len, consumed) := Decode(buf[1..]);
    assert buf[1..][consumed..] == buf[1 + consumed..] && buf[1..][..consumed] == buf[1..1 + consumed];
    hide Decode, ReadAt, ParseBody;
    BodyReads(n, ok, buf[0], buf[1 + consumed..], len, buf[1..1 + consumed]);
  }

  /** Less than two bytes are too few in any case. */
  lemma ParseNeedsTwo(n: Width, ok: Utf8Check, buf: seq<byte>)
    ensures |buf| < 2 ==> Parse(n, ok, buf) == Failure(RemainingLength)
  {
  }

  // ---------- print after parse ----------

  lemma ParseBodyPrints(n: Width, ok: Utf8Check, m0: Fields, buf: seq<byte>)
    requires m0 == Start(m0)
    requires ParseBody(n, ok, m0, buf).Success?
    ensures var m := ParseBody(n, ok, m0, buf).value;
            && BodyBytes(m) == buf && Start(m) == m0 && Shaped(n, ok, m) && GetQos(m.fixedHeader) != 3
            && m.payloads == Whole(Flatten(m.payloads))
  {
    hide MakeUint16, GetQos;
    var m := ParseBody(n, ok, m0, buf).value;
    var rest := buf[2..];
    var tail := rest[|m.topicName|..];
    assert buf == m.topicNameLengthBuf + rest;
    assert rest == m.topicName + tail;
    if GetQos(m.fixedHeader) == 0 {
      FlattenOne(tail);
      assert Flatten(m.payloads) == tail;
      assert m.packetId + Flatten(m.payloads) == tail;
    } else {
      FlattenOne(tail[n..]);
      assert Flatten(m.payloads) == tail[n..];
      assert m.packetId + Flatten(m.payloads) == tail;
    }
  }

  /** Every buffer that is accepted prints back to exactly the same bytes, whether or not its
      remaining length is right or canonical; the length buffer never exceeds its capacity. */
  lemma ParsePrint(n: Width, ok: Utf8Check, buf: seq<byte>)
    requires Parse(n, ok, buf).Success?
    ensures var m := Parse(n, ok, buf).value;
            && MessageBytes(m) == buf && |m.remainingLengthBuf| <= 4
            && (m.remainingLength, |m.remainingLengthBuf|) == Decode(buf[1..])
            && Shaped(n, ok, m) && GetQos(m.fixedHeader) != 3
  {
    hide ParseBody, Decode, GetQos;
    var (len, consumed) := Decode(buf[1..]);
    var m0 := Fields(buf[0], [], [], [], [], len, buf[1..][..consumed]);
    ParseBodyPrints(n, ok, m0, buf[1..][consumed..]);
    assert buf[1..] == m0.remainingLengthBuf + buf[1..][consumed..];
    assert buf == [buf[0]] + buf[1..];
  }

  /** size() of a message that was read back is its real length exactly when the remaining
      length in the buffer was the number of bytes after it. */
  lemma ParsedSize(n: Width, ok: Utf8Check, buf: seq<byte>)
    requires Parse(n, ok, buf).Success?
    ensures var m := Parse(n, ok, buf).value;
            SizeOf(m) == |buf| <==> Decode(buf[1..]).0 == |buf| - 1 - Decode(buf[1..]).1
  {
    ParsePrint(n, ok, buf);
  }

  // ---------- agreement with the wire format ----------

  /** The packet that a message stands for. */
  function PacketOf(n: Width, m: Fields): Wire.Packet
    requires |m.packetId| == 0 || |m.packetId| == n
  {
    Wire.Publish(IsDup(m.fixedHeader), GetQos(m.fixedHeader), IsRetain(m.fixedHeader), m.topicName,
                 if m.packetId == [] then None else Some(MakeId(n, m.packetId)), Flatten(m.payloads))
  }

  lemma ShapedBody(n: Width, ok: Utf8Check, m: Fields)
    requires Shaped(n, ok, m) && GetQos(m.fixedHeader) != 3
    ensures Wire.WellFormed(n, PacketOf(n, m))
    ensures Wire.Body(n, PacketOf(n, m)) == BodyBytes(m)
  {
    hide GetQos, IsDup, IsRetain;
    Uint16RoundTrip(0, m.topicNameLengthBuf);
    var p := PacketOf(n, m);
    var ids := if p.packetId.Some? then IdBytes(n, p.packetId.value) else [];
    if m.packetId != [] {
      IdRoundTrip(n, 0, m.packetId);
    }
    assert ids == m.packetId;
    Assoc(m.topicNameLengthBuf, m.topicName, ids + Flatten(m.payloads));
  }

  /** What the constructor from a buffer accepts among whole PUBLISH packets is exactly what the
      wire format allows, up to the contents check of the topic, and it reads the same packet. */
  lemma ParseAgreesWithWire(n: Width, ok: Utf8Check, buf: seq<byte>, body: seq<byte>)
    requires buf != [] && Wire.Cut(buf) == Some((buf[0], body, []))
    requires buf[0] / 16 == 3
    ensures Parse(n, ok, buf).Success? <==>
              Wire.DecodeBody(n, buf[0], body).Some? && ok(Wire.DecodeBody(n, buf[0], body).value.topic)
    ensures Parse(n, ok, buf).Success? ==>
              var m := Parse(n, ok, buf).value;
              Wire.DecodeBody(n, buf[0], body) == Some(PacketOf(n, m)) && SizeOf(m) == |buf|
  {
    hide Decode, MakeUint16, GetQos, IsDup, IsRetain;
    var (len, consumed) := Decode(buf[1..]);
    assert buf[1..][consumed..] == body;
    var m0 := Fields(buf[0], [], [], [], [], len, buf[1..][..consumed]);
    BodyAgrees(n, ok, m0, body);
    if Parse(n, ok, buf).Success? {
      ParsedSize(n, ok, buf);
    }
  }

  lemma BodyAgrees(n: Width, ok: Utf8Check, m0: Fields, body: seq<byte>)
    requires m0 == Start(m0)
    ensures var p := Wire.DecodePublish(n, m0.fixedHeader, body);
            && (ParseBody(n, ok, m0, body).Success? <==> p.Some? && ok(p.value.topic))
            && (ParseBody(n, ok, m0, body).Success? ==>
                  var m := ParseBody(n, ok, m0, body).value;
                  (|m.packetId| == 0 || |m.packetId| == n) && p == Some(PacketOf(n, m)))
  {
    hide MakeUint16, GetQos, IsDup, IsRetain, MakeId;
    if |body| >= 2 && |body| >= 2 + MakeUint16(body[..2]) {
      var len := MakeUint16(body[..2]);
      assert body[2..][..len] == body[2..2 + len];
      assert body[2..][len..] == body[2 + len..];
      var tail := body[2 + len..];
      FlattenOne(tail);
      if |tail| >= n { FlattenOne(tail[n..]); }
    }
  }

  /** The remaining length of every built message is the number of bytes after it. */
  lemma BuiltFrame(n: Width, ok: Utf8Check, id: nat, topic: seq<byte>, payloads: seq<seq<byte>>, opts: byte)
    requires id < IdLimit(n) && PublishError(n, ok, topic, payloads, opts).None?
    ensures var m := FieldsOf(n, id, topic, payloads, opts);
            && |BodyBytes(m)| <= MAX
            && MessageBytes(m) == [FixedHeader(opts)] + (Encode(|BodyBytes(m)|) + BodyBytes(m))
  {
    hide Encode, TwoBytes, IdBytes, GetQos, FixedHeader;
  }

  lemma FieldsArePacket(n: Width, ok: Utf8Check, id: nat, topic: seq<byte>, payloads: seq<seq<byte>>, opts: byte)
    requires id < IdLimit(n) && GetQos(opts) != 3
    requires PublishError(n, ok, topic, payloads, opts).None?
    ensures var m := FieldsOf(n, id, topic, payloads, opts);
            && Shaped(n, ok, m)
            && PacketOf(n, m) == Wire.Publish(IsDup(opts), GetQos(opts), IsRetain(opts), topic,
                                              if GetQos(opts) > 0 then Some(id) else None, Flatten(payloads))
  {
    hide TwoBytes, MakeUint16, GetQos, FixedHeader, Encode, IdBytes, IsDup, IsRetain;
    Uint16RoundTrip(|topic|, [0, 0]);
    IdRoundTrip(n, id, IdBytes(n, id));
  }

  lemma LegalIsWire(n: Width, ok: Utf8Check, id: nat, topic: seq<byte>, payloads: seq<seq<byte>>, opts: byte)
    requires id < IdLimit(n) && GetQos(opts) != 3 && opts < 64
    requires PublishError(n, ok, topic, payloads, opts).None?
    ensures var p := Wire.Publish(IsDup(opts), GetQos(opts), IsRetain(opts), topic,
                                  if GetQos(opts) > 0 then Some(id) else None, Flatten(payloads));
            Wire.Sendable(n, p) && MessageBytes(FieldsOf(n, id, topic, payloads, opts)) == Wire.PacketBytes(n, p)
  {
    hide GetQos, FixedHeader, Encode, IsDup, IsRetain, Shaped, PacketOf, BodyBytes, Wire.Body, TwoBytes, IdBytes;
    var m := FieldsOf(n, id, topic, payloads, opts);
    FieldsArePacket(n, ok, id, topic, payloads, opts);
    BuiltFrame(n, ok, id, topic, payloads, opts);
    ShapedBody(n, ok, m);
    HeaderFromBits(FixedHeader(opts));
  }

  /** A PUBLISH with QoS 0 to 2 can be built exactly if the topic passes the contents check and the
      packet that is meant can be sent. */
  lemma BuiltIffSendable(n: Width, ok: Utf8Check, id: nat, topic: seq<byte>, payloads: seq<seq<byte>>, opts: byte)
    requires id < IdLimit(n) && opts / 2 % 4 != 3
    ensures var qos := opts / 2 % 4;
            PublishError(n, ok, topic, payloads, opts).None? <==>
              ok(topic) && Wire.Sendable(n, Wire.Publish(IsDup(opts), qos, IsRetain(opts), topic,
                                                         if qos > 0 then Some(id) else None, Flatten(payloads)))
  {
    QosBits(opts);
    hide GetQos, Flatten, TwoBytes;
  }

  /** A built message is the PUBLISH packet of the wire format exactly for a legal QoS and
      options that leave the packet type alone; the constructor takes others too. */
  lemma BuiltIsWire(n: Width, ok: Utf8Check, id: nat, topic: seq<byte>, payloads: seq<seq<byte>>, opts: byte)
    requires id < IdLimit(n) && PublishError(n, ok, topic, payloads, opts).None?
    ensures var p := Wire.Publish(IsDup(opts), GetQos(opts), IsRetain(opts), topic,
                                  if GetQos(opts) > 0 then Some(id) else None, Flatten(payloads));
            (Wire.Sendable(n, p) && MessageBytes(FieldsOf(n, id, topic, payloads, opts)) == Wire.PacketBytes(n, p))
            <==> GetQos(opts) != 3 && opts < 64
  {
    hide TwoBytes, GetQos, Encode, IdBytes, IsDup, IsRetain, Wire.Body, BodyBytes;
    if GetQos(opts) != 3 {
      if opts < 64 {
        LegalIsWire(n, ok, id, topic, payloads, opts);
      } else {
        HeaderBits(IsDup(opts), GetQos(opts), IsRetain(opts));
        assert MessageBytes(FieldsOf(n, id, topic, payloads, opts))[0] / 16 != 3;
      }
    }
  }
}
