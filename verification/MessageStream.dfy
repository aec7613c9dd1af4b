/** The serialized forms of built messages of all kinds, one after another on a connection. */
module MessageStream {
  import opened Bytes
  import opened Wrappers
  import opened Wire
  import opened VariableLength
  import PublishFlags
  import ConnectMessage
  import SubscribeMessage
  import SubackMessage
  import UnsubscribeMessage
  import PublishMessage
  import PublishRoundTrip

  /** The arguments of a constructor that succeeds. PUBLISH takes its payload in several buffers
      and its options as a byte; the arguments of the others are the parts of the packet. */
  datatype Built =
    | BuiltPublish(id: nat, topic: seq<byte>, payloads: seq<seq<byte>>, opts: byte)
    | BuiltOther(packet: Packet)

  /** The constructor does not throw. */
  ghost predicate Succeeds(n: Width, ok: Utf8Check, m: Built) {
    match m
    case BuiltPublish(id, topic, payloads, opts) =>
      id < IdLimit(n) && PublishMessage.PublishError(n, ok, topic, payloads, opts).None?
    case BuiltOther(p) => !p.Publish? && Sendable(n, p)
  }

  /** The options of a PUBLISH are a legal QoS, dup and retain, and nothing else. */
  predicate LegalOptions(m: Built) {
    m.BuiltPublish? ==> PublishFlags.GetQos(m.opts) != 3 && m.opts < 64
  }

  /** The packet that a message is meant to be. */
  function PacketOf(m: Built): Packet {
    match m
    case BuiltPublish(id, topic, payloads, opts) =>
      Publish(PublishFlags.IsDup(opts), PublishFlags.GetQos(opts), PublishFlags.IsRetain(opts), topic,
              if PublishFlags.GetQos(opts) > 0 then Some(id) else None, Flatten(payloads))
    case BuiltOther(p) => p
  }

  /** continuous_buffer() of the message. */
  function ContinuousBuffer(n: Width, ok: Utf8Check, m: Built): seq<byte>
    requires Succeeds(n, ok, m)
  {
    match m
    case BuiltPublish(id, topic, payloads, opts) =>
      PublishMessage.MessageBytes(PublishMessage.FieldsOf(n, id, topic, payloads, opts))
    case BuiltOther(p) =>
      match p
      case Connect(_, _, _, _, _, _) => Flatten(ConnectMessage.Buffers(ConnectMessage.MessageOf(p)))
      case Subscribe(_, _) => Flatten(SubscribeMessage.Buffers(SubscribeMessage.MessageOf(n, p)))
      case Suback(_, _) => Flatten(SubackMessage.Buffers(SubackMessage.MessageOf(n, p)))
      case Unsubscribe(_, _) => Flatten(UnsubscribeMessage.Buffers(UnsubscribeMessage.MessageOf(n, p)))
      case _ => PacketBytes(n, p)
  }

  lemma OtherIsPacket(n: Width, p: Packet, ok: Utf8Check)
    requires !p.Publish? && Sendable(n, p)
    ensures ContinuousBuffer(n, ok, BuiltOther(p)) == PacketBytes(n, p)
  {
    match p
    case Connect(_, _, _, _, _, _) => ConnectMessage.BuiltPacket(p);
    case Subscribe(_, _) => SubscribeMessage.BuiltPacket(n, p);
    case Suback(_, _) => SubackMessage.BuiltPacket(n, p);
    case Unsubscribe(_, _) => UnsubscribeMessage.BuiltPacket(n, p);
    case _ =>
  }

  /** Every message but a PUBLISH with illegal options is the wire format of what it is meant to be. */
  lemma BufferIsPacket(n: Width, ok: Utf8Check, m: Built)
    requires Succeeds(n, ok, m)
    ensures Sendable(n, PacketOf(m)) && ContinuousBuffer(n, ok, m) == PacketBytes(n, PacketOf(m))
            <==> LegalOptions(m)
  {
    match m
    case BuiltPublish(id, topic, payloads, opts) =>
      PublishRoundTrip.BuiltIsWire(n, ok, id, topic, payloads, opts);
    case BuiltOther(p) => OtherIsPacket(n, p, ok);
  }

  // ---------- framing ----------

  /** The fixed header byte and the bytes after the remaining length. */
  function FrameOf(n: Width, ok: Utf8Check, m: Built): (byte, seq<byte>)
    requires Succeeds(n, ok, m)
  {
    match m
    case BuiltPublish(id, topic, payloads, opts) =>
      (PublishFlags.FixedHeader(opts),
       PublishMessage.BodyBytes(PublishMessage.FieldsOf(n, id, topic, payloads, opts)))
    case BuiltOther(p) => (Header(n, p), Body(n, p))
  }

  lemma BufferIsFrame(n: Width, ok: Utf8Check, m: Built)
    requires Succeeds(n, ok, m)
    ensures var (h, body) := FrameOf(n, ok, m);
            |body| <= MAX && ContinuousBuffer(n, ok, m) == [h] + (Encode(|body|) + body)
  {
    match m
    case BuiltPublish(id, topic, payloads, opts) =>
      PublishRoundTrip.BuiltFrame(n, ok, id, topic, payloads, opts);
    case BuiltOther(p) => OtherIsPacket(n, p, ok);
  }

  ghost predicate AllSucceed(n: Width, ok: Utf8Check, ms: seq<Built>) {
    forall i :: 0 <= i < |ms| ==> Succeeds(n, ok, ms[i])
  }

  function Stream(n: Width, ok: Utf8Check, ms: seq<Built>): seq<byte>
    requires AllSucceed(n, ok, ms)
  {
    if ms == [] then [] else ContinuousBuffer(n, ok, ms[0]) + Stream(n, ok, ms[1..])
  }

  function Frames(n: Width, ok: Utf8Check, ms: seq<Built>): seq<(byte, seq<byte>)>
    requires AllSucceed(n, ok, ms)
  {
    if ms == [] then [] else [FrameOf(n, ok, ms[0])] + Frames(n, ok, ms[1..])
  }

  /** Any sequence of built messages, of any kinds and with any options, is cut by the remaining
      lengths alone into the same headers and bodies in the same order. */
  lemma {:induction false} BuiltStreamCuts(n: Width, ok: Utf8Check, ms: seq<Built>)
    requires AllSucceed(n, ok, ms)
    ensures CutStream(Stream(n, ok, ms)) == Some(Frames(n, ok, ms))
  {
    if ms != [] {
      hide ContinuousBuffer, FrameOf, Succeeds, Cut, Encode;
      var (h, body) := FrameOf(n, ok, ms[0]);
      BufferIsFrame(n, ok, ms[0]);
      CutFrame(h, body, Stream(n, ok, ms[1..]));
      BuiltStreamCuts(n, ok, ms[1..]);
    }
  }

  // ---------- decoding ----------

  function Packets(ms: seq<Built>): seq<Packet> {
    if ms == [] then [] else [PacketOf(ms[0])] + Packets(ms[1..])
  }

  predicate AllLegal(ms: seq<Built>) {
    forall i :: 0 <= i < |ms| ==> LegalOptions(ms[i])
  }

  lemma PublishDecodes(n: Width, ok: Utf8Check, m: Built)
    requires Succeeds(n, ok, m) && m.BuiltPublish?
    ensures DecodeBody(n, FrameOf(n, ok, m).0, FrameOf(n, ok, m).1) == Some(PacketOf(m)) <==> LegalOptions(m)
  {
    hide PublishMessage.BodyBytes, PublishMessage.FieldsOf, Encode, TakeStr, Body, PublishFlags.GetQos;
    var (h, body) := FrameOf(n, ok, m);
    if LegalOptions(m) {
      LegalDecodes(n, ok, m);
    } else if m.opts < 64 {
      assert h / 16 == 3 && PublishFlags.GetQos(h) == 3;
      assert h != 0x10 && h != 0x20;
    } else if DecodeBody(n, h, body) == Some(PacketOf(m)) {
      PublishHasType3(n, h, body);
    }
  }

  lemma LegalDecodes(n: Width, ok: Utf8Check, m: Built)
    requires Succeeds(n, ok, m) && LegalOptions(m)
    ensures DecodeBody(n, FrameOf(n, ok, m).0, FrameOf(n, ok, m).1) == Some(PacketOf(m))
  {
    hide ContinuousBuffer, PacketBytes, PacketOf, FrameOf, Succeeds, DecodeBody, Cut, Encode, Body, Header;
    var (h, body) := FrameOf(n, ok, m);
    BufferIsPacket(n, ok, m);
    BufferIsFrame(n, ok, m);
    CutFrame(h, body, []);
    CutInverts(n, PacketOf(m), []);
    BodyInverts(n, PacketOf(m));
  }

  lemma FrameDecodes(n: Width, ok: Utf8Check, m: Built)
    requires Succeeds(n, ok, m)
    ensures DecodeBody(n, FrameOf(n, ok, m).0, FrameOf(n, ok, m).1) == Some(PacketOf(m)) <==> LegalOptions(m)
  {
    hide DecodeBody;
    if m.BuiltPublish? { PublishDecodes(n, ok, m); } else { LegalDecodes(n, ok, m); }
  }

  /** A sequence of built messages is decoded into the same messages in the same order exactly
      when no PUBLISH among them was built with QoS 3 or with options of 64 and above. */
  lemma {:induction false} BuiltStreamRoundTrip(n: Width, ok: Utf8Check, ms: seq<Built>)
    requires AllSucceed(n, ok, ms)
    ensures DecodeStream(n, Stream(n, ok, ms)) == Some(Packets(ms)) <==> AllLegal(ms)
  {
    if ms == [] {
      assert DecodeStream(n, []) == Some([]);
    } else {
      hide ContinuousBuffer, FrameOf, PacketOf, Succeeds, LegalOptions, DecodeBody, Cut, Encode, AllLegal, DecodeStream;
      var (h, body) := FrameOf(n, ok, ms[0]);
      var rest := Stream(n, ok, ms[1..]);
      BufferIsFrame(n, ok, ms[0]);
      CutFrame(h, body, rest);
      DecodeNext(n, Stream(n, ok, ms), h, body, rest);
      FrameDecodes(n, ok, ms[0]);
      BuiltStreamRoundTrip(n, ok, ms[1..]);
      AllLegalCons(ms);
      if DecodeBody(n, h, body).Some? && DecodeStream(n, rest).Some? {
        SameList(DecodeBody(n, h, body).value, DecodeStream(n, rest).value, PacketOf(ms[0]), Packets(ms[1..]));
      }
    }
  }

  lemma AllLegalCons(ms: seq<Built>)
    requires ms != []
    ensures AllLegal(ms) <==> LegalOptions(ms[0]) && AllLegal(ms[1..])
  {
    hide LegalOptions;
    if LegalOptions(ms[0]) && AllLegal(ms[1..]) {
      assert forall i :: 0 < i < |ms| ==> ms[i] == ms[1..][i - 1];
    }
  }

  lemma SameList(p: Packet, ps: seq<Packet>, q: Packet, qs: seq<Packet>)
    ensures [p] + ps == [q] + qs <==> p == q && ps == qs
  {
    if [p] + ps == [q] + qs {
      assert ([p] + ps)[0] == ([q] + qs)[0];
      assert ps == ([p] + ps)[1..] == ([q] + qs)[1..] == qs;
    }
  }

  /** Options of 64 and above change the packet type: this PUBLISH arrives as a PUBCOMP. */
  lemma OptionsChangeType(ok: Utf8Check)
    requires ok([])
    ensures var m := BuiltPublish(1, [], [], 64);
            Succeeds(2, ok, m) && DecodeStream(2, Stream(2, ok, [m])) == Some([Ack(Pubcomp, 0)])
  {
    var m := BuiltPublish(1, [], [], 64);
    EmptyPubcomp(ok);
    hide ContinuousBuffer, FrameOf, DecodeBody, Cut, Encode, Succeeds;
    BufferIsFrame(2, ok, m);
    CutFrame(0x70, [0, 0], []);
    assert [m][1..] == [];
    assert Stream(2, ok, [m]) == ContinuousBuffer(2, ok, m) + [] == ContinuousBuffer(2, ok, m);
    assert DecodeStream(2, []) == Some([]);
    assert [Ack(Pubcomp, 0)] + [] == [Ack(Pubcomp, 0)];
  }

  lemma EmptyPubcomp(ok: Utf8Check)
    requires ok([])
    ensures var m := BuiltPublish(1, [], [], 64);
            Succeeds(2, ok, m) && FrameOf(2, ok, m) == (0x70, [0, 0])
    ensures DecodeBody(2, 0x70, [0, 0]) == Some(Ack(Pubcomp, 0))
  {
    hide Encode;
    assert PublishFlags.FixedHeader(64) == 0x70 && PublishFlags.GetQos(64) == 0;
    assert PublishMessage.BodySize(2, [], [], 64) == 2;
    assert PublishMessage.BodyBytes(PublishMessage.FieldsOf(2, 1, [], [], 64)) == [0, 0];
    assert MakeId(2, [0, 0]) == 0;
  }
}
