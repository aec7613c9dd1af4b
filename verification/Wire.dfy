/**
  The v3.1.1 control packets as values, their wire format and a reference decoder
  (chapters 2 and 3 of MQTT v3.1.1). The program only writes most of these packets, so
  the decoder is the independent definition that the builders are measured against.
*/
module Wire {
  import opened Bytes
  import opened Wrappers
  import opened PublishFlags
  import opened VariableLength

  datatype Will = Will(topic: seq<byte>, message: seq<byte>, retain: bool, qos: nat)

  datatype Subscription = Subscription(topic: seq<byte>, qos: nat)

  datatype AckKind = Puback | Pubrec | Pubrel | Pubcomp | Unsuback

  datatype HeaderKind = Pingreq | Pingresp | Disconnect

  datatype Packet =
    | Connect(keepAlive: uint16, clientId: seq<byte>, cleanSession: bool, will: Option<Will>,
              userName: Option<seq<byte>>, password: Option<seq<byte>>)
    | Connack(sessionPresent: bool, returnCode: byte)
    | Publish(dup: bool, qos: nat, retain: bool, topic: seq<byte>, packetId: Option<nat>, payload: seq<byte>)
    | Ack(kind: AckKind, ackId: nat)
    | Subscribe(subscribeId: nat, subscriptions: seq<Subscription>)
    | Suback(subackId: nat, codes: seq<byte>)
    | Unsubscribe(unsubscribeId: nat, topics: seq<seq<byte>>)
    | HeaderOnly(header: HeaderKind)

  const STRING_MAX: nat := 0xffff
  const PROTOCOL: seq<byte> := [0x00, 0x04, 0x4d, 0x51, 0x54, 0x54, 0x04]

  // ---------- wire format ----------

  function Bit(b: bool): nat {
    if b then 1 else 0
  }

  function AckHeader(k: AckKind): byte {
    match k
    case Puback => 0x40
    case Pubrec => 0x50
    case Pubrel => 0x62
    case Pubcomp => 0x70
    case Unsuback => 0xb0
  }

  function HeaderByte(k: HeaderKind): byte {
    match k
    case Pingreq => 0xc0
    case Pingresp => 0xd0
    case Disconnect => 0xe0
  }

  predicate Fits(s: seq<byte>) {
    |s| <= STRING_MAX
  }

  predicate FitsOption(s: Option<seq<byte>>) {
    s.Some? ==> Fits(s.value)
  }

  /** The parts of a packet fit their fields. */
  predicate WellFormed(n: Width, p: Packet) {
    match p
    case Connect(_, client, _, will, user, password) =>
      && Fits(client) && FitsOption(user) && FitsOption(password)
      && (will.Some? ==> Fits(will.value.topic) && Fits(will.value.message) && will.value.qos < 4)
    case Connack(_, _) => true
    case Publish(_, qos, _, topic, id, _) =>
      qos < 3 && Fits(topic) && (id.Some? <==> qos > 0) && (id.Some? ==> id.value < IdLimit(n))
    case Ack(_, id) => id < IdLimit(n)
    case Subscribe(id, es) => id < IdLimit(n) && forall e :: e in es ==> Fits(e.topic) && e.qos < 4
    case Suback(id, _) => id < IdLimit(n)
    case Unsubscribe(id, ts) => id < IdLimit(n) && forall t :: t in ts ==> Fits(t)
    case HeaderOnly(_) => true
  }

  function Header(n: Width, p: Packet): byte
    requires WellFormed(n, p)
  {
    match p
    case Connect(_, _, _, _, _, _) => 0x10
    case Connack(_, _) => 0x20
    case Publish(dup, qos, retain, _, _, _) => 0x30 + 8 * Bit(dup) + 2 * qos + Bit(retain)
    case Ack(kind, _) => AckHeader(kind)
    case Subscribe(_, _) => 0x82
    case Suback(_, _) => 0x90
    case Unsubscribe(_, _) => 0xa2
    case HeaderOnly(kind) => HeaderByte(kind)
  }

  /** A length-prefixed string. */
  function Str(s: seq<byte>): seq<byte>
    requires Fits(s)
  {
    TwoBytes(|s|) + s
  }

  function OptionStr(s: Option<seq<byte>>): seq<byte>
    requires FitsOption(s)
  {
    if s.Some? then Str(s.value) else []
  }

  function ConnectFlags(clean: bool, will: Option<Will>, user: bool, password: bool): byte
    requires will.Some? ==> will.value.qos < 4
  {
    2 * Bit(clean) + 64 * Bit(password) + 128 * Bit(user)
      + if will.None? then 0 else 4 + 8 * will.value.qos + 32 * Bit(will.value.retain)
  }

  function WillBytes(will: Option<Will>): seq<byte>
    requires will.Some? ==> Fits(will.value.topic) && Fits(will.value.message)
  {
    if will.None? then [] else Str(will.value.topic) + Str(will.value.message)
  }

  function SubscriptionBytes(es: seq<Subscription>): seq<byte>
    requires forall e :: e in es ==> Fits(e.topic) && e.qos < 4
  {
    if es == [] then [] else Str(es[0].topic) + ([es[0].qos] + SubscriptionBytes(es[1..]))
  }

  function TopicBytes(ts: seq<seq<byte>>): seq<byte>
    requires forall t :: t in ts ==> Fits(t)
  {
    if ts == [] then [] else Str(ts[0]) + TopicBytes(ts[1..])
  }

  function ConnectStart(flags: byte, keepAlive: uint16): seq<byte> {
    PROTOCOL + ([flags] + TwoBytes(keepAlive))
  }

  function ConnectPayload(client: seq<byte>, will: Option<Will>, user: Option<seq<byte>>,
                          password: Option<seq<byte>>): seq<byte>
    requires Fits(client) && FitsOption(user) && FitsOption(password)
    requires will.Some? ==> Fits(will.value.topic) && Fits(will.value.message)
  {
    Str(client) + (WillBytes(will) + (OptionStr(user) + OptionStr(password)))
  }

  function PublishBody(n: Width, topic: seq<byte>, id: Option<nat>, payload: seq<byte>): seq<byte>
    requires Fits(topic) && (id.Some? ==> id.value < IdLimit(n))
  {
    Str(topic) + ((if id.Some? then IdBytes(n, id.value) else []) + payload)
  }

  function Body(n: Width, p: Packet): seq<byte>
    requires WellFormed(n, p)
  {
    match p
    case Connect(keepAlive, client, clean, will, user, password) =>
      ConnectStart(ConnectFlags(clean, will, user.Some?, password.Some?), keepAlive)
        + ConnectPayload(client, will, user, password)
    case Connack(present, code) => [Bit(present), code]
    case Publish(_, _, _, topic, id, payload) => PublishBody(n, topic, id, payload)
    case Ack(_, id) => IdBytes(n, id)
    case Subscribe(id, es) => IdBytes(n, id) + SubscriptionBytes(es)
    case Suback(id, codes) => IdBytes(n, id) + codes
    case Unsubscribe(id, ts) => IdBytes(n, id) + TopicBytes(ts)
    case HeaderOnly(_) => []
  }

  /** The packet's body is within the limit of the remaining length. */
  predicate Sendable(n: Width, p: Packet) {
    WellFormed(n, p) && |Body(n, p)| <= MAX
  }

  function PacketBytes(n: Width, p: Packet): seq<byte>
    requires WellFormed(n, p)
  {
    [Header(n, p)] + (Encode(|Body(n, p)|) + Body(n, p))
  }

  // ---------- the wire format in bytes ----------

  /** The control packet types of section 2.2.1. */
  function PacketType(p: Packet): nat {
    match p
    case Connect(_, _, _, _, _, _) => 1
    case Connack(_, _) => 2
    case Publish(_, _, _, _, _, _) => 3
    case Ack(kind, _) => (
      match kind
      case Puback => 4
      case Pubrec => 5
      case Pubrel => 6
      case Pubcomp => 7
      case Unsuback => 11
    )
    case Subscribe(_, _) => 8
    case Suback(_, _) => 9
    case Unsubscribe(_, _) => 10
    case HeaderOnly(kind) => (
      match kind
      case Pingreq => 12
      case Pingresp => 13
      case Disconnect => 14
    )
  }

  /** The first byte has the packet type in the high half. The low half is 2 for PUBREL,
      SUBSCRIBE and UNSUBSCRIBE, dup, QoS and retain for PUBLISH, and 0 for the others. */
  lemma HeaderIsTypeAndFlags(n: Width, p: Packet)
    requires WellFormed(n, p)
    ensures Header(n, p) / 16 == PacketType(p)
    ensures !p.Publish? ==> Header(n, p) % 16 == if PacketType(p) in {6, 8, 10} then 2 else 0
    ensures p.Publish? ==>
              Header(n, p) % 16 == (if p.dup then 8 else 0) + 2 * p.qos + (if p.retain then 1 else 0)
  {
  }

  /** The variable header of a CONNECT: the string "MQTT", level 4, the flags and the keep alive. */
  lemma ConnectHeader(n: Width, p: Packet)
    requires p.Connect? && WellFormed(n, p)
    ensures var b := Body(n, p);
            && |b| >= 10 && b[..6] == [0, 4, 0x4d, 0x51, 0x54, 0x54] && b[6] == 4
            && b[7] == ConnectFlags(p.cleanSession, p.will, p.userName.Some?, p.password.Some?)
            && b[8] == p.keepAlive / 256 && b[9] == p.keepAlive % 256
            && b[10..] == ConnectPayload(p.clientId, p.will, p.userName, p.password)
  {
    var f := ConnectFlags(p.cleanSession, p.will, p.userName.Some?, p.password.Some?);
    assert ConnectStart(f, p.keepAlive) == [0, 4, 0x4d, 0x51, 0x54, 0x54, 4, f, p.keepAlive / 256, p.keepAlive % 256];
  }

  /** A string with its length in front, high byte first. */
  function Counted(s: seq<byte>): seq<byte>
    requires |s| <= 0xffff
  {
    [|s| / 256, |s| % 256] + s
  }

  /** The payload of a CONNECT: client identifier, will topic, will message, user name, password. */
  lemma ConnectFields(client: seq<byte>, will: Option<Will>, user: Option<seq<byte>>, password: Option<seq<byte>>)
    requires Fits(client) && FitsOption(user) && FitsOption(password)
    requires will.Some? ==> Fits(will.value.topic) && Fits(will.value.message)
    ensures ConnectPayload(client, will, user, password) ==
              Counted(client)
              + ((if will.Some? then Counted(will.value.topic) + Counted(will.value.message) else [])
                 + ((if user.Some? then Counted(user.value) else [])
                    + (if password.Some? then Counted(password.value) else [])))
  {
  }

  /** The bodies of the other kinds. */
  lemma BodyLayout(n: Width, p: Packet)
    requires WellFormed(n, p)
    ensures match p
            case Connect(_, _, _, _, _, _) => true
            case Connack(present, code) => Body(n, p) == [if present then 1 else 0, code]
            case Publish(_, _, _, topic, id, payload) =>
              Body(n, p) == Counted(topic) + ((if id.Some? then IdBytes(n, id.value) else []) + payload)
            case Ack(_, id) => Body(n, p) == IdBytes(n, id)
            case Subscribe(id, es) => Body(n, p) == IdBytes(n, id) + SubscriptionBytes(es)
            case Suback(id, codes) => Body(n, p) == IdBytes(n, id) + codes
            case Unsubscribe(id, ts) => Body(n, p) == IdBytes(n, id) + TopicBytes(ts)
            case HeaderOnly(_) => Body(n, p) == []
  {
  }

  /** The entries of a SUBSCRIBE are topic and QoS, those of an UNSUBSCRIBE topics, in order. */
  lemma EntryLayout(e: Subscription, es: seq<Subscription>, t: seq<byte>, ts: seq<seq<byte>>)
    requires Fits(e.topic) && e.qos < 4 && forall x :: x in es ==> Fits(x.topic) && x.qos < 4
    requires Fits(t) && forall x :: x in ts ==> Fits(x)
    ensures SubscriptionBytes([]) == [] && TopicBytes([]) == []
    ensures forall x :: x in [e] + es ==> Fits(x.topic) && x.qos < 4
    ensures forall x :: x in [t] + ts ==> Fits(x)
    ensures SubscriptionBytes([e] + es) == Counted(e.topic) + ([e.qos] + SubscriptionBytes(es))
    ensures TopicBytes([t] + ts) == Counted(t) + TopicBytes(ts)
  {
    assert ([e] + es)[1..] == es && ([t] + ts)[1..] == ts;
  }

  // ---------- reference decoder ----------

  function TakeStr(b: seq<byte>): Option<(seq<byte>, seq<byte>)> {
    if |b| < 2 then None
    else
      var len := MakeUint16(b[..2]);
      if |b| < 2 + len then None else Some((b[2..2 + len], b[2 + len..]))
  }

  /** A string that is there only when its flag is set. */
  function TakeOption(present: bool, b: seq<byte>): Option<(Option<seq<byte>>, seq<byte>)> {
    if !present then Some((None, b))
    else
      match TakeStr(b)
      case None => None
      case Some((s, rest)) => Some((Some(s), rest))
  }

  function TakeWill(flags: byte, b: seq<byte>): Option<(Option<Will>, seq<byte>)> {
    if flags / 4 % 2 == 0 then Some((None, b))
    else
      match TakeStr(b)
      case None => None
      case Some((topic, rest)) =>
        match TakeStr(rest)
        case None => None
        case Some((message, rest')) =>
          Some((Some(Will(topic, message, flags / 32 % 2 == 1, flags / 8 % 4)), rest'))
  }

  function DecodePayload(keepAlive: uint16, flags: byte, b: seq<byte>): Option<Packet> {
    match TakeStr(b)
    case None => None
    case Some((client, rest)) =>
      match TakeWill(flags, rest)
      case None => None
      case Some((will, rest')) =>
        match TakeOption(flags / 128 % 2 == 1, rest')
        case None => None
        case Some((user, rest'')) =>
          match TakeOption(flags / 64 % 2 == 1, rest'')
          case None => None
          case Some((password, end)) =>
            if end != [] then None
            else Some(Connect(keepAlive, client, flags / 2 % 2 == 1, will, user, password))
  }

  function DecodeConnect(b: seq<byte>): Option<Packet> {
    if |b| < 10 || b[..7] != PROTOCOL then None
    else DecodePayload(MakeUint16(b[8..10]), b[7], b[10..])
  }

  function DecodePublish(n: Width, h: byte, b: seq<byte>): Option<Packet> {
    var qos := GetQos(h);
    match TakeStr(b)
    case None => None
    case Some((topic, rest)) =>
      if qos == 3 || (qos > 0 && |rest| < n) then None
      else
        var id := if qos > 0 then Some(MakeId(n, rest[..n])) else None;
        var payload := if qos > 0 then rest[n..] else rest;
        Some(Publish(IsDup(h), qos, IsRetain(h), topic, id, payload))
  }

  function DecodeSubscriptions(b: seq<byte>): Option<seq<Subscription>>
    decreases |b|
  {
    if b == [] then Some([])
    else
      match TakeStr(b)
      case None => None
      case Some((topic, rest)) =>
        if rest == [] || rest[0] >= 4 then None
        else
          match DecodeSubscriptions(rest[1..])
          case None => None
          case Some(es) => Some([Subscription(topic, rest[0])] + es)
  }

  function DecodeTopics(b: seq<byte>): Option<seq<seq<byte>>>
    decreases |b|
  {
    if b == [] then Some([])
    else
      match TakeStr(b)
      case None => None
      case Some((topic, rest)) =>
        match DecodeTopics(rest)
        case None => None
        case Some(ts) => Some([topic] + ts)
  }

  /** The acknowledgements: a packet identifier and nothing else. */
  function DecodeAck(n: Width, h: byte, b: seq<byte>): Option<Packet> {
    if |b| != n then None
    else
      var id := MakeId(n, b);
      if h == 0x40 then Some(Ack(Puback, id))
      else if h == 0x50 then Some(Ack(Pubrec, id))
      else if h == 0x62 then Some(Ack(Pubrel, id))
      else if h == 0x70 then Some(Ack(Pubcomp, id))
      else if h == 0xb0 then Some(Ack(Unsuback, id))
      else None
  }

  /** The packets with a packet identifier and a list. */
  function DecodeList(n: Width, h: byte, b: seq<byte>): Option<Packet> {
    if |b| < n then None
    else
      var id, rest := MakeId(n, b[..n]), b[n..];
      if h == 0x90 then Some(Suback(id, rest))
      else if h == 0x82 then
        match DecodeSubscriptions(rest)
        case None => None
        case Some(es) => Some(Subscribe(id, es))
      else if h == 0xa2 then
        match DecodeTopics(rest)
        case None => None
        case Some(ts) => Some(Unsubscribe(id, ts))
      else None
  }

  function DecodeHeaderOnly(h: byte, b: seq<byte>): Option<Packet> {
    if b != [] then None
    else if h == 0xc0 then Some(HeaderOnly(Pingreq))
    else if h == 0xd0 then Some(HeaderOnly(Pingresp))
    else if h == 0xe0 then Some(HeaderOnly(Disconnect))
    else None
  }

  /** The packet with fixed header byte `h` and the bytes `b` after the remaining length. */
  function DecodeBody(n: Width, h: byte, b: seq<byte>): Option<Packet> {
    if h == 0x10 then DecodeConnect(b)
    else if h == 0x20 then if |b| == 2 then Some(Connack(b[0] == 1, b[1])) else None
    else if h / 16 == 3 then DecodePublish(n, h, b)
    else if h == 0x82 || h == 0x90 || h == 0xa2 then DecodeList(n, h, b)
    else if h >= 0xc0 then DecodeHeaderOnly(h, b)
    else DecodeAck(n, h, b)
  }

  /** Cuts the first packet off a stream, by its remaining length alone: the header byte,
      the body and what is left. */
  function Cut(s: seq<byte>): (r: Option<(byte, seq<byte>, seq<byte>)>)
    ensures r.Some? ==> |r.value.2| < |s|
  {
    if s == [] then None
    else
      var (len, consumed) := Decode(s[1..]);
      var tail := s[1..][consumed..];
      if consumed == 0 || |tail| < len then None
      else Some((s[0], tail[..len], tail[len..]))
  }

  /** Cuts a whole stream into packets and decodes each of them. */
  function DecodeStream(n: Width, s: seq<byte>): Option<seq<Packet>>
    decreases |s|
  {
    if s == [] then Some([])
    else
      match Cut(s)
      case None => None
      case Some((h, body, rest)) =>
        match DecodeBody(n, h, body)
        case None => None
        case Some(p) =>
          match DecodeStream(n, rest)
          case None => None
          case Some(ps) => Some([p] + ps)
  }

  /** Cuts a whole stream into header bytes and bodies, without looking at them. */
  function CutStream(s: seq<byte>): Option<seq<(byte, seq<byte>)>>
    decreases |s|
  {
    if s == [] then Some([])
    else
      match Cut(s)
      case None => None
      case Some((h, body, rest)) =>
        match CutStream(rest)
        case None => None
        case Some(frames) => Some([(h, body)] + frames)
  }

  /** Only a header of the packet type PUBLISH is decoded as a PUBLISH. */
  lemma PublishHasType3(n: Width, h: byte, b: seq<byte>)
    requires DecodeBody(n, h, b).Some? && DecodeBody(n, h, b).value.Publish?
    ensures h / 16 == 3
  {
    hide TakeStr, TakeWill, TakeOption, DecodeSubscriptions, DecodeTopics, MakeId, MakeUint16;
  }

  // ---------- the decoder inverts the wire format ----------

  lemma TakeStrInverts(s: seq<byte>, rest: seq<byte>)
    requires Fits(s)
    ensures TakeStr(Str(s) + rest) == Some((s, rest))
  {
    var b := Str(s) + rest;
    Uint16RoundTrip(|s|, [0, 0]);
    assert b[..2] == TwoBytes(|s|);
    assert b[2..2 + |s|] == s;
    assert b[2 + |s|..] == rest;
  }

  lemma TakeOptionInverts(s: Option<seq<byte>>, rest: seq<byte>)
    requires FitsOption(s)
    ensures TakeOption(s.Some?, OptionStr(s) + rest) == Some((s, rest))
  {
    if s.Some? {
      TakeStrInverts(s.value, rest);
    } else {
      assert [] + rest == rest;
    }
  }

  lemma FlagBits(clean: bool, will: Option<Will>, user: bool, password: bool)
    requires will.Some? ==> will.value.qos < 4
    ensures var f := ConnectFlags(clean, will, user, password);
            && (f / 2 % 2 == 1 <==> clean) && (f / 4 % 2 == 1 <==> will.Some?)
            && (f / 64 % 2 == 1 <==> password) && (f / 128 % 2 == 1 <==> user)
            && (will.Some? ==> f / 8 % 4 == will.value.qos && (f / 32 % 2 == 1 <==> will.value.retain))
            && f % 2 == 0 && (will.None? ==> f / 8 % 4 == 0 && f / 32 % 2 == 0)
  {
    var q := if will.Some? then will.value.qos else 0;
    LowBits(Bit(clean), Bit(will.Some?), q, Bit(will.Some? && will.value.retain) + 2 * (Bit(password) + 2 * Bit(user)));
    HighBits(2 * Bit(clean) + 4 * Bit(will.Some?) + 8 * q, Bit(will.Some? && will.value.retain),
             Bit(password), Bit(user));
  }

  lemma LowBits(c: nat, w: nat, q: nat, high: nat)
    requires c < 2 && w < 2 && q < 4
    ensures var f := 2 * c + 4 * w + 8 * q + 32 * high;
            f % 2 == 0 && f / 2 % 2 == c && f / 4 % 2 == w && f / 8 % 4 == q
  {
    var x := w + 2 * (q + 4 * high);
    Digit(2, 0, c + 2 * x);
    Digit(2, c, x);
    Digit(4, 2 * c, x);
    Digit(2, w, q + 4 * high);
    Digit(8, 2 * c + 4 * w, q + 4 * high);
    Digit(4, q, high);
  }

  lemma HighBits(low: nat, r: nat, p: nat, u: nat)
    requires low < 32 && r < 2 && p < 2 && u < 2
    ensures var f := low + 32 * r + 64 * p + 128 * u;
            f / 32 % 2 == r && f / 64 % 2 == p && f / 128 % 2 == u
  {
    Digit(32, low, r + 2 * (p + 2 * u));
    Digit(2, r, p + 2 * u);
    Digit(64, low + 32 * r, p + 2 * u);
    Digit(2, p, u);
    Digit(128, low + 32 * r + 64 * p, u);
  }

  lemma TakeWillInverts(flags: byte, will: Option<Will>, rest: seq<byte>)
    requires will.Some? ==> Fits(will.value.topic) && Fits(will.value.message)
    requires flags / 4 % 2 == 1 <==> will.Some?
    requires will.Some? ==> flags / 8 % 4 == will.value.qos && (flags / 32 % 2 == 1 <==> will.value.retain)
    ensures TakeWill(flags, WillBytes(will) + rest) == Some((will, rest))
  {
    if will.Some? {
      assert WillBytes(will) + rest == Str(will.value.topic) + (Str(will.value.message) + rest);
      TakeStrInverts(will.value.topic, Str(will.value.message) + rest);
      TakeStrInverts(will.value.message, rest);
    } else {
      assert [] + rest == rest;
    }
  }

  lemma ConnectStartInverts(flags: byte, keepAlive: uint16, rest: seq<byte>)
    ensures var b := ConnectStart(flags, keepAlive) + rest;
            && |b| >= 10 && b[..7] == PROTOCOL && b[7] == flags
            && MakeUint16(b[8..10]) == keepAlive && b[10..] == rest
  {
    Uint16RoundTrip(keepAlive, [0, 0]);
    var b := ConnectStart(flags, keepAlive) + rest;
    assert b[8..10] == TwoBytes(keepAlive);
  }

  lemma PayloadInverts(keepAlive: uint16, client: seq<byte>, clean: bool, will: Option<Will>,
                       user: Option<seq<byte>>, password: Option<seq<byte>>)
    requires Fits(client) && FitsOption(user) && FitsOption(password)
    requires will.Some? ==> Fits(will.value.topic) && Fits(will.value.message) && will.value.qos < 4
    ensures DecodePayload(keepAlive, ConnectFlags(clean, will, user.Some?, password.Some?),
                          ConnectPayload(client, will, user, password))
         == Some(Connect(keepAlive, client, clean, will, user, password))
  {
    hide TwoBytes, MakeUint16, ConnectFlags, TakeStr;
    FlagBits(clean, will, user.Some?, password.Some?);
    var b2 := OptionStr(user) + OptionStr(password);
    TakeStrInverts(client, WillBytes(will) + b2);
    TakeWillInverts(ConnectFlags(clean, will, user.Some?, password.Some?), will, b2);
    TakeOptionInverts(user, OptionStr(password));
    TakeOptionInverts(password, []);
    assert OptionStr(password) + [] == OptionStr(password);
  }

  /** No field of CONNECT can be confused with another: all of them come back. */
  lemma ConnectInverts(n: Width, p: Packet)
    requires WellFormed(n, p) && p.Connect?
    ensures DecodeConnect(Body(n, p)) == Some(p)
  {
    var Connect(keepAlive, client, clean, will, user, password) := p;
    ConnectStartInverts(ConnectFlags(clean, will, user.Some?, password.Some?), keepAlive,
                        ConnectPayload(client, will, user, password));
    PayloadInverts(keepAlive, client, clean, will, user, password);
  }

  lemma PublishInverts(n: Width, p: Packet)
    requires WellFormed(n, p) && p.Publish?
    ensures Header(n, p) / 16 == 3
    ensures DecodePublish(n, Header(n, p), Body(n, p)) == Some(p)
  {
    hide GetQos, IsDup, IsRetain, TwoBytes, PublishBody, DecodePublish, IdBytes;
    HeaderBits(p.dup, p.qos, p.retain);
    PublishBodyInverts(n, Header(n, p), p.topic, p.packetId, p.payload);
  }

  lemma PublishBodyInverts(n: Width, h: byte, topic: seq<byte>, id: Option<nat>, payload: seq<byte>)
    requires Fits(topic) && GetQos(h) < 3 && (id.Some? <==> GetQos(h) > 0) && (id.Some? ==> id.value < IdLimit(n))
    ensures DecodePublish(n, h, PublishBody(n, topic, id, payload))
         == Some(Publish(IsDup(h), GetQos(h), IsRetain(h), topic, id, payload))
  {
    hide GetQos, IsDup, IsRetain, Str, TakeStr, IdBytes;
    var ids := if id.Some? then IdBytes(n, id.value) else [];
    TakeStrInverts(topic, ids + payload);
    if id.Some? {
      SplitId(n, id.value, payload);
    } else {
      assert ids + payload == payload;
    }
  }

  lemma {:induction false} SubscriptionsInvert(es: seq<Subscription>)
    requires forall e :: e in es ==> Fits(e.topic) && e.qos < 4
    ensures DecodeSubscriptions(SubscriptionBytes(es)) == Some(es)
  {
    if es != [] {
      var rest := [es[0].qos] + SubscriptionBytes(es[1..]);
      TakeStrInverts(es[0].topic, rest);
      assert rest[1..] == SubscriptionBytes(es[1..]);
      SubscriptionsInvert(es[1..]);
      assert [es[0]] + es[1..] == es;
    }
  }

  lemma {:induction false} TopicsInvert(ts: seq<seq<byte>>)
    requires forall t :: t in ts ==> Fits(t)
    ensures DecodeTopics(TopicBytes(ts)) == Some(ts)
  {
    if ts != [] {
      TakeStrInverts(ts[0], TopicBytes(ts[1..]));
      TopicsInvert(ts[1..]);
      assert [ts[0]] + ts[1..] == ts;
    }
  }

  lemma SplitId(n: Width, id: nat, rest: seq<byte>)
    requires id < IdLimit(n)
    ensures (IdBytes(n, id) + rest)[n..] == rest
    ensures MakeId(n, (IdBytes(n, id) + rest)[..n]) == id
  {
    assert (IdBytes(n, id) + rest)[..n] == IdBytes(n, id);
    IdRoundTrip(n, id, IdBytes(n, id));
  }

  lemma ListInverts(n: Width, p: Packet)
    requires WellFormed(n, p) && (p.Subscribe? || p.Suback? || p.Unsubscribe?)
    ensures DecodeList(n, Header(n, p), Body(n, p)) == Some(p)
  {
    match p
    case Subscribe(id, es) =>
      SplitId(n, id, SubscriptionBytes(es));
      SubscriptionsInvert(es);
    case Suback(id, codes) => SplitId(n, id, codes);
    case Unsubscribe(id, ts) =>
      SplitId(n, id, TopicBytes(ts));
      TopicsInvert(ts);
  }

  lemma AckInverts(n: Width, p: Packet)
    requires WellFormed(n, p) && p.Ack?
    ensures DecodeAck(n, Header(n, p), Body(n, p)) == Some(p)
  {
    IdRoundTrip(n, p.ackId, IdBytes(n, p.ackId));
  }

  /** Every well-formed packet is recovered from its header byte and body. */
  lemma BodyInverts(n: Width, p: Packet)
    requires WellFormed(n, p)
    ensures DecodeBody(n, Header(n, p), Body(n, p)) == Some(p)
  {
    match p
    case Connect(_, _, _, _, _, _) => ConnectInverts(n, p);
    case Connack(_, _) =>
    case Publish(_, _, _, _, _, _) => PublishInverts(n, p);
    case Ack(_, _) => AckInverts(n, p);
    case Subscribe(_, _) => ListInverts(n, p);
    case Suback(_, _) => ListInverts(n, p);
    case Unsubscribe(_, _) => ListInverts(n, p);
    case HeaderOnly(_) =>
  }

  /** A packet delimits itself: the decoded remaining length is exactly the number of bytes
      after it, whatever follows in the stream. */
  lemma CutInverts(n: Width, p: Packet, rest: seq<byte>)
    requires Sendable(n, p)
    ensures Cut(PacketBytes(n, p) + rest) == Some((Header(n, p), Body(n, p), rest))
  {
    CutFrame(Header(n, p), Body(n, p), rest);
  }

  lemma CutFrame(h: byte, body: seq<byte>, rest: seq<byte>)
    requires |body| <= MAX
    ensures Cut([h] + (Encode(|body|) + body) + rest) == Some((h, body, rest))
  {
    FrameParts(h, Encode(|body|), body, rest);
    RoundTrip(|body|, body + rest);
  }

  lemma FrameParts(h: byte, e: seq<byte>, body: seq<byte>, rest: seq<byte>)
    ensures var s := [h] + (e + body) + rest;
            && s[1..] == e + (body + rest)
            && s[1..][|e|..][..|body|] == body && s[1..][|e|..][|body|..] == rest
  {
    var s := [h] + (e + body) + rest;
    assert s[1..] == e + (body + rest);
    assert (e + (body + rest))[|e|..] == body + rest;
    assert (body + rest)[..|body|] == body && (body + rest)[|body|..] == rest;
  }

  predicate AllSendable(n: Width, ps: seq<Packet>) {
    forall i :: 0 <= i < |ps| ==> Sendable(n, ps[i])
  }

  function StreamBytes(n: Width, ps: seq<Packet>): seq<byte>
    requires AllSendable(n, ps)
  {
    if ps == [] then [] else PacketBytes(n, ps[0]) + StreamBytes(n, ps[1..])
  }

  lemma DecodeNext(n: Width, s: seq<byte>, h: byte, body: seq<byte>, rest: seq<byte>)
    requires s != [] && Cut(s) == Some((h, body, rest))
    ensures DecodeStream(n, s) ==
              match (DecodeBody(n, h, body), DecodeStream(n, rest))
              case (Some(p), Some(ps)) => Some([p] + ps)
              case _ => None
  {
    hide Cut, DecodeBody;
  }

  /** The packet at the front of a stream, and then the rest. */
  lemma FirstPacket(n: Width, p: Packet, rest: seq<byte>)
    requires Sendable(n, p)
    ensures DecodeStream(n, PacketBytes(n, p) + rest) ==
              match DecodeStream(n, rest) case None => None case Some(ps) => Some([p] + ps)
  {
    CutInverts(n, p, rest);
    BodyInverts(n, p);
    hide PacketBytes, Header, Body, DecodeBody, Cut, Encode;
    DecodeNext(n, PacketBytes(n, p) + rest, Header(n, p), Body(n, p), rest);
  }

  lemma StreamFirst(n: Width, ps: seq<Packet>)
    requires ps != [] && AllSendable(n, ps)
    ensures Sendable(n, ps[0]) && AllSendable(n, ps[1..])
    ensures StreamBytes(n, ps) == PacketBytes(n, ps[0]) + StreamBytes(n, ps[1..])
  {
    hide PacketBytes, Sendable;
  }

  lemma NoPackets(n: Width)
    ensures DecodeStream(n, StreamBytes(n, [])) == Some([])
  {
  }

  /** A stream of any packets is cut and decoded into the same packets in the same order. */
  lemma {:induction false} StreamRoundTrip(n: Width, ps: seq<Packet>)
    requires AllSendable(n, ps)
    ensures DecodeStream(n, StreamBytes(n, ps)) == Some(ps)
  {
    hide DecodeStream, StreamBytes, AllSendable, Body, WellFormed;
    if ps == [] {
      NoPackets(n);
    } else {
      StreamFirst(n, ps);
      FirstPacket(n, ps[0], StreamBytes(n, ps[1..]));
      StreamRoundTrip(n, ps[1..]);
      assert [ps[0]] + ps[1..] == ps;
    }
  }
}
