/** connect_message: what the constructor checks, the fields it computes, and both serialized forms. */
module ConnectMessage {
  import opened Bytes
  import opened Wrappers
  import opened VariableLength
  import opened Wire
  import opened StringCheck

  datatype Message = Message(
    fixedHeader: byte,
    connectFlags: byte,
    remainingLength: nat,
    remainingLengthBuf: seq<byte>,
    protocolNameAndLevel: seq<byte>,
    clientId: seq<byte>,
    clientIdLengthBuf: seq<byte>,
    willTopicName: seq<byte>,
    willTopicNameLengthBuf: seq<byte>,
    willMessage: seq<byte>,
    willMessageLengthBuf: seq<byte>,
    userName: seq<byte>,
    userNameLengthBuf: seq<byte>,
    password: seq<byte>,
    passwordLengthBuf: seq<byte>,
    keepAliveBuf: seq<byte>)

  predicate HasWillFlag(flags: byte) { flags / 4 % 2 == 1 }

  predicate HasUserNameFlag(flags: byte) { flags / 128 % 2 == 1 }

  predicate HasPasswordFlag(flags: byte) { flags / 64 % 2 == 1 }

  // ---------- specification ----------

  function CredentialsError(ok: Utf8Check, userName: Option<seq<byte>>, password: Option<seq<byte>>): Option<Error> {
    if userName.Some? && Utf8StringCheck(ok, userName.value).Some? then Utf8StringCheck(ok, userName.value)
    else if password.Some? && |password.value| > 0xffff then Some(NumericCast)
    else None
  }

  function WillError(ok: Utf8Check, w: Option<Will>): Option<Error> {
    if w.Some? && Utf8StringCheck(ok, w.value.topic).Some? then Utf8StringCheck(ok, w.value.topic)
    else if w.Some? && |w.value.message| > 0xffff then Some(WillMessageLength)
    else None
  }

  /** The exception that the constructor throws first, if any. */
  function ConnectError(ok: Utf8Check, p: Packet): Option<Error>
    requires p.Connect?
  {
    if |p.clientId| > 0xffff then Some(NumericCast)
    else if !ok(p.clientId) then Some(Utf8Contents)
    else if CredentialsError(ok, p.userName, p.password).Some? then CredentialsError(ok, p.userName, p.password)
    else WillError(ok, p.will)
  }

  /** A CONNECT can be built exactly if the client identifier, the user name and the will topic
      fit and pass the contents check, and the password and the will message fit. The first of
      them that does not, in this order with the password before the will, decides the exception. */
  lemma ConnectErrors(ok: Utf8Check, p: Packet)
    requires p.Connect?
    ensures var client := Passes(ok, p.clientId);
            var user := p.userName.Some? ==> Passes(ok, p.userName.value);
            var password := p.password.Some? ==> |p.password.value| <= 0xffff;
            var topic := p.will.Some? ==> Passes(ok, p.will.value.topic);
            var message := p.will.Some? ==> |p.will.value.message| <= 0xffff;
            && (ConnectError(ok, p).None? <==> client && user && password && topic && message)
            && (!client ==> ConnectError(ok, p) == Some(if |p.clientId| > 0xffff then NumericCast else Utf8Contents))
            && (client && !user ==>
                  ConnectError(ok, p) == Some(if |p.userName.value| > 0xffff then Utf8Length else Utf8Contents))
            && (client && user && !password ==> ConnectError(ok, p) == Some(NumericCast))
            && (client && user && password && !topic ==>
                  ConnectError(ok, p) == Some(if |p.will.value.topic| > 0xffff then Utf8Length else Utf8Contents))
            && (client && user && password && topic && !message ==> ConnectError(ok, p) == Some(WillMessageLength))
  {
  }

  function OrEmpty(s: Option<seq<byte>>): seq<byte> {
    if s.Some? then s.value else []
  }

  function OptionLength(s: Option<seq<byte>>): seq<byte>
    requires FitsOption(s)
  {
    if s.Some? then TwoBytes(|s.value|) else []
  }

  /** The message of a CONNECT packet. */
  function MessageOf(p: Packet): Message
    requires p.Connect? && WellFormed(2, p)
  {
    var topic := if p.will.Some? then Some(p.will.value.topic) else None;
    var message := if p.will.Some? then Some(p.will.value.message) else None;
    Message(
      0x10, ConnectFlags(p.cleanSession, p.will, p.userName.Some?, p.password.Some?),
      |Body(2, p)|, Encode(|Body(2, p)|), PROTOCOL,
      p.clientId, TwoBytes(|p.clientId|),
      OrEmpty(topic), OptionLength(topic), OrEmpty(message), OptionLength(message),
      OrEmpty(p.userName), OptionLength(p.userName), OrEmpty(p.password), OptionLength(p.password),
      TwoBytes(p.keepAlive))
  }

  function HeadBuffers(m: Message): seq<seq<byte>> {
    [[m.fixedHeader], m.remainingLengthBuf, m.protocolNameAndLevel, [m.connectFlags]]
      + [m.keepAliveBuf, m.clientIdLengthBuf, m.clientId]
  }

  function WillBuffers(m: Message): seq<seq<byte>> {
    if HasWillFlag(m.connectFlags)
    then [m.willTopicNameLengthBuf, m.willTopicName, m.willMessageLengthBuf, m.willMessage] else []
  }

  function UserNameBuffers(m: Message): seq<seq<byte>> {
    if HasUserNameFlag(m.connectFlags) then [m.userNameLengthBuf, m.userName] else []
  }

  function PasswordBuffers(m: Message): seq<seq<byte>> {
    if HasPasswordFlag(m.connectFlags) then [m.passwordLengthBuf, m.password] else []
  }

  function Buffers(m: Message): seq<seq<byte>> {
    HeadBuffers(m) + WillBuffers(m) + UserNameBuffers(m) + PasswordBuffers(m)
  }

  function Size(m: Message): nat {
    1 + |m.remainingLengthBuf| + m.remainingLength
  }

  const NUM_OF_CONST_BUFFER_SEQUENCE: nat := 15

  // ---------- the constructor ----------

  /** The optional fields are members of the message; their flags and lengths are added up. */
  datatype Building = Building(m: Message, flags: nat, length: nat)

  function WithCredentials(b: Building, userName: Option<seq<byte>>, password: Option<seq<byte>>): Building
    requires FitsOption(userName) && FitsOption(password)
  {
    Building(
      b.m.(userName := OrEmpty(userName), userNameLengthBuf := OptionLength(userName),
           password := OrEmpty(password), passwordLengthBuf := OptionLength(password)),
      b.flags + 128 * Bit(userName.Some?) + 64 * Bit(password.Some?),
      b.length + |OptionStr(userName)| + |OptionStr(password)|)
  }

  function WithWill(b: Building, w: Option<Will>): Building
    requires w.Some? ==> Fits(w.value.topic) && Fits(w.value.message)
  {
    if w.None? then b
    else
      Building(
        b.m.(willTopicName := w.value.topic, willTopicNameLengthBuf := TwoBytes(|w.value.topic|),
             willMessage := w.value.message, willMessageLengthBuf := TwoBytes(|w.value.message|)),
        b.flags + 4 + 8 * w.value.qos + 32 * Bit(w.value.retain),
        b.length + |WillBytes(w)|)
  }

  method AddCredentials(ok: Utf8Check, start: Building, userName: Option<seq<byte>>, password: Option<seq<byte>>)
    returns (r: Result<Building>)
    requires start.m.userName == start.m.userNameLengthBuf == start.m.password == start.m.passwordLengthBuf == []
    ensures match CredentialsError(ok, userName, password)
            case Some(e) => r == Failure(e)
            case None => FitsOption(userName) && FitsOption(password)
                         && r == Success(WithCredentials(start, userName, password))
  {
    hide TwoBytes;
    var Building(m, flags, length) := start;
    if userName.Some? {
      var check := Utf8StringCheck(ok, userName.value);
      if check.Some? { return Failure(check.value); }
      flags := flags + 128;
      var len := AddUint16ToBuf(m.userNameLengthBuf, |userName.value|);
      m := m.(userName := userName.value, userNameLengthBuf := len);
      length := length + 2 + |m.userName|;
      assert m.userNameLengthBuf == OptionLength(userName);
    }
    if password.Some? {
      flags := flags + 64;
      if |password.value| > 0xffff { return Failure(NumericCast); }
      var len := AddUint16ToBuf(m.passwordLengthBuf, |password.value|);
      m := m.(password := password.value, passwordLengthBuf := len);
      length := length + 2 + |m.password|;
      assert m.passwordLengthBuf == OptionLength(password);
    }
    r := Success(Building(m, flags, length));
  }

  method AddWill(ok: Utf8Check, start: Building, w: Option<Will>) returns (r: Result<Building>)
    requires start.m.willTopicNameLengthBuf == start.m.willMessageLengthBuf == []
    ensures match WillError(ok, w)
            case Some(e) => r == Failure(e)
            case None => (w.Some? ==> Fits(w.value.topic) && Fits(w.value.message))
                         && r == Success(WithWill(start, w))
  {
    hide TwoBytes;
    var Building(m, flags, length) := start;
    if w.Some? {
      flags := flags + 4;
      if w.value.retain { flags := flags + 32; }
      flags := flags + 8 * w.value.qos;
      var check := Utf8StringCheck(ok, w.value.topic);
      if check.Some? { return Failure(check.value); }
      var len := AddUint16ToBuf(m.willTopicNameLengthBuf, |w.value.topic|);
      m := m.(willTopicName := w.value.topic, willTopicNameLengthBuf := len);
      assert m.willTopicNameLengthBuf == TwoBytes(|w.value.topic|);
      if |w.value.message| > 0xffff { return Failure(WillMessageLength); }
      len := AddUint16ToBuf(m.willMessageLengthBuf, |w.value.message|);
      m := m.(willMessage := w.value.message, willMessageLengthBuf := len);
      assert m.willMessageLengthBuf == TwoBytes(|w.value.message|);
      length := length + 2 + |m.willTopicName| + 2 + |m.willMessage|;
    }
    r := Success(Building(m, flags, length));
  }

  /** What has been collected is the message of the packet, up to its length and flags. */
  lemma Collected(p: Packet)
    requires p.Connect? && WellFormed(2, p)
    ensures var start := Building(
              Message(0x10, 0, 0, [], PROTOCOL, p.clientId, TwoBytes(|p.clientId|),
                      [], [], [], [], [], [], [], [], TwoBytes(p.keepAlive)),
              2 * Bit(p.cleanSession), 12 + |p.clientId|);
            var b := WithWill(WithCredentials(start, p.userName, p.password), p.will);
            && b.flags == ConnectFlags(p.cleanSession, p.will, p.userName.Some?, p.password.Some?)
            && b.length == |Body(2, p)|
            && b.m.(connectFlags := b.flags, remainingLength := b.length, remainingLengthBuf := Encode(b.length))
                 == MessageOf(p)
  {
    hide TwoBytes, Encode;
  }

  method Build(ok: Utf8Check, keepAliveSec: uint16, clientId: seq<byte>, cleanSession: bool,
               w: Option<Will>, userName: Option<seq<byte>>, password: Option<seq<byte>>)
    returns (r: Result<Message>)
    requires w.Some? ==> w.value.qos < 4
    ensures var p := Connect(keepAliveSec, clientId, cleanSession, w, userName, password);
            match ConnectError(ok, p)
            case Some(e) => r == Failure(e)
            case None => WellFormed(2, p) && r == Success(MessageOf(p))
  {
    hide Encode, TwoBytes, WithWill, WithCredentials, MessageOf, Body, CredentialsError, WillError, ConnectFlags;
    ghost var p := Connect(keepAliveSec, clientId, cleanSession, w, userName, password);
    var connectFlags := 0;
    if |clientId| > 0xffff { return Failure(NumericCast); }
    var m := Message(0x10, 0, 0, [], PROTOCOL, clientId, TwoBytes(|clientId|),
                     [], [], [], [], [], [], [], [], TwoBytes(keepAliveSec));
    var check := Utf8StringCheck(ok, clientId);
    if check.Some? { return Failure(check.value); }
    if cleanSession { connectFlags := connectFlags + 2; }
    var start := Building(m, connectFlags, 2 + 4 + 1 + 1 + 2 + 2 + |clientId|);
    var login := AddCredentials(ok, start, userName, password);
    if login.Failure? { return Failure(login.error); }
    WillIsBlank(start, userName, password);
    var b := AddWill(ok, login.value, w);
    if b.Failure? { return Failure(b.error); }
    assert WellFormed(2, p);
    Collected(p);
    AlwaysSendable(p);
    var Building(full, flags, length) := b.value;
    var rb := RemainingBytes(length);
    r := Success(full.(connectFlags := flags, remainingLength := length, remainingLengthBuf := rb.value));
  }

  lemma WillIsBlank(b: Building, userName: Option<seq<byte>>, password: Option<seq<byte>>)
    requires FitsOption(userName) && FitsOption(password)
    ensures WithCredentials(b, userName, password).m.willTopicNameLengthBuf == b.m.willTopicNameLengthBuf
    ensures WithCredentials(b, userName, password).m.willMessageLengthBuf == b.m.willMessageLengthBuf
  {
  }

  // ---------- serialization ----------

  method ConstBufferSequence(m: Message) returns (ret: seq<seq<byte>>)
    ensures ret == Buffers(m)
  {
    ret := [];
    ret := ret + [[m.fixedHeader]];
    ret := ret + [m.remainingLengthBuf];
    ret := ret + [m.protocolNameAndLevel];
    ret := ret + [[m.connectFlags]];
    ret := ret + [m.keepAliveBuf];
    ret := ret + [m.clientIdLengthBuf];
    ret := ret + [m.clientId];
    assert ret == HeadBuffers(m);
    ghost var head := ret;
    if HasWillFlag(m.connectFlags) {
      ret := ret + [m.willTopicNameLengthBuf];
      ret := ret + [m.willTopicName];
      ret := ret + [m.willMessageLengthBuf];
      ret := ret + [m.willMessage];
    }
    assert ret == head + WillBuffers(m);
    ghost var will := ret;
    if HasUserNameFlag(m.connectFlags) {
      ret := ret + [m.userNameLengthBuf];
      ret := ret + [m.userName];
    }
    assert ret == will + UserNameBuffers(m);
    ghost var user := ret;
    if HasPasswordFlag(m.connectFlags) {
      ret := ret + [m.passwordLengthBuf];
      ret := ret + [m.password];
    }
    assert ret == user + PasswordBuffers(m);
  }

  /** The one continuous buffer is the concatenation of the scattered ones. */
  method ContinuousBuffer(m: Message) returns (ret: seq<byte>)
    ensures ret == Flatten(Buffers(m))
  {
    FlattenBuffers(m);
    ret := [m.fixedHeader];
    ret := ret + m.remainingLengthBuf;
    ret := ret + m.protocolNameAndLevel;
    ret := ret + [m.connectFlags];
    ret := ret + m.keepAliveBuf;
    ret := ret + m.clientIdLengthBuf;
    ret := ret + m.clientId;
    assert ret == HeadBytes(m);
    ghost var head := ret;
    if HasWillFlag(m.connectFlags) {
      ret := ret + m.willTopicNameLengthBuf;
      ret := ret + m.willTopicName;
      ret := ret + m.willMessageLengthBuf;
      ret := ret + m.willMessage;
    }
    assert ret == head + WillFieldBytes(m);
    ghost var will := ret;
    if HasUserNameFlag(m.connectFlags) {
      ret := ret + m.userNameLengthBuf;
      ret := ret + m.userName;
    }
    assert ret == will + UserNameBytes(m);
    ghost var user := ret;
    if HasPasswordFlag(m.connectFlags) {
      ret := ret + m.passwordLengthBuf;
      ret := ret + m.password;
    }
    assert ret == user + PasswordBytes(m);
  }

  // ---------- properties ----------

  ghost function HeadBytes(m: Message): seq<byte> {
    [m.fixedHeader] + m.remainingLengthBuf + m.protocolNameAndLevel + [m.connectFlags]
      + m.keepAliveBuf + m.clientIdLengthBuf + m.clientId
  }

  ghost function WillFieldBytes(m: Message): seq<byte> {
    if HasWillFlag(m.connectFlags)
    then m.willTopicNameLengthBuf + m.willTopicName + m.willMessageLengthBuf + m.willMessage else []
  }

  ghost function UserNameBytes(m: Message): seq<byte> {
    if HasUserNameFlag(m.connectFlags) then m.userNameLengthBuf + m.userName else []
  }

  ghost function PasswordBytes(m: Message): seq<byte> {
    if HasPasswordFlag(m.connectFlags) then m.passwordLengthBuf + m.password else []
  }

  lemma FlattenHead(m: Message)
    ensures Flatten(HeadBuffers(m)) == HeadBytes(m)
  {
    var a := [[m.fixedHeader], m.remainingLengthBuf, m.protocolNameAndLevel, [m.connectFlags]];
    var b := [m.keepAliveBuf, m.clientIdLengthBuf, m.clientId];
    FlattenAppend(a, b);
    FlattenFour(a[0], a[1], a[2], a[3]);
    FlattenThree(b[0], b[1], b[2]);
  }

  lemma FlattenOptional(m: Message)
    ensures Flatten(WillBuffers(m)) == WillFieldBytes(m)
    ensures Flatten(UserNameBuffers(m)) == UserNameBytes(m)
    ensures Flatten(PasswordBuffers(m)) == PasswordBytes(m)
  {
    FlattenFour(m.willTopicNameLengthBuf, m.willTopicName, m.willMessageLengthBuf, m.willMessage);
    FlattenTwo(m.userNameLengthBuf, m.userName);
    FlattenTwo(m.passwordLengthBuf, m.password);
  }

  lemma FlattenBuffers(m: Message)
    ensures Flatten(Buffers(m)) ==
            HeadBytes(m) + WillFieldBytes(m) + UserNameBytes(m) + PasswordBytes(m)
  {
    FlattenHead(m);
    FlattenOptional(m);
    FlattenAppend(HeadBuffers(m), WillBuffers(m));
    FlattenAppend(HeadBuffers(m) + WillBuffers(m), UserNameBuffers(m));
    FlattenAppend(HeadBuffers(m) + WillBuffers(m) + UserNameBuffers(m), PasswordBuffers(m));
  }

  lemma BodyLength(p: Packet)
    requires p.Connect? && WellFormed(2, p)
    ensures |Body(2, p)| == 12 + |p.clientId|
              + (if p.userName.Some? then 2 + |p.userName.value| else 0)
              + (if p.password.Some? then 2 + |p.password.value| else 0)
              + (if p.will.Some? then 2 + |p.will.value.topic| + 2 + |p.will.value.message| else 0)
  {
  }

  /** The remaining length of a CONNECT is always small enough to be encoded. */
  lemma AlwaysSendable(p: Packet)
    requires p.Connect? && WellFormed(2, p)
    ensures Sendable(2, p)
  {
    BodyLength(p);
  }

  /** A built CONNECT serializes to its wire format, and its size() is right. */
  lemma BuiltPacket(p: Packet)
    requires p.Connect? && WellFormed(2, p)
    ensures Flatten(Buffers(MessageOf(p))) == PacketBytes(2, p)
    ensures Size(MessageOf(p)) == |PacketBytes(2, p)|
  {
    hide Encode, TwoBytes, ConnectFlags, ConnectStart, HeadBytes, Str;
    var m := MessageOf(p);
    FlattenBuffers(m);
    OptionalOfBuilt(p);
    HeadOfBuilt(p);
    var start, client := ConnectStart(m.connectFlags, p.keepAlive), Str(p.clientId);
    var rest := WillBytes(p.will) + (OptionStr(p.userName) + OptionStr(p.password));
    Regroup([0x10] + (m.remainingLengthBuf + start), client,
            WillBytes(p.will), OptionStr(p.userName), OptionStr(p.password));
    Assoc(m.remainingLengthBuf, start, client + rest);
    Assoc([0x10], m.remainingLengthBuf + start, client + rest);
  }

  lemma OptionalOfBuilt(p: Packet)
    requires p.Connect? && WellFormed(2, p)
    ensures WillFieldBytes(MessageOf(p)) == WillBytes(p.will)
    ensures UserNameBytes(MessageOf(p)) == OptionStr(p.userName)
    ensures PasswordBytes(MessageOf(p)) == OptionStr(p.password)
  {
    hide Encode, TwoBytes, ConnectFlags, Body;
    FlagBits(p.cleanSession, p.will, p.userName.Some?, p.password.Some?);
  }

  lemma HeadOfBuilt(p: Packet)
    requires p.Connect? && WellFormed(2, p)
    ensures var m := MessageOf(p);
            HeadBytes(m) ==
              ([0x10] + (m.remainingLengthBuf + ConnectStart(m.connectFlags, p.keepAlive))) + Str(p.clientId)
  {
    hide Encode, TwoBytes, Body, ConnectFlags;
    var m := MessageOf(p);
    var h, r, f, k, l := [m.fixedHeader], m.remainingLengthBuf, [m.connectFlags], m.keepAliveBuf, m.clientIdLengthBuf;
    Assoc(h + r + PROTOCOL, f, k);
    Assoc(h + r, PROTOCOL, f + k);
    Assoc(h, r, PROTOCOL + (f + k));
    Assoc(h + r + PROTOCOL + f + k, l, m.clientId);
  }

  lemma Regroup(a: seq<byte>, b: seq<byte>, c: seq<byte>, d: seq<byte>, e: seq<byte>)
    ensures a + b + c + d + e == a + (b + (c + (d + e)))
  {
    Assoc(a + b + c, d, e);
    Assoc(a + b, c, d + e);
    Assoc(a, b, c + (d + e));
  }

  /** The announced number of buffers is an upper bound, reached when every optional field is there. */
  lemma BufferCount(p: Packet)
    requires p.Connect? && WellFormed(2, p)
    ensures |Buffers(MessageOf(p))| ==
              7 + (if p.will.Some? then 4 else 0) + (if p.userName.Some? then 2 else 0)
              + (if p.password.Some? then 2 else 0)
    ensures |Buffers(MessageOf(p))| <= NUM_OF_CONST_BUFFER_SEQUENCE
    ensures |Buffers(MessageOf(p))| == NUM_OF_CONST_BUFFER_SEQUENCE
            <==> p.will.Some? && p.userName.Some? && p.password.Some?
  {
    FlagBits(p.cleanSession, p.will, p.userName.Some?, p.password.Some?);
  }
}
