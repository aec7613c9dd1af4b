/** basic_subscribe_message. */
module SubscribeMessage {
  import opened Bytes
  import opened Wrappers
  import opened VariableLength
  import opened Wire
  import opened StringCheck

  datatype Entry = Entry(topicName: seq<byte>, topicNameLengthBuf: seq<byte>, qos: nat)

  datatype Message = Message(
    fixedHeader: byte,
    entries: seq<Entry>,
    packetId: seq<byte>,
    remainingLength: nat,
    remainingLengthBuf: seq<byte>)

  // ---------- specification ----------

  predicate AllQos(params: seq<Subscription>) {
    forall i :: 0 <= i < |params| ==> params[i].qos < 4
  }

  /** The first topic that fails its check decides the exception. */
  function TopicError(ok: Utf8Check, params: seq<Subscription>): Option<Error> {
    if params == [] then None
    else if Utf8StringCheck(ok, params[0].topic).Some? then Utf8StringCheck(ok, params[0].topic)
    else TopicError(ok, params[1..])
  }

  /** The number of topics before the first that does not pass. */
  function FirstBad(ok: Utf8Check, params: seq<Subscription>): (k: nat)
    ensures k <= |params| && (k < |params| ==> !Passes(ok, params[k].topic))
    ensures forall i :: 0 <= i < k ==> Passes(ok, params[i].topic)
  {
    if params == [] || !Passes(ok, params[0].topic) then 0 else 1 + FirstBad(ok, params[1..])
  }

  /** There is no exception exactly if all topics fit and pass the contents check, and the first
      that does not decides it. */
  lemma {:induction false} TopicErrors(ok: Utf8Check, params: seq<Subscription>)
    ensures TopicError(ok, params) ==
              if FirstBad(ok, params) == |params| then None else Some(Complaint(params[FirstBad(ok, params)].topic))
    ensures TopicError(ok, params).None? <==> forall i :: 0 <= i < |params| ==> Passes(ok, params[i].topic)
  {
    hide Passes, Utf8StringCheck, Complaint;
    if params != [] {
      CheckThrows(ok, params[0].topic);
      TopicErrors(ok, params[1..]);
    }
  }

  function EntryOf(s: Subscription): Entry
    requires Fits(s.topic)
  {
    Entry(s.topic, TwoBytes(|s.topic|), s.qos)
  }

  function EntriesOf(ss: seq<Subscription>): seq<Entry>
    requires forall s :: s in ss ==> Fits(s.topic)
  {
    seq(|ss|, i requires 0 <= i < |ss| => EntryOf(ss[i]))
  }

  function MessageOf(n: Width, p: Packet): Message
    requires p.Subscribe? && WellFormed(n, p)
  {
    Message(0x82, EntriesOf(p.subscriptions), IdBytes(n, p.subscribeId), |Body(n, p)|, Encode(|Body(n, p)|))
  }

  function EntryBuffers(es: seq<Entry>): (r: seq<seq<byte>>)
    requires forall e :: e in es ==> e.qos < 4
    ensures |r| == 3 * |es|
  {
    if es == [] then []
    else
      var e := es[|es| - 1];
      EntryBuffers(es[..|es| - 1]) + [e.topicNameLengthBuf, e.topicName, [e.qos]]
  }

  predicate Valid(m: Message) {
    forall e :: e in m.entries ==> e.qos < 4
  }

  function Buffers(m: Message): seq<seq<byte>>
    requires Valid(m)
  {
    [[m.fixedHeader], m.remainingLengthBuf, m.packetId] + EntryBuffers(m.entries)
  }

  function Size(m: Message): nat {
    1 + |m.remainingLengthBuf| + m.remainingLength
  }

  function NumOfConstBufferSequence(m: Message): nat {
    1 + 1 + 1 + |m.entries| * 3
  }

  // ---------- the constructor ----------

  /** The loop that checks for errors before anything is allocated. */
  method CheckTopics(ok: Utf8Check, params: seq<Subscription>) returns (r: Option<Error>)
    ensures r == TopicError(ok, params)
    ensures r.None? ==> forall k :: 0 <= k < |params| ==> Fits(params[k].topic)
  {
    for i := 0 to |params|
      invariant forall k :: 0 <= k < i ==> Fits(params[k].topic)
      invariant TopicError(ok, params) == TopicError(ok, params[i..])
    {
      r := Utf8StringCheck(ok, params[i].topic);
      if r.Some? { return; }
    }
    r := None;
  }

  /** The loop that collects the entries and adds up the remaining length. */
  method AddEntries(n: Width, params: seq<Subscription>) returns (entries: seq<Entry>, remainingLength: nat)
    requires forall s :: s in params ==> Fits(s.topic) && s.qos < 4
    ensures entries == EntriesOf(params)
    ensures remainingLength == n + |SubscriptionBytes(params)|
  {
    hide TwoBytes, SubscriptionBytes;
    entries, remainingLength := [], n;
    NoSubscriptions();
    for i := 0 to |params|
      invariant entries == EntriesOf(params[..i])
      invariant remainingLength == n + |SubscriptionBytes(params[..i])|
    {
      entries := entries + [Entry(params[i].topic, TwoBytes(|params[i].topic|), params[i].qos)];
      remainingLength := remainingLength + 2 + |params[i].topic| + 1;
      EntriesSnoc(params, i);
    }
    assert params[..|params|] == params;
  }

  lemma NoSubscriptions()
    ensures SubscriptionBytes([]) == []
  {
  }

  lemma EntriesSnoc(params: seq<Subscription>, i: nat)
    requires i < |params| && forall s :: s in params ==> Fits(s.topic) && s.qos < 4
    ensures EntriesOf(params[..i + 1]) == EntriesOf(params[..i]) + [EntryOf(params[i])]
    ensures |SubscriptionBytes(params[..i + 1])| == |SubscriptionBytes(params[..i])| + 2 + |params[i].topic| + 1
  {
    hide TwoBytes, SubscriptionBytes;
    assert params[..i + 1] == params[..i] + [params[i]];
    SubscriptionSnoc(params[..i], params[i]);
  }

  method Build(n: Width, ok: Utf8Check, params: seq<Subscription>, packetId: nat) returns (r: Result<Message>)
    requires packetId < IdLimit(n) && AllQos(params)
    ensures TopicError(ok, params).Some? ==> r == Failure(TopicError(ok, params).value)
    ensures TopicError(ok, params).None? ==>
              var p := Subscribe(packetId, params);
              && WellFormed(n, p)
              && r == if Sendable(n, p) then Success(MessageOf(n, p)) else Failure(RemainingLength)
  {
    hide Encode, TwoBytes, FourBytes, IdBytes, SubscriptionBytes, EntriesOf, TopicError;
    var id := AddPacketIdToBuf(n, [], packetId);
    assert id == IdBytes(n, packetId);
    var check := CheckTopics(ok, params);
    if check.Some? { return Failure(check.value); }
    ghost var p := Subscribe(packetId, params);
    assert WellFormed(n, p);
    var entries, remainingLength := AddEntries(n, params);
    var rb := RemainingBytes(remainingLength);
    if rb.Failure? { return Failure(rb.error); }
    r := Success(Message(0x82, entries, id, remainingLength, rb.value));
  }

  lemma {:induction false} SubscriptionSnoc(es: seq<Subscription>, e: Subscription)
    requires forall x :: x in es ==> Fits(x.topic) && x.qos < 4
    requires Fits(e.topic) && e.qos < 4
    ensures SubscriptionBytes(es + [e]) == SubscriptionBytes(es) + (Str(e.topic) + [e.qos])
  {
    if es == [] {
      assert es + [e] == [e];
      assert [e][1..] == [];
    } else {
      SubscriptionSnoc(es[1..], e);
      assert (es + [e])[1..] == es[1..] + [e];
      var a, b := Str(es[0].topic), [es[0].qos];
      var c, d := SubscriptionBytes(es[1..]), Str(e.topic) + [e.qos];
      Assoc(b, c, d);
      Assoc(a, b + c, d);
    }
  }

  // ---------- serialization ----------

  method ConstBufferSequence(m: Message) returns (ret: seq<seq<byte>>)
    requires Valid(m)
    ensures ret == Buffers(m)
  {
    ret := [[m.fixedHeader]];
    ret := ret + [m.remainingLengthBuf];
    ret := ret + [m.packetId];
    ghost var head := ret;
    for i := 0 to |m.entries|
      invariant ret == head + EntryBuffers(m.entries[..i])
    {
      var e := m.entries[i];
      ret := ret + [e.topicNameLengthBuf] + [e.topicName] + [[e.qos]];
      assert m.entries[..i + 1][..i] == m.entries[..i];
    }
    assert m.entries[..|m.entries|] == m.entries;
  }

  method ContinuousBuffer(m: Message) returns (ret: seq<byte>)
    requires Valid(m)
    ensures ret == Flatten(Buffers(m))
  {
    ret := [m.fixedHeader];
    ret := ret + m.remainingLengthBuf;
    ret := ret + m.packetId;
    ghost var head := [[m.fixedHeader], m.remainingLengthBuf, m.packetId];
    FlattenThree(head[0], head[1], head[2]);
    ghost var start := ret;
    for i := 0 to |m.entries|
      invariant ret == start + Flatten(EntryBuffers(m.entries[..i]))
    {
      var e := m.entries[i];
      ret := ret + e.topicNameLengthBuf + e.topicName + [e.qos];
      assert m.entries[..i + 1][..i] == m.entries[..i];
      FlattenThree(e.topicNameLengthBuf, e.topicName, [e.qos]);
      FlattenAppend(EntryBuffers(m.entries[..i]), [e.topicNameLengthBuf, e.topicName, [e.qos]]);
    }
    assert m.entries[..|m.entries|] == m.entries;
    FlattenAppend(head, EntryBuffers(m.entries));
  }

  // ---------- properties ----------

  lemma LastBuffers(ss: seq<Subscription>)
    requires ss != [] && forall s :: s in ss ==> Fits(s.topic) && s.qos < 4
    ensures var last := ss[|ss| - 1];
            EntryBuffers(EntriesOf(ss)) ==
              EntryBuffers(EntriesOf(ss[..|ss| - 1])) + [TwoBytes(|last.topic|), last.topic, [last.qos]]
  {
    hide TwoBytes;
    assert EntriesOf(ss)[..|ss| - 1] == EntriesOf(ss[..|ss| - 1]);
  }

  lemma {:induction false} EntriesFlatten(ss: seq<Subscription>)
    requires forall s :: s in ss ==> Fits(s.topic) && s.qos < 4
    ensures Flatten(EntryBuffers(EntriesOf(ss))) == SubscriptionBytes(ss)
  {
    if ss != [] {
      hide TwoBytes, EntryBuffers, EntriesOf, SubscriptionBytes, Flatten;
      var init, last := ss[..|ss| - 1], ss[|ss| - 1];
      EntriesFlatten(init);
      assert ss == init + [last];
      SubscriptionSnoc(init, last);
      LastBuffers(ss);
      var buffers := [TwoBytes(|last.topic|), last.topic, [last.qos]];
      FlattenThree(buffers[0], buffers[1], buffers[2]);
      FlattenAppend(EntryBuffers(EntriesOf(init)), buffers);
    }
  }

  /** A built SUBSCRIBE serializes to its wire format, and size() and the buffer count are right. */
  lemma BuiltPacket(n: Width, p: Packet)
    requires p.Subscribe? && WellFormed(n, p)
    ensures Valid(MessageOf(n, p))
    ensures Flatten(Buffers(MessageOf(n, p))) == PacketBytes(n, p)
    ensures Size(MessageOf(n, p)) == |PacketBytes(n, p)|
    ensures |Buffers(MessageOf(n, p))| == NumOfConstBufferSequence(MessageOf(n, p))
    ensures |Buffers(MessageOf(n, p))| == 3 + 3 * |p.subscriptions|
  {
    hide Encode, TwoBytes, FourBytes;
    var m := MessageOf(n, p);
    var head := [[m.fixedHeader], m.remainingLengthBuf, m.packetId];
    EntriesFlatten(p.subscriptions);
    FlattenThree(head[0], head[1], head[2]);
    FlattenAppend(head, EntryBuffers(m.entries));
    Assoc(m.remainingLengthBuf, m.packetId, SubscriptionBytes(p.subscriptions));
    Assoc(head[0], m.remainingLengthBuf + m.packetId, SubscriptionBytes(p.subscriptions));
  }
}
