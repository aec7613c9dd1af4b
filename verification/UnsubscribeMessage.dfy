/** basic_unsubscribe_message. */
module UnsubscribeMessage {
  import opened Bytes
  import opened Wrappers
  import opened VariableLength
  import opened Wire
  import opened StringCheck

  datatype Entry = Entry(topicName: seq<byte>, topicNameLengthBuf: seq<byte>)

  datatype Message = Message(
    fixedHeader: byte,
    entries: seq<Entry>,
    packetId: seq<byte>,
    remainingLength: nat,
    remainingLengthBuf: seq<byte>)

  // ---------- specification ----------

  function TopicError(ok: Utf8Check, params: seq<seq<byte>>): Option<Error> {
    if params == [] then None
    else if Utf8StringCheck(ok, params[0]).Some? then Utf8StringCheck(ok, params[0])
    else TopicError(ok, params[1..])
  }

  /** The number of topics before the first that does not pass. */
  function FirstBad(ok: Utf8Check, params: seq<seq<byte>>): (k: nat)
    ensures k <= |params| && (k < |params| ==> !Passes(ok, params[k]))
    ensures forall i :: 0 <= i < k ==> Passes(ok, params[i])
  {
    if params == [] || !Passes(ok, params[0]) then 0 else 1 + FirstBad(ok, params[1..])
  }

  /** There is no exception exactly if all topics fit and pass the contents check, and the first
      that does not decides it. */
  lemma {:induction false} TopicErrors(ok: Utf8Check, params: seq<seq<byte>>)
    ensures TopicError(ok, params) ==
              if FirstBad(ok, params) == |params| then None else Some(Complaint(params[FirstBad(ok, params)]))
    ensures TopicError(ok, params).None? <==> forall i :: 0 <= i < |params| ==> Passes(ok, params[i])
  {
    hide Passes, Utf8StringCheck, Complaint;
    if params != [] {
      CheckThrows(ok, params[0]);
      TopicErrors(ok, params[1..]);
    }
  }

  function EntryOf(t: seq<byte>): Entry
    requires Fits(t)
  {
    Entry(t, TwoBytes(|t|))
  }

  function EntriesOf(ts: seq<seq<byte>>): seq<Entry>
    requires forall t :: t in ts ==> Fits(t)
  {
    seq(|ts|, i requires 0 <= i < |ts| => EntryOf(ts[i]))
  }

  function MessageOf(n: Width, p: Packet): Message
    requires p.Unsubscribe? && WellFormed(n, p)
  {
    Message(0xa2, EntriesOf(p.topics), IdBytes(n, p.unsubscribeId), |Body(n, p)|, Encode(|Body(n, p)|))
  }

  function EntryBuffers(es: seq<Entry>): (r: seq<seq<byte>>)
    ensures |r| == 2 * |es|
  {
    if es == [] then []
    else
      var e := es[|es| - 1];
      EntryBuffers(es[..|es| - 1]) + [e.topicNameLengthBuf, e.topicName]
  }

  function Buffers(m: Message): seq<seq<byte>> {
    [[m.fixedHeader], m.remainingLengthBuf, m.packetId] + EntryBuffers(m.entries)
  }

  function Size(m: Message): nat {
    1 + |m.remainingLengthBuf| + m.remainingLength
  }

  function NumOfConstBufferSequence(m: Message): nat {
    1 + 1 + 1 + |m.entries| * 2
  }

  // ---------- the constructor ----------

  /** The loop that checks for errors before anything is allocated. */
  method CheckTopics(ok: Utf8Check, params: seq<seq<byte>>) returns (r: Option<Error>)
    ensures r == TopicError(ok, params)
    ensures r.None? ==> forall k :: 0 <= k < |params| ==> Fits(params[k])
  {
    for i := 0 to |params|
      invariant forall k :: 0 <= k < i ==> Fits(params[k])
      invariant TopicError(ok, params) == TopicError(ok, params[i..])
    {
      r := Utf8StringCheck(ok, params[i]);
      if r.Some? { return; }
    }
    r := None;
  }

  /** The loop that collects the entries and adds up the remaining length. */
  method AddEntries(n: Width, params: seq<seq<byte>>) returns (entries: seq<Entry>, remainingLength: nat)
    requires forall t :: t in params ==> Fits(t)
    ensures entries == EntriesOf(params)
    ensures remainingLength == n + |TopicBytes(params)|
  {
    hide TwoBytes, TopicBytes;
    entries, remainingLength := [], n;
    NoTopics();
    for i := 0 to |params|
      invariant entries == EntriesOf(params[..i])
      invariant remainingLength == n + |TopicBytes(params[..i])|
    {
      assert Fits(params[i]);
      entries := entries + [Entry(params[i], TwoBytes(|params[i]|))];
      remainingLength := remainingLength + 2 + |params[i]|;
      EntriesSnoc(params, i);
    }
    assert params[..|params|] == params;
  }

  lemma NoTopics()
    ensures TopicBytes([]) == []
  {
  }

  lemma EntriesSnoc(params: seq<seq<byte>>, i: nat)
    requires i < |params| && forall t :: t in params ==> Fits(t)
    ensures EntriesOf(params[..i + 1]) == EntriesOf(params[..i]) + [EntryOf(params[i])]
    ensures |TopicBytes(params[..i + 1])| == |TopicBytes(params[..i])| + 2 + |params[i]|
  {
    hide TwoBytes, TopicBytes;
    assert params[..i + 1] == params[..i] + [params[i]];
    TopicSnoc(params[..i], params[i]);
  }

  method Build(n: Width, ok: Utf8Check, params: seq<seq<byte>>, packetId: nat) returns (r: Result<Message>)
    requires packetId < IdLimit(n)
    ensures TopicError(ok, params).Some? ==> r == Failure(TopicError(ok, params).value)
    ensures TopicError(ok, params).None? ==>
              var p := Unsubscribe(packetId, params);
              && WellFormed(n, p)
              && r == if Sendable(n, p) then Success(MessageOf(n, p)) else Failure(RemainingLength)
  {
    hide Encode, TwoBytes, FourBytes, IdBytes, TopicBytes, EntriesOf, TopicError;
    var id := AddPacketIdToBuf(n, [], packetId);
    assert id == IdBytes(n, packetId);
    var check := CheckTopics(ok, params);
    if check.Some? { return Failure(check.value); }
    ghost var p := Unsubscribe(packetId, params);
    assert WellFormed(n, p);
    var entries, remainingLength := AddEntries(n, params);
    var rb := RemainingBytes(remainingLength);
    if rb.Failure? { return Failure(rb.error); }
    r := Success(Message(0xa2, entries, id, remainingLength, rb.value));
  }

  lemma {:induction false} TopicSnoc(ts: seq<seq<byte>>, t: seq<byte>)
    requires forall x :: x in ts ==> Fits(x)
    requires Fits(t)
    ensures TopicBytes(ts + [t]) == TopicBytes(ts) + Str(t)
  {
    if ts == [] {
      assert ts + [t] == [t];
      assert [t][1..] == [];
    } else {
      TopicSnoc(ts[1..], t);
      assert (ts + [t])[1..] == ts[1..] + [t];
      Assoc(Str(ts[0]), TopicBytes(ts[1..]), Str(t));
    }
  }

  // ---------- serialization ----------

  method ConstBufferSequence(m: Message) returns (ret: seq<seq<byte>>)
    ensures ret == Buffers(m)
  {
    ret := [[m.fixedHeader]];
    ret := ret + [m.remainingLengthBuf];
    ret := ret + [m.packetId];
    ghost var head := ret;
    for i := 0 to |m.entries|
      invariant ret == head + EntryBuffers(m.entries[..i])
    {
      var e := m.entries[i];
      ret := ret + [e.topicNameLengthBuf] + [e.topicName];
      assert m.entries[..i + 1][..i] == m.entries[..i];
    }
    assert m.entries[..|m.entries|] == m.entries;
  }

  method ContinuousBuffer(m: Message) returns (ret: seq<byte>)
    ensures ret == Flatten(Buffers(m))
  {
    ret := [m.fixedHeader];
    ret := ret + m.remainingLengthBuf;
    ret := ret + m.packetId;
    ghost var head := [[m.fixedHeader], m.remainingLengthBuf, m.packetId];
    FlattenThree(head[0], head[1], head[2]);
    ghost var start := ret;
    for i := 0 to |m.entries|
      invariant ret == start + Flatten(EntryBuffers(m.entries[..i]))
    {
      var e := m.entries[i];
      ret := ret + e.topicNameLengthBuf + e.topicName;
      assert m.entries[..i + 1][..i] == m.entries[..i];
      FlattenTwo(e.topicNameLengthBuf, e.topicName);
      FlattenAppend(EntryBuffers(m.entries[..i]), [e.topicNameLengthBuf, e.topicName]);
    }
    assert m.entries[..|m.entries|] == m.entries;
    FlattenAppend(head, EntryBuffers(m.entries));
  }

  // ---------- properties ----------

  lemma {:induction false} EntriesFlatten(ts: seq<seq<byte>>)
    requires forall t :: t in ts ==> Fits(t)
    ensures Flatten(EntryBuffers(EntriesOf(ts))) == TopicBytes(ts)
  {
    hide TwoBytes;
    if ts != [] {
      var init, last := ts[..|ts| - 1], ts[|ts| - 1];
      EntriesFlatten(init);
      assert ts == init + [last];
      assert EntriesOf(ts)[..|ts| - 1] == EntriesOf(init);
      TopicSnoc(init, last);
      FlattenTwo(TwoBytes(|last|), last);
      FlattenAppend(EntryBuffers(EntriesOf(init)), [TwoBytes(|last|), last]);
    }
  }

  lemma BuiltPacket(n: Width, p: Packet)
    requires p.Unsubscribe? && WellFormed(n, p)
    ensures Flatten(Buffers(MessageOf(n, p))) == PacketBytes(n, p)
    ensures Size(MessageOf(n, p)) == |PacketBytes(n, p)|
    ensures |Buffers(MessageOf(n, p))| == NumOfConstBufferSequence(MessageOf(n, p))
    ensures |Buffers(MessageOf(n, p))| == 3 + 2 * |p.topics|
  {
    hide Encode, TwoBytes, FourBytes;
    var m := MessageOf(n, p);
    var head := [[m.fixedHeader], m.remainingLengthBuf, m.packetId];
    EntriesFlatten(p.topics);
    FlattenThree(head[0], head[1], head[2]);
    FlattenAppend(head, EntryBuffers(m.entries));
    Assoc(m.remainingLengthBuf, m.packetId, TopicBytes(p.topics));
    Assoc(head[0], m.remainingLengthBuf + m.packetId, TopicBytes(p.topics));
  }
}
