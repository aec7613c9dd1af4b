/**
  The two ends of a connection and the messages in flight between them (section 3.3.2.3.4 of
  MQTT v5.0). What the ends do to their tables is the endpoint's: apply_topic_alias when a
  PUBLISH is sent, the topic alias part of the PUBLISH handler when one arrives. The lossless
  first-in first-out channel and the interleaving are the environment.
*/
module TopicAliasChannel {
  import opened Wrappers
  import opened AliasTable
  import opened Lists
  import TopicAlias

  /** What matters of a PUBLISH: its topic, empty when the alias stands for it, and its alias. */
  datatype Publish = Publish(topic: Topic, alias: Option<nat>)

  /** auto_map_topic_alias_send_ and auto_replace_topic_alias_send_. */
  datatype Mode = Manual | AutoMap | AutoReplace

  // ---------- the sending end ----------

  ghost function AliasOf(t: Table, topic: Topic): Option<nat> {
    if exists a :: Holds(t.entries, topic, a) then
      var a :| Holds(t.entries, topic, a);
      Some(a)
    else None
  }

  /** apply_topic_alias: what goes out, or the failure, and the sender's table afterwards. `lru`
      is what get_lru_alias returns. */
  ghost function Apply(t: Table, mode: Mode, msg: Publish, lru: nat, now: nat, ahead: nat): (Result<Publish>, Table)
    requires OrderIsKeys(t)
  {
    if msg.topic == [] then ApplyEmpty(t, msg.alias, now, ahead)
    else if msg.alias.Some? then Bound(t, msg.topic, msg.alias.value, now, ahead, msg)
    else
      match (mode, AliasOf(t, msg.topic))
      case (Manual, _) => (Success(msg), t)
      case (_, Some(a)) => Bound(t, msg.topic, a, now, ahead, Publish([], Some(a)))
      case (AutoMap, None) => Bound(t, msg.topic, lru, now, ahead, Publish(msg.topic, Some(lru)))
      case (AutoReplace, None) => (Success(msg), t)
  }

  /** The topic is left to the alias. */
  ghost function ApplyEmpty(t: Table, alias: Option<nat>, now: nat, ahead: nat): (Result<Publish>, Table)
    requires OrderIsKeys(t)
  {
    match alias
    case None => (Failure(Protocol), t)
    case Some(a) =>
      if a < 1 || a > t.max then (Failure(Assertion), t)
      else if TopicOf(t, a) == [] then (Failure(Protocol), Touch(t, a, now, ahead))
      else (Success(Publish([], alias)), Touch(t, a, now, ahead))
  }

  ghost function Bound(t: Table, topic: Topic, alias: nat, now: nat, ahead: nat, out: Publish): (Result<Publish>, Table)
    requires OrderIsKeys(t)
  {
    (if BindAllowed(t, topic, alias) then Success(out) else Failure(Assertion), Insert(t, topic, alias, now, ahead))
  }

  /** An endpoint whose peer has announced no aliases has no table. */
  function ApplyAbsent(msg: Publish): Result<Publish> {
    if msg.topic == [] then Failure(Protocol) else Success(msg)
  }

  method ApplyTopicAlias(send: TopicAlias.Send?, mode: Mode, msg: Publish, now: nat, ahead: nat)
    returns (r: Result<Publish>, ghost lru: nat)
    requires send != null ==> send.Valid() && send.max > 0 && Past(send.State(), now)
    modifies if send == null then {} else {send, send.va}
    ensures send == null ==> r == ApplyAbsent(msg)
    ensures send != null ==>
              && send.Valid() && Past(send.State(), now)
              && (mode.AutoMap? && msg.topic != [] && msg.alias.None? ==> IsLru(old(send.State()), lru))
              && (r, send.State()) == Apply(old(send.State()), mode, msg, lru, now, ahead)
  {
    hide Inv, Past, Insert, Touch, TopicOf, IsLru, BindAllowed, AliasOf;
    lru := 0;
    if send == null {
      r := if msg.topic == [] then Failure(Protocol) else Success(msg);
    } else if msg.topic == [] {
      r := ApplyEmptyTopic(send, msg.alias, now, ahead);
    } else if msg.alias.Some? {
      r := ApplyExplicit(send, msg.topic, msg.alias.value, now, ahead, msg);
    } else if mode.AutoMap? {
      r, lru := ApplyAutoMap(send, msg.topic, now, ahead);
    } else if mode.AutoReplace? {
      r := ApplyAutoReplace(send, msg.topic, now, ahead);
    } else {
      r := Success(msg);
    }
  }

  method ApplyEmptyTopic(send: TopicAlias.Send, alias: Option<nat>, now: nat, ahead: nat) returns (r: Result<Publish>)
    requires send.Valid() && Past(send.State(), now)
    modifies send
    ensures send.Valid() && Past(send.State(), now)
    ensures (r, send.State()) == ApplyEmpty(old(send.State()), alias, now, ahead)
  {
    hide Inv, Past, TopicOf;
    if alias.None? { return Failure(Protocol); }
    var topic := send.FindTopic(alias.value, now, ahead);
    if topic.Failure? {
      OutOfRangeIsNoTouch(old(send.State()), alias.value, now, ahead);
      return Failure(topic.error);
    }
    if topic.value == [] { return Failure(Protocol); }
    r := Success(Publish([], alias));
  }

  lemma OutOfRangeIsNoTouch(t: Table, alias: nat, now: nat, ahead: nat)
    requires Inv(t) && !(1 <= alias <= t.max)
    ensures Touch(t, alias, now, ahead) == t
  {
  }

  method ApplyExplicit(send: TopicAlias.Send, topic: Topic, alias: nat, now: nat, ahead: nat, out: Publish)
    returns (r: Result<Publish>)
    requires send.Valid() && Past(send.State(), now)
    modifies send, send.va
    ensures send.Valid() && Past(send.State(), now)
    ensures (r, send.State()) == Bound(old(send.State()), topic, alias, now, ahead, out)
  {
    hide Inv, Past, Insert, BindAllowed;
    var failed := send.InsertOrUpdate(topic, alias, now, ahead);
    if failed.Some? { return Failure(failed.value); }
    r := Success(out);
  }

  method ApplyAutoMap(send: TopicAlias.Send, topic: Topic, now: nat, ahead: nat)
    returns (r: Result<Publish>, ghost lru: nat)
    requires send.Valid() && send.max > 0 && Past(send.State(), now) && topic != []
    modifies send, send.va
    ensures send.Valid() && Past(send.State(), now)
    ensures IsLru(old(send.State()), lru)
    ensures (r, send.State()) == Apply(old(send.State()), AutoMap, Publish(topic, None), lru, now, ahead)
  {
    hide Past, Insert, BindAllowed, IsLru, TopicOf, Touch, InRange, OrderIsSorted, Distinct;
    var lruTa := send.GetLruAlias();
    lru := lruTa;
    var ta := send.FindAlias(topic);
    if ta.Some? {
      OnlyAlias(send.State(), topic, ta.value);
      r := ApplyExplicit(send, topic, ta.value, now, ahead, Publish([], ta));
    } else {
      r := ApplyExplicit(send, topic, lruTa, now, ahead, Publish(topic, Some(lruTa)));
    }
  }

  method ApplyAutoReplace(send: TopicAlias.Send, topic: Topic, now: nat, ahead: nat) returns (r: Result<Publish>)
    requires send.Valid() && Past(send.State(), now) && topic != []
    modifies send, send.va
    ensures send.Valid() && Past(send.State(), now)
    ensures (r, send.State()) == Apply(old(send.State()), AutoReplace, Publish(topic, None), 0, now, ahead)
  {
    hide Past, Insert, BindAllowed, TopicOf, Touch, InRange, OrderIsSorted, Distinct;
    var ta := send.FindAlias(topic);
    if ta.Some? {
      OnlyAlias(send.State(), topic, ta.value);
      r := ApplyExplicit(send, topic, ta.value, now, ahead, Publish([], ta));
    } else {
      r := Success(Publish(topic, None));
    }
  }

  lemma OnlyAlias(t: Table, topic: Topic, a: nat)
    requires TopicsDistinct(t) && Holds(t.entries, topic, a)
    ensures AliasOf(t, topic) == Some(a) && !HeldElsewhere(t.entries, topic, a)
  {
  }

  // ---------- what a submission does ----------

  /** When nothing goes out, in terms of the message and the bindings: a topic that is left to no
      alias, or to one that is not bound; an alias out of range; a bound alias for a topic that
      another one stands for. Then nothing changes. */
  lemma SubmissionFails(t: Table, mode: Mode, msg: Publish, lru: nat, now: nat, ahead: nat)
    requires Inv(t) && t.max > 0 && (mode.AutoMap? ==> IsLru(t, lru))
    ensures var (out, t') := Apply(t, mode, msg, lru, now, ahead);
            && (out == Failure(Protocol) <==>
                  |msg.topic| == 0 &&
                  (msg.alias.None? || (1 <= msg.alias.value <= t.max && msg.alias.value !in t.entries)))
            && (out == Failure(Assertion) <==>
                  msg.alias.Some? &&
                  (!(1 <= msg.alias.value <= t.max)
                   || (|msg.topic| > 0 && msg.alias.value in t.entries
                       && exists a :: a in t.entries && a != msg.alias.value && t.entries[a].topic == msg.topic)))
            && (out.Failure? ==> t' == t && (out == Failure(Protocol) || out == Failure(Assertion)))
  {
    hide OrderIsSorted, Distinct, Bind, Relink;
    NoAliasOf(t, msg.topic);
    if |msg.topic| > 0 {
      if msg.alias.Some? {
        InsertFails(t, msg.topic, msg.alias.value, now, ahead);
      } else if !mode.Manual? && AliasOf(t, msg.topic).Some? {
        AutoRepeats(t, mode, msg.topic, AliasOf(t, msg.topic).value, lru, now, ahead);
      } else if mode.AutoMap? {
        AutoMapBinds(t, msg.topic, lru, now, ahead);
      }
    }
  }

  lemma NoAliasOf(t: Table, topic: Topic)
    ensures AliasOf(t, topic).None? <==> forall a :: a in t.entries ==> t.entries[a].topic != topic
    ensures AliasOf(t, topic).Some? ==>
              AliasOf(t, topic).value in t.entries && t.entries[AliasOf(t, topic).value].topic == topic
  {
    if a :| a in t.entries && t.entries[a].topic == topic { assert Holds(t.entries, topic, a); }
  }

  /** Auto-mapping a topic that no alias stands for: topic and alias go out, and the alias that
      get_lru_alias gave is bound to the topic. */
  lemma AutoMapBinds(t: Table, topic: Topic, lru: nat, now: nat, ahead: nat)
    requires Inv(t) && t.max > 0 && IsLru(t, lru) && |topic| > 0
    requires forall a :: a in t.entries ==> t.entries[a].topic != topic
    ensures var (out, t') := Apply(t, AutoMap, Publish(topic, None), lru, now, ahead);
            && out == Success(Publish(topic, Some(lru)))
            && t'.entries == t.entries[lru := Entry(topic, now)] && t'.used == t.used + {lru}
  {
    hide OrderIsSorted, Distinct, Bind;
    NoAliasOf(t, topic);
    if Full(t) { FullHasOrder(t); }
    InsertBinds(t, topic, lru, now, ahead);
  }

  /** A topic that an alias stands for, in either automatic mode: the alias alone goes out, and is
      touched. */
  lemma AutoRepeats(t: Table, mode: Mode, topic: Topic, a: nat, lru: nat, now: nat, ahead: nat)
    requires Inv(t) && !mode.Manual? && |topic| > 0 && a in t.entries && t.entries[a].topic == topic
    ensures var (out, t') := Apply(t, mode, Publish(topic, None), lru, now, ahead);
            && out == Success(Publish([], Some(a)))
            && t'.entries == t.entries[a := Entry(topic, now)] && t'.used == t.used
  {
    hide OrderIsSorted, Distinct, Bind;
    assert Holds(t.entries, topic, a);
    OnlyAlias(t, topic, a);
    assert t.used + {a} == t.used;
    InsertBinds(t, topic, a, now, ahead);
  }

  /** A message with a topic and no alias otherwise goes out as it is, and nothing is bound. */
  lemma PlainSubmission(t: Table, mode: Mode, topic: Topic, lru: nat, now: nat, ahead: nat)
    requires OrderIsKeys(t) && |topic| > 0
    requires mode.Manual? || (mode.AutoReplace? && forall a :: a in t.entries ==> t.entries[a].topic != topic)
    ensures Apply(t, mode, Publish(topic, None), lru, now, ahead) == (Success(Publish(topic, None)), t)
  {
    NoAliasOf(t, topic);
  }

  /** A message with an alias goes out as it is, in every mode: with a topic the alias is bound to
      it, unless another one is; without one it is touched. */
  lemma ExplicitSubmission(t: Table, mode: Mode, msg: Publish, lru: nat, now: nat, ahead: nat)
    requires Inv(t) && msg.alias.Some? && Apply(t, mode, msg, lru, now, ahead).0.Success?
    ensures var (out, t') := Apply(t, mode, msg, lru, now, ahead);
            var a := msg.alias.value;
            && out == Success(msg)
            && (|msg.topic| == 0 ==> a in t.entries && t'.entries == t.entries[a := Entry(t.entries[a].topic, now)])
            && (|msg.topic| > 0 ==>
                  t'.entries == if exists b :: b in t.entries && b != a && t.entries[b].topic == msg.topic
                                then t.entries else t.entries[a := Entry(msg.topic, now)])
  {
    hide OrderIsSorted, Distinct, Bind, Relink;
    var a := msg.alias.value;
    if |msg.topic| > 0 {
      InsertFails(t, msg.topic, a, now, ahead);
      if exists b :: b in t.entries && b != a && t.entries[b].topic == msg.topic {
        InsertRefuses(t, msg.topic, a, now, ahead);
      } else {
        InsertBinds(t, msg.topic, a, now, ahead);
      }
    }
  }

  /** Auto-mapping works: whatever goes out for a topic carries an alias that stands for the topic
      afterwards, with the topic exactly if no alias stood for it before; and the next message for
      the topic, in either automatic mode, is the alias alone. */
  lemma AutoMapMaps(t: Table, topic: Topic, lru: nat, now: nat, ahead: nat,
                    mode: Mode, lru': nat, now': nat, ahead': nat)
    requires Inv(t) && Past(t, now) && t.max > 0 && IsLru(t, lru) && |topic| > 0 && !mode.Manual?
    ensures var (out, t') := Apply(t, AutoMap, Publish(topic, None), lru, now, ahead);
            && out.Success? && out.value.alias.Some?
            && var a := out.value.alias.value;
            && OrderIsKeys(t') && a in t'.entries && t'.entries[a].topic == topic
            && out.value.topic == (if exists b :: b in t.entries && t.entries[b].topic == topic then [] else topic)
            && Apply(t', mode, Publish(topic, None), lru', now', ahead').0 == Success(Publish([], Some(a)))
  {
    hide OrderIsSorted, TopicsDistinct, InRange, Distinct, Past, Apply, IsLru;
    ApplyKeepsInv(t, AutoMap, Publish(topic, None), lru, now, ahead);
    var t' := Apply(t, AutoMap, Publish(topic, None), lru, now, ahead).1;
    if b :| b in t.entries && t.entries[b].topic == topic {
      AutoRepeats(t, AutoMap, topic, b, lru, now, ahead);
      AutoRepeats(t', mode, topic, b, lru', now', ahead');
    } else {
      AutoMapBinds(t, topic, lru, now, ahead);
      AutoRepeats(t', mode, topic, lru, lru', now', ahead');
    }
  }

  lemma ApplyKeepsInv(t: Table, mode: Mode, msg: Publish, lru: nat, now: nat, ahead: nat)
    requires Inv(t) && Past(t, now) && 0 < t.max && (mode.AutoMap? ==> IsLru(t, lru))
    ensures Inv(Apply(t, mode, msg, lru, now, ahead).1)
  {
    var final := map a | a in t.entries :: t.entries[a].topic;
    SubmitAgrees(t, mode, msg, lru, now, ahead, final, t.max);
  }

  // ---------- the receiving end ----------

  /** The topic that an arriving message is for, None for a protocol error, and the receiver's table. */
  function Receive(recv: map<nat, Topic>, max: nat, msg: Publish): (Option<Topic>, map<nat, Topic>) {
    if msg.topic == [] then
      if msg.alias.None? then (Some([]), recv)
      else
        var a := msg.alias.value;
        if a == 0 || a > max || a !in recv then (None, recv) else (Some(recv[a]), recv)
    else if msg.alias.Some? then (Some(msg.topic), recv[msg.alias.value := msg.topic])
    else (Some(msg.topic), recv)
  }

  /** An endpoint that has announced no aliases has no table, and asks it for its maximum before it
      asks whether it is there. */
  function ReceiveAbsent(msg: Publish): Result<Topic> {
    if msg.topic != [] || msg.alias.None? then Success(msg.topic)
    else if msg.alias == Some(0) then Failure(Protocol)
    else Failure(BadOptionalAccess)
  }

  method OnPublish(recv: TopicAlias.Recv?, msg: Publish) returns (topic: Result<Topic>)
    requires recv != null ==> recv.Valid()
    modifies if recv == null then {} else {recv}
    ensures recv == null ==> topic == ReceiveAbsent(msg)
    ensures recv != null ==>
              var (resolved, aliases) := Receive(old(recv.aliases), recv.max, msg);
              && recv.Valid() && recv.aliases == aliases
              && topic == if resolved.Some? then Success(resolved.value) else Failure(Protocol)
  {
    if msg.topic == [] {
      if msg.alias.Some? {
        var a := msg.alias.value;
        if a == 0 { return Failure(Protocol); }
        if recv == null { return Failure(BadOptionalAccess); }
        if a > recv.max { return Failure(Protocol); }
        var found := recv.Find(a);
        if found == [] { return Failure(Protocol); }
        return Success(found);
      }
    } else if msg.alias.Some? {
      if recv != null { recv.InsertOrUpdate(msg.topic, msg.alias.value); }
    }
    topic := Success(msg.topic);
  }

  /** Without a table at the sending end nothing goes out that needs one: every receiver resolves
      it. Without one at the receiving end no message that is left to its alias is resolved. */
  lemma AbsentTables(msg: Publish, recv: map<nat, Topic>, max: nat)
    ensures ApplyAbsent(msg) == if |msg.topic| > 0 then Success(msg) else Failure(Protocol)
    ensures ApplyAbsent(msg).Success? <==> msg.topic != []
    ensures ApplyAbsent(msg).Success? ==>
              var out := ApplyAbsent(msg).value;
              Receive(recv, max, out).0 == Some(msg.topic) && ReceiveAbsent(out) == Success(msg.topic)
    ensures ReceiveAbsent(msg).Success? <==> msg.topic != [] || msg.alias.None?
    ensures |msg.topic| == 0 && msg.alias.Some? ==>
              ReceiveAbsent(msg) == Failure(if msg.alias.value == 0 then Protocol else BadOptionalAccess)
  {
  }

  /** The receiving end: a topic is for itself, and bound to the alias that comes with it; an alias
      alone is for the topic that it is bound to, and a protocol error out of range or unbound. */
  lemma ReceiveResolves(recv: map<nat, Topic>, max: nat, msg: Publish)
    ensures var (topic, recv') := Receive(recv, max, msg);
            && (|msg.topic| > 0 ==> topic == Some(msg.topic))
            && (|msg.topic| == 0 && msg.alias.None? ==> topic == Some([]))
            && (|msg.topic| == 0 && msg.alias.Some? ==>
                  var a := msg.alias.value;
                  && (topic.Some? <==> 1 <= a <= max && a in recv)
                  && (topic.Some? ==> topic.value == recv[a]))
            && recv' == if |msg.topic| > 0 && msg.alias.Some? then recv[msg.alias.value := msg.topic] else recv
  {
  }

  /** The range of an alias is checked only where it stands alone. One that is out of range is
      bound when it comes with a topic, and refused when it comes without one. */
  lemma RangeCheckedLate(recv: map<nat, Topic>, max: nat, topic: Topic, alias: nat)
    requires topic != []
    ensures var (first, recv') := Receive(recv, max, Publish(topic, Some(alias)));
            && first == Some(topic) && alias in recv'
            && (Receive(recv', max, Publish([], Some(alias))).0 == Some(topic) <==> 1 <= alias <= max)
            && (Receive(recv', max, Publish([], Some(alias))).0 == None <==> !(1 <= alias <= max))
  {
  }

  // ---------- the connection ----------

  /** A message in flight, with the topic that its sender meant. */
  datatype Sent = Sent(msg: Publish, meant: Topic)

  datatype System = System(
    send: Table,
    clock: nat,
    queue: seq<Sent>,
    recv: map<nat, Topic>,
    recvMax: nat,
    delivered: seq<(Option<Topic>, Topic)>)

  datatype Action =
    | Submit(mode: Mode, msg: Publish, lru: nat, now: nat, ahead: nat)
    | Deliver
    | Reconnect

  ghost predicate Enabled(s: System, act: Action) {
    match act
    case Submit(mode, msg, lru, now, ahead) =>
      s.clock <= now && (mode.AutoMap? ==> IsLru(s.send, lru))
    case Deliver => s.queue != []
    case Reconnect => true
  }

  function Meant(t: Table, msg: Publish): Topic {
    if msg.topic != [] || msg.alias.None? then msg.topic else TopicOf(t, msg.alias.value)
  }

  ghost function Next(s: System, act: Action): System
    requires OrderIsKeys(s.send) && Enabled(s, act)
  {
    match act
    case Submit(mode, msg, lru, now, ahead) => (
      match Apply(s.send, mode, msg, lru, now, ahead)
      case (Failure(_), t) => s.(send := t, clock := now)
      case (Success(out), t) =>
        s.(send := t, clock := now, queue := s.queue + [Sent(out, Meant(s.send, msg))])
    )
    case Deliver =>
      var (topic, recv) := Receive(s.recv, s.recvMax, s.queue[0].msg);
      s.(queue := s.queue[1..], recv := recv, delivered := s.delivered + [(topic, s.queue[0].meant)])
    case Reconnect =>
      s.(send := Empty(s.send.max), queue := [], recv := map[])
  }

  // ---------- replaying the queue ----------

  function Replay(recv: map<nat, Topic>, max: nat, queue: seq<Sent>): map<nat, Topic>
    decreases |queue|
  {
    if queue == [] then recv else Replay(Receive(recv, max, queue[0].msg).1, max, queue[1..])
  }

  predicate AllResolve(recv: map<nat, Topic>, max: nat, queue: seq<Sent>)
    decreases |queue|
  {
    if queue == [] then true
    else
      var (topic, recv') := Receive(recv, max, queue[0].msg);
      topic == Some(queue[0].meant) && AllResolve(recv', max, queue[1..])
  }

  lemma {:induction false} ReplayAppend(recv: map<nat, Topic>, max: nat, queue: seq<Sent>, m: Sent)
    ensures Replay(recv, max, queue + [m]) == Receive(Replay(recv, max, queue), max, m.msg).1
    ensures AllResolve(recv, max, queue + [m]) <==>
              AllResolve(recv, max, queue) && Receive(Replay(recv, max, queue), max, m.msg).0 == Some(m.meant)
    decreases |queue|
  {
    if queue == [] {
      assert queue + [m] == [m] && [m][1..] == [];
    } else {
      assert (queue + [m])[1..] == queue[1..] + [m];
      ReplayAppend(Receive(recv, max, queue[0].msg).1, max, queue[1..], m);
    }
  }

  // ---------- agreement ----------

  /** The receiver's table, once everything in flight has arrived. */
  function Final(s: System): map<nat, Topic> {
    Replay(s.recv, s.recvMax, s.queue)
  }

  /** Every alias of the sender stands for the same topic in `final`. */
  predicate Agrees(t: Table, final: map<nat, Topic>) {
    forall a :: a in t.entries ==> a in final && final[a] == t.entries[a].topic
  }

  ghost predicate Good(s: System) {
    && Inv(s.send) && Past(s.send, s.clock) && 0 < s.send.max <= s.recvMax
    && AllResolve(s.recv, s.recvMax, s.queue)
    && Agrees(s.send, Final(s))
    && forall i :: 0 <= i < |s.delivered| ==> s.delivered[i].0 == Some(s.delivered[i].1)
  }

  /** What one submission does: the invariant of the table, and, if anything goes out, a message
      that the receiver's table, after everything in flight, resolves to the topic that was
      meant. A failed submission leaves the sender's bindings in agreement too. */
  lemma SubmitAgrees(t: Table, mode: Mode, msg: Publish, lru: nat, now: nat, ahead: nat, final: map<nat, Topic>,
                     max: nat)
    requires Inv(t) && Past(t, now) && 0 < t.max <= max && Agrees(t, final)
    requires mode.AutoMap? ==> IsLru(t, lru)
    ensures var (out, t') := Apply(t, mode, msg, lru, now, ahead);
            && Inv(t') && Past(t', now) && t'.max == t.max
            && (out.Failure? ==> Agrees(t', final))
            && (out.Success? ==>
                  && Receive(final, max, out.value).0 == Some(Meant(t, msg))
                  && Agrees(t', Receive(final, max, out.value).1))
  {
    hide Inv, Past, Agrees, Touch, Insert, IsLru, Receive;
    if msg.topic == [] {
      if msg.alias.Some? { TouchAgrees(t, msg.alias.value, now, ahead, final, max); }
    } else if msg.alias.Some? {
      BoundAgrees(t, msg.topic, msg.alias.value, now, ahead, final, max);
    } else {
      PlainAgrees(final, max, msg.topic);
      if !mode.Manual? {
        if AliasOf(t, msg.topic).Some? {
          RepeatAgrees(t, msg.topic, AliasOf(t, msg.topic).value, now, ahead, final, max);
        } else if mode.AutoMap? {
          BoundAgrees(t, msg.topic, lru, now, ahead, final, max);
        }
      }
    }
  }

  /** A topic left to its alias. */
  lemma TouchAgrees(t: Table, alias: nat, now: nat, ahead: nat, final: map<nat, Topic>, max: nat)
    requires Inv(t) && Past(t, now) && t.max <= max && Agrees(t, final)
    ensures var t' := Touch(t, alias, now, ahead);
            && Inv(t') && Past(t', now) && t'.max == t.max && Agrees(t', final)
            && (TopicOf(t, alias) != [] ==>
                  Receive(final, max, Publish([], Some(alias))) == (Some(TopicOf(t, alias)), final))
  {
    hide OrderIsSorted, TopicsDistinct, Distinct, Relink;
    TouchKeepsInv(t, alias, now, ahead);
  }

  /** A topic together with an alias. */
  lemma BoundAgrees(t: Table, topic: Topic, alias: nat, now: nat, ahead: nat, final: map<nat, Topic>, max: nat)
    requires Inv(t) && Past(t, now) && Agrees(t, final) && topic != []
    ensures var t' := Insert(t, topic, alias, now, ahead);
            var (resolved, final') := Receive(final, max, Publish(topic, Some(alias)));
            && Inv(t') && Past(t', now) && t'.max == t.max && resolved == Some(topic)
            && if BindAllowed(t, topic, alias) then Agrees(t', final') else t' == t
  {
    hide Inv, Past, HeldElsewhere, BindOrder;
    if BindAllowed(t, topic, alias) {
      BindKeepsInv(t, topic, alias, now, ahead);
    }
  }

  /** A topic replaced by its alias, which is bound to it once more. */
  lemma RepeatAgrees(t: Table, topic: Topic, alias: nat, now: nat, ahead: nat, final: map<nat, Topic>, max: nat)
    requires Inv(t) && Past(t, now) && t.max <= max && Agrees(t, final) && topic != []
    requires AliasOf(t, topic) == Some(alias)
    ensures var t' := Insert(t, topic, alias, now, ahead);
            && Inv(t') && Past(t', now) && t'.max == t.max && BindAllowed(t, topic, alias)
            && Receive(final, max, Publish([], Some(alias))) == (Some(topic), final) && Agrees(t', final)
  {
    hide OrderIsSorted, Distinct, BindOrder, Past;
    assert Holds(t.entries, topic, alias);
    OnlyAlias(t, topic, alias);
    BindKeepsInv(t, topic, alias, now, ahead);
  }

  lemma PlainAgrees(final: map<nat, Topic>, max: nat, topic: Topic)
    requires topic != []
    ensures Receive(final, max, Publish(topic, None)) == (Some(topic), final)
  {
  }

  lemma StepKeepsGood(s: System, act: Action)
    requires Good(s) && Enabled(s, act)
    ensures Good(Next(s, act))
  {
    hide Past, Apply, Agrees, IsLru, OrderIsSorted, TopicsDistinct, InRange, Distinct;
    match act
    case Submit(mode, msg, lru, now, ahead) =>
      PastLater(s.send, s.clock, now);
      SubmitAgrees(s.send, mode, msg, lru, now, ahead, Final(s), s.recvMax);
      var (out, t) := Apply(s.send, mode, msg, lru, now, ahead);
      if out.Success? {
        ReplayAppend(s.recv, s.recvMax, s.queue, Sent(out.value, Meant(s.send, msg)));
      }
    case Deliver =>
    case Reconnect =>
      EmptyIsGood(s.send.max, s.clock);
  }

  lemma PastLater(t: Table, clock: nat, now: nat)
    requires Past(t, clock) && clock <= now
    ensures Past(t, now)
  {
  }

  lemma EmptyIsGood(max: nat, clock: nat)
    ensures Inv(Empty(max)) && Past(Empty(max), clock) && forall final :: Agrees(Empty(max), final)
  {
  }

  function Start(max: nat, recvMax: nat): System {
    System(Empty(max), 0, [], map[], recvMax, [])
  }

  /** The states of a connection: reached from its start by enabled actions. */
  ghost predicate Reaches(max: nat, recvMax: nat, acts: seq<Action>, s: System)
    decreases |acts|
  {
    if acts == [] then s == Start(max, recvMax)
    else exists s0 ::
      && Reaches(max, recvMax, acts[..|acts| - 1], s0)
      && OrderIsKeys(s0.send) && Enabled(s0, acts[|acts| - 1]) && s == Next(s0, acts[|acts| - 1])
  }

  /** Agreement over whole runs, with any number of messages in flight, any interleaving, and
      after any reuse of aliases: whatever has been delivered was resolved to the topic that its
      sender meant, whatever is in flight will be, and the receiver's table, once the queue is
      replayed on it, says of every alias of the sender what the sender's table says. */
  lemma {:induction false} Agreement(max: nat, recvMax: nat, acts: seq<Action>, s: System)
    requires 0 < max <= recvMax && Reaches(max, recvMax, acts, s)
    ensures Good(s) && s.send.max == max && s.recvMax == recvMax
    decreases |acts|
  {
    hide Good, Enabled;
    if acts == [] {
      StartIsGood(max, recvMax);
    } else {
      var init, act := acts[..|acts| - 1], acts[|acts| - 1];
      var s0 :| Reaches(max, recvMax, init, s0) && OrderIsKeys(s0.send) && Enabled(s0, act) && s == Next(s0, act);
      Agreement(max, recvMax, init, s0);
      StepKeepsGood(s0, act);
      NextKeepsMax(s0, act);
    }
  }

  lemma StartIsGood(max: nat, recvMax: nat)
    requires 0 < max <= recvMax
    ensures Good(Start(max, recvMax))
  {
    EmptyIsGood(max, 0);
  }

  lemma NextKeepsMax(s: System, act: Action)
    requires OrderIsKeys(s.send) && Enabled(s, act)
    ensures Next(s, act).send.max == s.send.max && Next(s, act).recvMax == s.recvMax
  {
    hide BindOrder, Relink;
  }

  function Expected(queue: seq<Sent>): seq<(Option<Topic>, Topic)> {
    if queue == [] then [] else [(Some(queue[0].meant), queue[0].meant)] + Expected(queue[1..])
  }

  ghost function DeliverAll(s: System): System
    requires OrderIsKeys(s.send)
    decreases |s.queue|
  {
    if s.queue == [] then s else DeliverAll(Next(s, Deliver))
  }

  /** Delivering everything in flight resolves each message, in order, and ends in the replayed table. */
  lemma {:induction false} DrainDelivers(s: System)
    requires Good(s)
    ensures DeliverAll(s) == s.(queue := [], recv := Final(s), delivered := s.delivered + Expected(s.queue))
    decreases |s.queue|
  {
    if s.queue == [] {
      assert s.delivered + [] == s.delivered;
    } else {
      var s' := Next(s, Deliver);
      StepKeepsGood(s, Deliver);
      DrainDelivers(s');
      assert s'.delivered + Expected(s'.queue) == s.delivered + Expected(s.queue);
    }
  }

  // ---------- when the tables are equal ----------

  /** The replayed table is the sender's, not only an extension of it. */
  predicate Mirrors(t: Table, final: map<nat, Topic>) {
    Agrees(t, final) && final.Keys == t.entries.Keys
  }

  /** A submission that goes out keeps the two tables equal exactly when it is not one that the
      sender's topic index refuses: a fresh alias for a topic that another alias stands for. */
  lemma MirrorIffNotRefused(t: Table, mode: Mode, msg: Publish, lru: nat, now: nat, ahead: nat,
                            final: map<nat, Topic>, max: nat)
    requires Inv(t) && Past(t, now) && 0 < t.max <= max && Mirrors(t, final)
    requires mode.AutoMap? ==> IsLru(t, lru)
    requires Apply(t, mode, msg, lru, now, ahead).0.Success?
    ensures var (out, t') := Apply(t, mode, msg, lru, now, ahead);
            Mirrors(t', Receive(final, max, out.value).1) <==>
              !(msg.topic != [] && msg.alias.Some? && Refused(t.entries, msg.topic, msg.alias.value))
  {
    hide OrderIsSorted, Distinct, BindOrder, Relink, Past, IsLru, InRange;
    var (out, t') := Apply(t, mode, msg, lru, now, ahead);
    SubmitAgrees(t, mode, msg, lru, now, ahead, final, max);
    if msg.topic != [] && msg.alias.Some? && Refused(t.entries, msg.topic, msg.alias.value) {
      assert msg.alias.value in Receive(final, max, out.value).1 && msg.alias.value !in t'.entries;
    } else if msg.topic != [] && msg.alias.None? && !mode.Manual? && AliasOf(t, msg.topic).Some? {
      OnlyAlias(t, msg.topic, AliasOf(t, msg.topic).value);
    }
  }

  /** A second alias for the same topic, and the receiver's table holds it alone. */
  lemma RefusedBreaksMirror()
    ensures var t := Bind(Empty(2), [1], 1, 0, 0);
            var final: map<nat, Topic> := map[1 := [1]];
            var (out, t') := Apply(t, Manual, Publish([1], Some(2)), 0, 1, 0);
            && Mirrors(t, final) && out == Success(Publish([1], Some(2)))
            && !Mirrors(t', Receive(final, 2, out.value).1)
  {
    var t := Bind(Empty(2), [1], 1, 0, 0);
    assert t.entries == map[1 := Entry([1], 0)];
    assert Holds(t.entries, [1], 1);
    assert BindAllowed(t, [1], 2) && Refused(t.entries, [1], 2);
    assert 2 in Receive(map[1 := [1]], 2, Publish([1], Some(2))).1;
  }
}
