/**
  topic_alias_send.hpp and topic_alias_recv.hpp: the tables of the two ends. The sender's keeps
  three indexes over the same elements, by alias, by topic and by timestamp, and an allocator;
  the time that the program reads from the steady clock is a parameter.
*/
module TopicAlias {
  import opened Wrappers
  import opened AliasTable
  import opened Lists
  import ValueAllocator

  /** The topic index and the alias index are each other's inverse. */
  ghost predicate Inverse(aliases: map<nat, Entry>, topics: map<Topic, nat>) {
    && (forall a :: a in aliases ==> aliases[a].topic in topics && topics[aliases[a].topic] == a)
    && (forall s :: s in topics ==> topics[s] in aliases && aliases[topics[s]].topic == s)
  }

  lemma InverseInserted(aliases: map<nat, Entry>, topics: map<Topic, nat>, a: nat, e: Entry)
    requires Inverse(aliases, topics) && a !in aliases && e.topic !in topics
    ensures Inverse(aliases[a := e], topics[e.topic := a])
  {
  }

  lemma InverseRebound(aliases: map<nat, Entry>, topics: map<Topic, nat>, a: nat, e: Entry)
    requires Inverse(aliases, topics) && a in aliases && (e.topic in topics ==> topics[e.topic] == a)
    ensures Inverse(aliases[a := e], (topics - {aliases[a].topic})[e.topic := a])
  {
  }

  class Send {
    const max: nat
    var aliases: map<nat, Entry>     // tag_alias
    var topics: map<Topic, nat>      // tag_topic_name
    var order: seq<nat>              // tag_tp
    const va: ValueAllocator.Allocator

    ghost function State(): Table
      reads this, va
    {
      Table(max, aliases, order, va.Used())
    }

    ghost predicate Valid()
      reads this, va
    {
      va.Valid() && !va.wide && va.lowest == 1 && va.highest == max && Inverse(aliases, topics) && Inv(State())
    }

    constructor (max: nat)
      requires 0 < max <= ValueAllocator.MAX16
      ensures Valid() && fresh(va) && this.max == max && State() == Empty(max)
    {
      this.max := max;
      aliases, topics, order := map[], map[], [];
      va := new ValueAllocator.Allocator(false, 1, max);
    }

    /** A call that fails one of the assertions changes nothing. */
    method InsertOrUpdate(topic: Topic, alias: nat, now: nat, ahead: nat) returns (failed: Option<Error>)
      requires Valid() && Past(State(), now)
      modifies this, va
      ensures Valid() && Past(State(), now)
      ensures failed == if BindAllowed(old(State()), topic, alias) then None else Some(Assertion)
      ensures failed.Some? <==>
                || topic == [] || alias < 1 || alias > max
                || (alias in old(aliases)
                    && exists a :: a in old(aliases) && a != alias && old(aliases)[a].topic == topic)
      ensures State() == Insert(old(State()), topic, alias, now, ahead)
    {
      hide Inverse, Distinct, Sorted, Relink, TopicsDistinct, Past, HeldElsewhere, BindOrder, Refused;
      InsertFails(State(), topic, alias, now, ahead);
      if topic == [] || alias < 1 || alias > max { return Some(Assertion); }
      if BindAllowed(State(), topic, alias) { BindKeepsInv(State(), topic, alias, now, ahead); }
      var _ := va.Use(alias);
      assert va.Used() == old(va.Used()) + {alias};
      assert alias in aliases ==> va.Used() == old(va.Used());
      failed := InsertOrModify(topic, alias, now, ahead);
    }

    /** The three indexes. An alias that is not bound is emplaced, unless the topic index refuses;
        a bound one is modified, unless the topic index asserts. */
    method InsertOrModify(topic: Topic, alias: nat, now: nat, ahead: nat) returns (failed: Option<Error>)
      requires (forall a :: a in order <==> a in aliases) && Inverse(aliases, topics)
      modifies this
      ensures Inverse(aliases, topics)
      ensures failed == if alias in old(aliases) && HeldElsewhere(old(aliases), topic, alias) then Some(Assertion)
                        else None
      ensures failed.Some? ==> aliases == old(aliases) && order == old(order)
      ensures failed.None? ==>
                && order == BindOrder(old(aliases), old(order), topic, alias, now, ahead)
                && aliases == if Refused(old(aliases), topic, alias) then old(aliases)
                              else old(aliases)[alias := Entry(topic, now)]
    {
      hide Inverse, Distinct, Relink, Linked;
      IndexKnows(topic, alias);
      if alias !in aliases {
        if topic !in topics {
          var place := Linked(aliases, order, alias, now, ahead);
          InverseInserted(aliases, topics, alias, Entry(topic, now));
          aliases := aliases[alias := Entry(topic, now)];
          topics := topics[topic := alias];
          order := place;
        }
      } else {
        if topic in topics && topics[topic] != alias { return Some(Assertion); }
        InverseRebound(aliases, topics, alias, Entry(topic, now));
        var before := aliases[alias].topic;
        order := Relink(aliases, order, alias, now, ahead);
        aliases := aliases[alias := Entry(topic, now)];
        topics := (topics - {before})[topic := alias];
      }
      failed := None;
    }

    /** What the topic index says is what the table says. */
    lemma IndexKnows(topic: Topic, alias: nat)
      requires Inverse(aliases, topics)
      ensures HeldElsewhere(aliases, topic, alias) <==> topic in topics && topics[topic] != alias
      ensures topic in topics <==> exists a :: Holds(aliases, topic, a)
      ensures topic in topics ==> topics[topic] in aliases
    {
      if topic in topics { assert Holds(aliases, topic, topics[topic]); }
    }

    method FindTopic(alias: nat, now: nat, ahead: nat) returns (r: Result<Topic>)
      requires Valid() && Past(State(), now)
      modifies this
      ensures Valid() && Past(State(), now)
      ensures State() == Touch(old(State()), alias, now, ahead)
      ensures r == if 1 <= alias <= max then Success(TopicOf(old(State()), alias)) else Failure(Assertion)
    {
      hide Distinct, Sorted, Relink;
      TouchKeepsInv(State(), alias, now, ahead);
      if alias < 1 || alias > max { return Failure(Assertion); }
      if alias !in aliases { return Success([]); }
      order := Relink(aliases, order, alias, now, ahead);
      aliases := aliases[alias := Entry(aliases[alias].topic, now)];
      r := Success(aliases[alias].topic);
    }

    /** The other direction; it does not count as a use. */
    method FindAlias(topic: Topic) returns (r: Option<nat>)
      requires Valid()
      ensures r.Some? ==> Holds(aliases, topic, r.value) && 1 <= r.value <= max
      ensures r.None? ==> forall a :: !Holds(aliases, topic, a)
    {
      IndexKnows(topic, 0);
      if topic !in topics { return None; }
      r := Some(topics[topic]);
    }

    method Clear()
      requires Valid()
      modifies this, va
      ensures Valid() && State() == Empty(max)
    {
      aliases, topics, order := map[], map[], [];
      va.Clear();
    }

    method GetLruAlias() returns (alias: nat)
      requires Valid() && max > 0
      ensures IsLru(State(), alias) && 1 <= alias <= max
    {
      var vacant := va.FirstVacant();
      if vacant.Some? { return vacant.value; }
      FullHasOrder(State());
      alias := order[0];
    }
  }

  class Recv {
    const max: nat
    var aliases: map<nat, Topic>

    ghost predicate Valid()
      reads this
    {
      forall a :: a in aliases ==> aliases[a] != []
    }

    constructor (max: nat)
      ensures Valid() && this.max == max && aliases == map[]
    {
      this.max := max;
      aliases := map[];
    }

    /** The range of the alias is only asserted, and a peer decides it: any alias is taken. */
    method InsertOrUpdate(topic: Topic, alias: nat)
      requires Valid() && topic != []
      modifies this
      ensures Valid() && aliases == old(aliases)[alias := topic]
    {
      if alias !in aliases {
        aliases := aliases + map[alias := topic];
      } else {
        aliases := aliases[alias := topic];
      }
    }

    method Find(alias: nat) returns (topic: Topic)
      requires Valid() && 1 <= alias <= max
      ensures topic == if alias in aliases then aliases[alias] else []
      ensures topic == [] <==> alias !in aliases
    {
      topic := [];
      if alias in aliases { topic := aliases[alias]; }
    }

    method Clear()
      modifies this
      ensures Valid() && aliases == map[]
    {
      aliases := map[];
    }
  }
}
