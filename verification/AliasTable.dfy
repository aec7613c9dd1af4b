/**
  The state of topic_alias_send as a value: entries under their alias, the order in which the
  timestamp index holds them, and the values that the allocator has marked used. What every
  operation keeps, and what the least recently used alias is over whole runs.
*/
module AliasTable {
  import opened Bytes
  import opened Lists
  import opened Wrappers

  type Topic = seq<byte>

  datatype Entry = Entry(topic: Topic, tp: nat)

  datatype Table = Table(max: nat, entries: map<nat, Entry>, order: seq<nat>, used: set<nat>)

  function Empty(max: nat): Table {
    Table(max, map[], [], {})
  }

  // ---------- the timestamp index ----------

  /** Where the container links an element with timestamp `now`: behind all that are earlier, and
      in front of at most `ahead` of those that are not. Its interface says no more, so `ahead` is
      a parameter of every operation. */
  function Place(entries: map<nat, Entry>, order: seq<nat>, now: nat, ahead: nat): (k: nat)
    requires forall b :: b in order ==> b in entries
    ensures k <= |order| && forall i :: k <= i < |order| ==> entries[order[i]].tp >= now
    ensures k == |order| <==> ahead == 0 || order == [] || entries[order[|order| - 1]].tp < now
  {
    if ahead == 0 || order == [] || entries[order[|order| - 1]].tp < now then |order|
    else Place(entries, order[..|order| - 1], now, ahead - 1)
  }

  function Linked(entries: map<nat, Entry>, order: seq<nat>, a: nat, now: nat, ahead: nat): seq<nat>
    requires forall b :: b in order ==> b in entries
  {
    Spliced(order, Place(entries, order, now, ahead), a)
  }

  /** A modified element stays where it is if it still fits there, and otherwise is linked anew. */
  function Relink(entries: map<nat, Entry>, order: seq<nat>, a: nat, now: nat, ahead: nat): seq<nat>
    requires a in order && forall b :: b in order ==> b in entries
  {
    var k := IndexOf(order, a);
    if k + 1 == |order| || entries[order[k + 1]].tp >= now then order
    else Linked(entries, Dropped(order, k), a, now, ahead)
  }

  // ---------- the operations ----------

  ghost predicate Holds(entries: map<nat, Entry>, topic: Topic, a: nat) {
    a in entries && entries[a].topic == topic
  }

  /** The topic is bound to an alias other than `alias`. */
  ghost predicate HeldElsewhere(entries: map<nat, Entry>, topic: Topic, alias: nat) {
    exists a :: Holds(entries, topic, a) && a != alias
  }

  /** A new element that the topic index refuses. */
  ghost predicate Refused(entries: map<nat, Entry>, topic: Topic, alias: nat) {
    alias !in entries && HeldElsewhere(entries, topic, alias)
  }

  ghost function BindOrder(entries: map<nat, Entry>, order: seq<nat>, topic: Topic, alias: nat, now: nat, ahead: nat)
    : seq<nat>
    requires forall a :: a in order <==> a in entries
  {
    if alias in entries then Relink(entries, order, alias, now, ahead)
    else if Refused(entries, topic, alias) then order
    else Linked(entries, order, alias, now, ahead)
  }

  /** insert_or_update: a bound alias is modified; one that is not gets a new element, unless the
      topic index refuses it. The allocator has marked the alias used before. */
  ghost function Bind(t: Table, topic: Topic, alias: nat, now: nat, ahead: nat): Table
    requires OrderIsKeys(t)
  {
    Table(t.max,
          if Refused(t.entries, topic, alias) then t.entries else t.entries[alias := Entry(topic, now)],
          BindOrder(t.entries, t.order, topic, alias, now, ahead),
          t.used + {alias})
  }

  /** find(alias): a bound alias is touched. */
  ghost function Touch(t: Table, alias: nat, now: nat, ahead: nat): Table
    requires OrderIsKeys(t)
  {
    if alias in t.entries then
      t.(entries := t.entries[alias := Entry(t.entries[alias].topic, now)],
         order := Relink(t.entries, t.order, alias, now, ahead))
    else t
  }

  function TopicOf(t: Table, alias: nat): Topic {
    if alias in t.entries then t.entries[alias].topic else []
  }

  // ---------- the invariant ----------

  ghost predicate OrderIsKeys(t: Table) {
    (forall a :: a in t.order <==> a in t.entries) && Distinct(t.order)
  }

  ghost predicate OrderIsSorted(t: Table)
    requires OrderIsKeys(t)
  {
    Sorted(t.entries, t.order)
  }

  predicate Sorted(entries: map<nat, Entry>, order: seq<nat>)
    requires forall a :: a in order ==> a in entries
  {
    forall i, j :: 0 <= i < j < |order| ==> entries[order[i]].tp <= entries[order[j]].tp
  }

  ghost predicate TopicsDistinct(t: Table) {
    forall a, b :: a in t.entries && b in t.entries && t.entries[a].topic == t.entries[b].topic ==> a == b
  }

  ghost predicate InRange(t: Table) {
    && (forall a :: a in t.used ==> 1 <= a <= t.max)
    && (forall a :: a in t.entries ==> a in t.used && t.entries[a].topic != [])
    && (t.used != {} ==> t.entries != map[])
  }

  ghost predicate Inv(t: Table) {
    OrderIsKeys(t) && OrderIsSorted(t) && TopicsDistinct(t) && InRange(t)
  }

  /** No timestamp is later than now: the clock is steady. */
  predicate Past(t: Table, now: nat) {
    forall a :: a in t.entries ==> t.entries[a].tp <= now
  }

  /** What insert_or_update asserts of its caller: a topic, an alias in range, and no collision
      when a bound alias is rebound. */
  ghost predicate BindAllowed(t: Table, topic: Topic, alias: nat) {
    topic != [] && 1 <= alias <= t.max && (alias in t.entries ==> !HeldElsewhere(t.entries, topic, alias))
  }

  /** insert_or_update with its assertions: a call that fails one leaves the table as it was. */
  ghost function Insert(t: Table, topic: Topic, alias: nat, now: nat, ahead: nat): Table
    requires OrderIsKeys(t)
  {
    if BindAllowed(t, topic, alias) then Bind(t, topic, alias, now, ahead) else t
  }

  lemma RelinkKeepsKeys(t: Table, a: nat, e: Entry, ahead: nat)
    requires OrderIsKeys(t) && a in t.entries
    ensures OrderIsKeys(t.(entries := t.entries[a := e], order := Relink(t.entries, t.order, a, e.tp, ahead)))
  {
    hide Distinct, Dropped, Spliced, Place;
    var k := IndexOf(t.order, a);
    var rest := Dropped(t.order, k);
    DroppedIsRest(t.order, k);
    SplicedIsMore(rest, Place(t.entries, rest, e.tp, ahead), a);
  }

  lemma RelinkKeepsOrder(t: Table, a: nat, e: Entry, ahead: nat)
    requires OrderIsKeys(t) && OrderIsSorted(t) && Past(t, e.tp) && a in t.entries
    ensures var t' := t.(entries := t.entries[a := e], order := Relink(t.entries, t.order, a, e.tp, ahead));
            OrderIsKeys(t') && OrderIsSorted(t')
  {
    RelinkKeepsKeys(t, a, e, ahead);
    hide Distinct, Sorted, Relink;
    RelinkIsSorted(t.entries, t.order, a, e, ahead);
  }

  lemma RelinkIsSorted(entries: map<nat, Entry>, order: seq<nat>, a: nat, e: Entry, ahead: nat)
    requires forall b :: b in order ==> b in entries && entries[b].tp <= e.tp
    requires a in order && Distinct(order) && Sorted(entries, order)
    ensures forall b :: b in Relink(entries, order, a, e.tp, ahead) ==> b in order
    ensures Sorted(entries[a := e], Relink(entries, order, a, e.tp, ahead))
  {
    hide Distinct, Sorted, Linked, Dropped, IndexOf;
    var k := IndexOf(order, a);
    if k + 1 == |order| || entries[order[k + 1]].tp >= e.tp {
      InPlaceIsSorted(entries, order, k, e);
    } else {
      DroppedIsSorted(entries, order, k);
      DroppedIsRest(order, k);
      LinkedIsSorted(entries, Dropped(order, k), a, e, ahead);
    }
  }

  lemma InPlaceIsSorted(entries: map<nat, Entry>, order: seq<nat>, k: nat, e: Entry)
    requires k < |order| && Distinct(order) && forall a :: a in order ==> a in entries && entries[a].tp <= e.tp
    requires Sorted(entries, order)
    requires k + 1 == |order| || entries[order[k + 1]].tp >= e.tp
    ensures Sorted(entries[order[k] := e], order)
  {
    assert forall j :: k < j < |order| ==> entries[order[j]].tp >= e.tp;
  }

  lemma DroppedIsSorted(entries: map<nat, Entry>, order: seq<nat>, k: nat)
    requires k < |order| && Distinct(order) && forall a :: a in order ==> a in entries
    requires Sorted(entries, order)
    ensures Sorted(entries, Dropped(order, k))
  {
    DroppedIsRest(order, k);
    hide Distinct, Dropped;
  }

  lemma LinkedIsSorted(entries: map<nat, Entry>, order: seq<nat>, a: nat, e: Entry, ahead: nat)
    requires forall b :: b in order ==> b in entries && entries[b].tp <= e.tp
    requires Distinct(order) && a !in order && Sorted(entries, order)
    ensures forall b :: b in Linked(entries, order, a, e.tp, ahead) <==> b in order || b == a
    ensures Distinct(Linked(entries, order, a, e.tp, ahead))
    ensures Sorted(entries[a := e], Linked(entries, order, a, e.tp, ahead))
  {
    var k := Place(entries, order, e.tp, ahead);
    var r, entries' := Linked(entries, order, a, e.tp, ahead), entries[a := e];
    SplicedIsMore(order, k, a);
    hide Distinct, Linked, Spliced, Place;
    forall i, j | 0 <= i < j < |r| ensures entries'[r[i]].tp <= entries'[r[j]].tp {
      assert i != k ==> r[i] == order[if i < k then i else i - 1];
      assert j != k ==> r[j] == order[if j < k then j else j - 1];
    }
  }

  lemma LinkKeepsOrder(t: Table, a: nat, e: Entry, ahead: nat)
    requires OrderIsKeys(t) && OrderIsSorted(t) && Past(t, e.tp) && a !in t.entries
    ensures var t' := t.(entries := t.entries[a := e], order := Linked(t.entries, t.order, a, e.tp, ahead));
            OrderIsKeys(t') && OrderIsSorted(t')
  {
    assert a !in t.order;
    hide Distinct, Sorted, Linked;
    LinkedIsSorted(t.entries, t.order, a, e, ahead);
  }

  lemma BindKeepsTopics(t: Table, topic: Topic, alias: nat, now: nat)
    requires TopicsDistinct(t) && !HeldElsewhere(t.entries, topic, alias)
    ensures TopicsDistinct(t.(entries := t.entries[alias := Entry(topic, now)]))
  {
    assert forall a :: a in t.entries && a != alias ==> !Holds(t.entries, topic, a);
  }

  /** insert_or_update keeps the invariant, leaves the other aliases alone, and afterwards the
      alias stands for the topic unless the insertion was refused. */
  lemma BindKeepsInv(t: Table, topic: Topic, alias: nat, now: nat, ahead: nat)
    requires Inv(t) && Past(t, now) && BindAllowed(t, topic, alias)
    ensures var t' := Bind(t, topic, alias, now, ahead);
            && Inv(t') && Past(t', now)
            && (!HeldElsewhere(t.entries, topic, alias) ==> Holds(t'.entries, topic, alias))
            && (forall a :: a in t.entries && a != alias ==> a in t'.entries && t'.entries[a] == t.entries[a])
  {
    hide Distinct, Relink, Sorted, InRange;
    var e := Entry(topic, now);
    if alias in t.entries {
      RelinkKeepsOrder(t, alias, e, ahead);
      BindKeepsTopics(t, topic, alias, now);
    } else if !HeldElsewhere(t.entries, topic, alias) {
      LinkKeepsOrder(t, alias, e, ahead);
      BindKeepsTopics(t, topic, alias, now);
    }
    BindKeepsRange(t, topic, alias, now, ahead);
  }

  lemma BindKeepsRange(t: Table, topic: Topic, alias: nat, now: nat, ahead: nat)
    requires OrderIsKeys(t) && InRange(t) && BindAllowed(t, topic, alias)
    ensures InRange(Bind(t, topic, alias, now, ahead))
  {
    hide Distinct, BindOrder;
    var t' := Bind(t, topic, alias, now, ahead);
    if Refused(t.entries, topic, alias) {
      var a :| Holds(t.entries, topic, a) && a != alias;
      assert a in t'.entries;
    } else {
      assert alias in t'.entries;
    }
  }

  lemma TouchKeepsInv(t: Table, alias: nat, now: nat, ahead: nat)
    requires Inv(t) && Past(t, now)
    ensures var t' := Touch(t, alias, now, ahead);
            && Inv(t') && Past(t', now) && t'.entries.Keys == t.entries.Keys && t'.used == t.used
            && (forall a :: TopicOf(t', a) == TopicOf(t, a))
  {
    hide Distinct, Relink, Sorted;
    if alias in t.entries {
      var t' := Touch(t, alias, now, ahead);
      RelinkKeepsOrder(t, alias, Entry(t.entries[alias].topic, now), ahead);
      assert forall a :: a in t'.entries <==> a in t.entries;
      assert forall a :: a in t.entries ==> t'.entries[a].topic == t.entries[a].topic;
      assert alias in t'.entries;
    }
  }

  // ---------- what insert_or_update does, and when it fails ----------

  /** It fails exactly without a topic, out of range, or for a bound alias that is given a topic
      which another alias stands for; then nothing changes. */
  lemma InsertFails(t: Table, topic: Topic, alias: nat, now: nat, ahead: nat)
    requires OrderIsKeys(t)
    ensures BindAllowed(t, topic, alias) <==>
              && |topic| > 0 && 1 <= alias <= t.max
              && !(alias in t.entries && exists a :: a in t.entries && a != alias && t.entries[a].topic == topic)
    ensures !BindAllowed(t, topic, alias) ==> Insert(t, topic, alias, now, ahead) == t
  {
    if HeldElsewhere(t.entries, topic, alias) {
      var a :| Holds(t.entries, topic, a) && a != alias;
      assert a in t.entries && a != alias && t.entries[a].topic == topic;
    }
    if exists a :: a in t.entries && a != alias && t.entries[a].topic == topic {
      var a :| a in t.entries && a != alias && t.entries[a].topic == topic;
      assert Holds(t.entries, topic, a);
    }
  }

  /** With a topic that no other alias stands for, an alias in range is bound to it at the time of
      the call, whether it was bound before or not; its former topic stands for nothing, and the
      other aliases keep theirs. */
  lemma InsertBinds(t: Table, topic: Topic, alias: nat, now: nat, ahead: nat)
    requires Inv(t) && |topic| > 0 && 1 <= alias <= t.max
    requires forall a :: a in t.entries && a != alias ==> t.entries[a].topic != topic
    ensures var t' := Insert(t, topic, alias, now, ahead);
            && BindAllowed(t, topic, alias)
            && t'.entries == t.entries[alias := Entry(topic, now)] && t'.used == t.used + {alias}
            && (alias in t.entries && t.entries[alias].topic != topic ==>
                  forall a :: a in t'.entries ==> t'.entries[a].topic != t.entries[alias].topic)
  {
    hide OrderIsSorted, InRange, BindOrder, Distinct;
    assert !HeldElsewhere(t.entries, topic, alias);
  }

  /** A fresh alias for a topic that another one stands for is used and not bound. */
  lemma InsertRefuses(t: Table, topic: Topic, alias: nat, now: nat, ahead: nat)
    requires OrderIsKeys(t) && |topic| > 0 && 1 <= alias <= t.max && alias !in t.entries
    requires exists a :: a in t.entries && t.entries[a].topic == topic
    ensures Insert(t, topic, alias, now, ahead) == t.(used := t.used + {alias})
  {
    var a :| a in t.entries && t.entries[a].topic == topic;
    assert Holds(t.entries, topic, a);
  }

  /** The allocator's used set goes on being the set of bound aliases exactly when the insertion
      is not refused by the topic index. */
  lemma UsedIsBound(t: Table, topic: Topic, alias: nat, now: nat, ahead: nat)
    requires Inv(t) && Past(t, now) && BindAllowed(t, topic, alias) && t.used == t.entries.Keys
    ensures var t' := Bind(t, topic, alias, now, ahead);
            t'.used == t'.entries.Keys <==> !Refused(t.entries, topic, alias)
  {
    if Refused(t.entries, topic, alias) {
      assert alias in Bind(t, topic, alias, now, ahead).used;
    }
  }

  // ---------- the least recently used alias ----------

  ghost predicate Full(t: Table) {
    forall a :: 1 <= a <= t.max ==> a in t.used
  }

  /** get_lru_alias: the least vacant alias, or the first one in the timestamp index. */
  ghost predicate IsLru(t: Table, a: nat) {
    if Full(t) then t.order != [] && a == t.order[0]
    else 1 <= a <= t.max && a !in t.used && forall b :: 1 <= b < a ==> b in t.used
  }

  lemma FullHasOrder(t: Table)
    requires Inv(t) && t.max > 0 && Full(t)
    ensures t.order != [] && t.order[0] in t.entries
  {
    assert 1 in t.used;
    assert t.entries != map[];
    var a :| a in t.entries;
    assert a in t.order;
  }

  /** The operations of a run with the time at which each reads the clock. find(topic) and
      get_lru_alias change nothing and are left out of runs. */
  datatype Op =
    | OpBind(topic: Topic, alias: nat, now: nat, ahead: nat)
    | OpFind(alias: nat, now: nat, ahead: nat)
    | OpClear

  ghost function Step(t: Table, op: Op): Table
    requires OrderIsKeys(t)
  {
    match op
    case OpBind(topic, alias, now, ahead) => Insert(t, topic, alias, now, ahead)
    case OpFind(alias, now, ahead) => Touch(t, alias, now, ahead)
    case OpClear => Empty(t.max)
  }

  /** An insertion that passes the assertions and is refused by the topic index. */
  ghost predicate RefusedOp(t: Table, op: Op) {
    op.OpBind? && BindAllowed(t, op.topic, op.alias) && Refused(t.entries, op.topic, op.alias)
  }

  /** The alias whose timestamp an operation sets. */
  ghost function Touched(t: Table, op: Op): (r: Option<nat>)
    ensures r.Some? ==> !op.OpClear?
  {
    match op
    case OpBind(topic, alias, _, _) =>
      if BindAllowed(t, topic, alias) && !Refused(t.entries, topic, alias) then Some(alias) else None
    case OpFind(alias, _, _) => if alias in t.entries then Some(alias) else None
    case OpClear => None
  }

  /** The last time that the run has read from the clock. */
  function Clock(ops: seq<Op>): nat {
    if ops == [] then 0
    else
      var op := ops[|ops| - 1];
      if op.OpClear? then Clock(ops[..|ops| - 1]) else op.now
  }

  /** The table after a run from the empty one. */
  ghost function After(max: nat, ops: seq<Op>): (t: Table)
    ensures OrderIsKeys(t) && t.max == max
  {
    if ops == [] then Empty(max)
    else
      var t := After(max, ops[..|ops| - 1]);
      var op := ops[|ops| - 1];
      StepKeepsKeys(t, op);
      Step(t, op)
  }

  lemma StepKeepsKeys(t: Table, op: Op)
    requires OrderIsKeys(t)
    ensures OrderIsKeys(Step(t, op)) && Step(t, op).max == t.max
  {
    match op
    case OpBind(topic, alias, now, ahead) =>
      hide Distinct, Relink, Spliced, Place, HeldElsewhere;
      if alias in t.entries {
        RelinkKeepsKeys(t, alias, Entry(topic, now), ahead);
      } else {
        SplicedIsMore(t.order, Place(t.entries, t.order, now, ahead), alias);
      }
    case OpFind(alias, now, ahead) =>
      if alias in t.entries { RelinkKeepsKeys(t, alias, Entry(t.entries[alias].topic, now), ahead); }
    case OpClear =>
  }

  /** The clock never goes back. Nothing else is asked of a run. */
  predicate SteadyRun(ops: seq<Op>) {
    if ops == [] then true
    else
      var init, op := ops[..|ops| - 1], ops[|ops| - 1];
      SteadyRun(init) && (!op.OpClear? ==> Clock(init) <= op.now)
  }

  lemma {:induction false} RunKeepsInv(max: nat, ops: seq<Op>)
    requires SteadyRun(ops)
    ensures Inv(After(max, ops)) && Past(After(max, ops), Clock(ops))
  {
    hide OrderIsSorted, TopicsDistinct, InRange, Bind, Touch, BindAllowed;
    if ops == [] {
      EmptyKeepsInv(max, 0);
    } else {
      var init, op := ops[..|ops| - 1], ops[|ops| - 1];
      RunKeepsInv(max, init);
      StepKeepsInv(After(max, init), op, Clock(init), Clock(ops));
    }
  }

  lemma EmptyKeepsInv(max: nat, now: nat)
    ensures Inv(Empty(max)) && Past(Empty(max), now)
  {
  }

  lemma StepKeepsInv(t: Table, op: Op, clock: nat, now: nat)
    requires Inv(t) && Past(t, clock) && clock <= now && (!op.OpClear? ==> op.now == now)
    ensures Inv(Step(t, op)) && Past(Step(t, op), now)
  {
    hide Inv, Bind, Touch;
    assert Past(t, now);
    match op
    case OpBind(topic, alias, _, ahead) =>
      if BindAllowed(t, topic, alias) { BindKeepsInv(t, topic, alias, now, ahead); }
    case OpFind(alias, _, ahead) => TouchKeepsInv(t, alias, now, ahead);
    case OpClear => EmptyKeepsInv(t.max, now);
  }

  // ---------- what the allocator holds over whole runs ----------

  /** Since the last clear the alias has been given to insert_or_update, in range and with a topic. */
  predicate Offered(max: nat, ops: seq<Op>, a: nat) {
    if ops == [] then false
    else
      var init, op := ops[..|ops| - 1], ops[|ops| - 1];
      match op
      case OpBind(topic, alias, _, _) => (alias == a && topic != [] && 1 <= a <= max) || Offered(max, init, a)
      case OpFind(_, _, _) => Offered(max, init, a)
      case OpClear => false
  }

  /** The allocator's used set is the set of aliases that have been offered. */
  lemma {:induction false} UsedIsOffered(max: nat, ops: seq<Op>, a: nat)
    requires SteadyRun(ops)
    ensures a in After(max, ops).used <==> Offered(max, ops, a)
  {
    if ops != [] {
      var init := ops[..|ops| - 1];
      UsedIsOffered(max, init, a);
      RunKeepsInv(max, init);
      hide OrderIsKeys, OrderIsSorted, TopicsDistinct, Refused, BindOrder, Relink;
    }
  }

  /** No insertion of the run is refused by the topic index. */
  ghost predicate NoneRefused(max: nat, ops: seq<Op>) {
    if ops == [] then true
    else
      var init, op := ops[..|ops| - 1], ops[|ops| - 1];
      NoneRefused(max, init) && !RefusedOp(After(max, init), op)
  }

  ghost predicate UsedEqualsBound(t: Table) {
    t.used == t.entries.Keys
  }

  lemma Prefixes(ops: seq<Op>)
    requires ops != []
    ensures var init, op := ops[..|ops| - 1], ops[|ops| - 1];
            && ops[..|ops|] == ops == init + [op] && ops[..|init|] == init
            && forall k :: 0 <= k <= |init| ==> ops[..k] == init[..k]
  {
  }

  lemma EmptyUsed(max: nat)
    ensures UsedEqualsBound(Empty(max))
  {
  }

  lemma StepUsedIsBound(t: Table, op: Op, clock: nat)
    requires Inv(t) && Past(t, clock) && (!op.OpClear? ==> clock <= op.now) && UsedEqualsBound(t)
    ensures UsedEqualsBound(Step(t, op)) <==> !RefusedOp(t, op)
  {
    hide Bind, Touch, Inv, Refused;
    match op
    case OpBind(topic, alias, now, ahead) =>
      if BindAllowed(t, topic, alias) { UsedIsBound(t, topic, alias, now, ahead); }
    case OpFind(alias, now, ahead) => TouchKeepsInv(t, alias, now, ahead);
    case OpClear =>
  }

  /** The used set is the set of bound aliases throughout a run exactly when no insertion of the
      run is refused. */
  lemma {:induction false} UsedIsBoundThroughout(max: nat, ops: seq<Op>)
    requires SteadyRun(ops)
    ensures (forall k :: 0 <= k <= |ops| ==> UsedEqualsBound(After(max, ops[..k]))) <==> NoneRefused(max, ops)
  {
    hide UsedEqualsBound, RefusedOp, Step, Inv;
    if ops == [] {
      EmptyUsed(max);
    } else {
      var init, op := ops[..|ops| - 1], ops[|ops| - 1];
      UsedIsBoundThroughout(max, init);
      RunKeepsInv(max, init);
      Prefixes(ops);
      if UsedEqualsBound(After(max, init)) { StepUsedIsBound(After(max, init), op, Clock(init)); }
    }
  }

  /** What the table knows of an alias is what the history says. */
  lemma AliasHistory(max: nat, ops: seq<Op>, a: nat)
    requires SteadyRun(ops)
    ensures var t := After(max, ops);
            && (a in t.used <==> Offered(max, ops, a))
            && (a in t.entries <==> LastTouch(max, ops, a).Some?)
            && (a in t.entries ==> a in t.used && t.entries[a].tp <= Clock(ops))
  {
    hide Offered, SteadyRun, Clock, OrderIsKeys, OrderIsSorted, TopicsDistinct, After;
    UsedIsOffered(max, ops, a);
    TimestampIsLastTouch(max, ops, a);
    RunKeepsInv(max, ops);
  }

  /** Every alias that has been offered since the last clear has also been bound since. */
  ghost predicate OfferedAreBound(max: nat, ops: seq<Op>) {
    forall a :: Offered(max, ops, a) ==> LastTouch(max, ops, a).Some?
  }

  /** At the end of a run the two sets are equal exactly when every alias that has been offered
      has also been bound: a refusal is made good by a later binding. */
  lemma UsedIsBoundAtEnd(max: nat, ops: seq<Op>)
    requires SteadyRun(ops)
    ensures UsedEqualsBound(After(max, ops)) <==> OfferedAreBound(max, ops)
  {
    hide After, SteadyRun, Clock, OrderIsKeys;
    var t := After(max, ops);
    forall a: nat
      ensures a in t.used <==> Offered(max, ops, a)
      ensures a in t.entries.Keys <==> LastTouch(max, ops, a).Some?
      ensures a in t.entries.Keys ==> a in t.used
    {
      AliasHistory(max, ops, a);
    }
    if OfferedAreBound(max, ops) {
      assert forall a :: a in t.used ==> a in t.entries.Keys;
      assert t.used == t.entries.Keys;
    }
  }

  // ---------- timestamps over whole runs ----------

  /** From the history: when an alias was last bound or looked up, since the last clear. An
      operation counts if it is neither rejected nor refused where it happens. */
  ghost function LastTouch(max: nat, ops: seq<Op>, a: nat): Option<nat> {
    if ops == [] then None
    else
      var init, op := ops[..|ops| - 1], ops[|ops| - 1];
      if op.OpClear? then None
      else if Touched(After(max, init), op) == Some(a) then Some(op.now)
      else LastTouch(max, init, a)
  }

  /** The timestamps in the table are the history's. */
  lemma {:induction false} TimestampIsLastTouch(max: nat, ops: seq<Op>, a: nat)
    ensures LastTouch(max, ops, a) ==
              if a in After(max, ops).entries then Some(After(max, ops).entries[a].tp) else None
  {
    if ops != [] {
      TimestampIsLastTouch(max, ops[..|ops| - 1], a);
    }
  }

  /** The alias that get_lru_alias gives away: while there is one that has not been offered since
      the last clear, the least such; and otherwise a bound one, touched no later than any other. */
  lemma LruIsLeastRecent(max: nat, ops: seq<Op>, lru: nat)
    requires SteadyRun(ops) && max > 0 && IsLru(After(max, ops), lru)
    ensures 1 <= lru <= max
    ensures (exists a :: 1 <= a <= max && !Offered(max, ops, a)) ==>
              !Offered(max, ops, lru) && forall a :: 1 <= a < lru ==> Offered(max, ops, a)
    ensures !Full(After(max, ops)) ==> lru !in After(max, ops).entries
    ensures Full(After(max, ops)) <==> forall a :: 1 <= a <= max ==> Offered(max, ops, a)
    ensures Full(After(max, ops)) ==>
              && LastTouch(max, ops, lru).Some?
              && forall a :: a in After(max, ops).entries ==>
                   LastTouch(max, ops, a).Some? && LastTouch(max, ops, lru).value <= LastTouch(max, ops, a).value
  {
    RunKeepsInv(max, ops);
    var t := After(max, ops);
    forall a: nat ensures a in t.used <==> Offered(max, ops, a) {
      UsedIsOffered(max, ops, a);
    }
    if Full(t) {
      FullHasOrder(t);
      forall a | a in t.entries
        ensures LastTouch(max, ops, a).Some? && LastTouch(max, ops, lru).Some?
        ensures LastTouch(max, ops, lru).value <= LastTouch(max, ops, a).value
      {
        FirstIsEarliest(max, ops, a);
      }
    }
  }

  lemma FirstIsEarliest(max: nat, ops: seq<Op>, a: nat)
    requires SteadyRun(ops) && a in After(max, ops).entries && After(max, ops).order != []
    ensures var first := After(max, ops).order[0];
            LastTouch(max, ops, a).Some? && LastTouch(max, ops, first).Some?
            && LastTouch(max, ops, first).value <= LastTouch(max, ops, a).value
  {
    var t := After(max, ops);
    RunKeepsInv(max, ops);
    TimestampIsLastTouch(max, ops, t.order[0]);
    TimestampIsLastTouch(max, ops, a);
    var k := IndexOf(t.order, a);
  }

  /** Over every run, the alias that get_lru_alias gives away can be bound to any new topic; on a
      full table it loses its former one by that. */
  lemma LruCanBeBound(max: nat, ops: seq<Op>, lru: nat, topic: Topic, now: nat, ahead: nat)
    requires SteadyRun(ops) && max > 0 && IsLru(After(max, ops), lru) && |topic| > 0
    requires forall a :: a in After(max, ops).entries ==> After(max, ops).entries[a].topic != topic
    ensures var t, t' := After(max, ops), After(max, ops + [OpBind(topic, lru, now, ahead)]);
            && t'.entries == t.entries[lru := Entry(topic, now)]
            && (Full(t) ==>
                  lru in t.entries && forall a :: a in t'.entries ==> t'.entries[a].topic != t.entries[lru].topic)
  {
    RunKeepsInv(max, ops);
    AfterSnoc(max, ops, OpBind(topic, lru, now, ahead));
    var t := After(max, ops);
    if Full(t) { FullHasOrder(t); }
    hide After;
    InsertBinds(t, topic, lru, now, ahead);
  }

  /** Under any steady clock, the timestamp index lists the bound aliases by their last touch. */
  lemma OrderIsByLastTouch(max: nat, ops: seq<Op>, i: nat, j: nat)
    requires SteadyRun(ops) && i < j < |After(max, ops).order|
    ensures var a, b := After(max, ops).order[i], After(max, ops).order[j];
            LastTouch(max, ops, a).Some? && LastTouch(max, ops, b).Some?
            && LastTouch(max, ops, a).value <= LastTouch(max, ops, b).value
  {
    RunKeepsInv(max, ops);
    TimestampIsLastTouch(max, ops, After(max, ops).order[i]);
    TimestampIsLastTouch(max, ops, After(max, ops).order[j]);
  }

  // ---------- the timestamp index as a recency list ----------

  /** The aliases by last touch, least recent first: a touched alias moves to the end. */
  ghost function Recency(max: nat, ops: seq<Op>): seq<nat> {
    if ops == [] then []
    else
      var init, op := ops[..|ops| - 1], ops[|ops| - 1];
      if op.OpClear? then []
      else
        match Touched(After(max, init), op)
        case None => Recency(max, init)
        case Some(a) => Without(Recency(max, init), a) + [a]
  }

  /** The timestamp index is the recency list. */
  ghost predicate IsRecency(max: nat, ops: seq<Op>) {
    After(max, ops).order == Recency(max, ops)
  }

  lemma EmptyIsRecency(max: nat)
    ensures IsRecency(max, [])
  {
  }

  /** Another alias has been touched since, or instead, at the same reading of the clock: the most
      recent alias is not the touched one, and was touched at this reading too. */
  ghost predicate SharedReading(max: nat, init: seq<Op>, op: Op) {
    match Touched(After(max, init), op)
    case None => false
    case Some(a) =>
      var r := Recency(max, init);
      r != [] && r[|r| - 1] != a && LastTouch(max, init, r[|r| - 1]) == Some(op.now)
  }

  /** And the touched alias stays in front of it: because the container puts it there, or because
      it need not be moved, the next more recent alias having been touched at this reading. */
  ghost predicate Tie(max: nat, init: seq<Op>, op: Op) {
    && SharedReading(max, init, op)
    && var r, a := Recency(max, init), Touched(After(max, init), op).value;
       op.ahead > 0 || (a in r && LastTouch(max, init, r[IndexOf(r, a) + 1]) == Some(op.now))
  }

  ghost predicate NoSharedReadings(max: nat, ops: seq<Op>) {
    if ops == [] then true
    else
      NoSharedReadings(max, ops[..|ops| - 1]) && !SharedReading(max, ops[..|ops| - 1], ops[|ops| - 1])
  }

  ghost predicate NoTies(max: nat, ops: seq<Op>) {
    if ops == [] then true
    else NoTies(max, ops[..|ops| - 1]) && !Tie(max, ops[..|ops| - 1], ops[|ops| - 1])
  }

  /** An alias that is touched does not come last. */
  ghost predicate Overtaken(t: Table, a: nat, now: nat, ahead: nat)
    requires OrderIsKeys(t)
  {
    var s := t.order;
    && s != [] && s[|s| - 1] != a && t.entries[s[|s| - 1]].tp >= now
    && (ahead > 0 || (a in s && t.entries[s[IndexOf(s, a) + 1]].tp >= now))
  }

  lemma DroppedMovesToEnd(entries: map<nat, Entry>, s: seq<nat>, k: nat, now: nat, ahead: nat)
    requires k + 1 < |s| && Distinct(s) && forall b :: b in s ==> b in entries
    ensures Linked(entries, Dropped(s, k), s[k], now, ahead) == Dropped(s, k) + [s[k]] <==>
              ahead == 0 || entries[s[|s| - 1]].tp < now
  {
    hide Distinct, Spliced, Place, Dropped;
    var rest := Dropped(s, k);
    DroppedEnds(s, k);
    SplicedAtEnd(rest, Place(entries, rest, now, ahead), s[k]);
  }

  lemma SortedAt(entries: map<nat, Entry>, s: seq<nat>, i: nat, j: nat)
    requires i <= j < |s| && (forall b :: b in s ==> b in entries) && Sorted(entries, s)
    ensures entries[s[i]].tp <= entries[s[j]].tp
  {
  }

  lemma RelinkMovesToEnd(t: Table, a: nat, now: nat, ahead: nat)
    requires OrderIsKeys(t) && OrderIsSorted(t) && a in t.entries
    ensures Relink(t.entries, t.order, a, now, ahead) == Without(t.order, a) + [a] <==> !Overtaken(t, a, now, ahead)
  {
    var s := t.order;
    hide Without, Distinct, IndexOf, Linked, Dropped, Sorted;
    var k := IndexOf(s, a);
    WithoutPresent(s, k);
    if k + 1 < |s| {
      DroppedEnds(s, k);
      SortedAt(t.entries, s, k + 1, |s| - 1);
      if t.entries[s[k + 1]].tp >= now {
        InPlaceIsAtEnd(s, k);
      } else {
        DroppedMovesToEnd(t.entries, s, k, now, ahead);
      }
    } else {
      InPlaceIsAtEnd(s, k);
    }
  }

  lemma LinkMovesToEnd(t: Table, a: nat, now: nat, ahead: nat)
    requires OrderIsKeys(t) && a !in t.entries
    ensures Linked(t.entries, t.order, a, now, ahead) == Without(t.order, a) + [a] <==> !Overtaken(t, a, now, ahead)
  {
    assert a !in t.order;
    WithoutAbsent(t.order, a);
    SplicedAtEnd(t.order, Place(t.entries, t.order, now, ahead), a);
    hide Without, Distinct, Spliced, Place;
  }

  /** What a step does to the index, and when that moves the touched alias to the end. */
  lemma StepMovesToEnd(t: Table, op: Op)
    requires OrderIsKeys(t) && OrderIsSorted(t)
    ensures Touched(t, op).None? && !op.OpClear? ==> Step(t, op).order == t.order
    ensures Touched(t, op).Some? ==>
              var a := Touched(t, op).value;
              (Step(t, op).order == Without(t.order, a) + [a] <==> !Overtaken(t, a, op.now, op.ahead))
  {
    hide Relink, Linked, Without, BindAllowed, Distinct, HeldElsewhere, Overtaken, Sorted;
    if Touched(t, op).Some? {
      var a := Touched(t, op).value;
      if a in t.entries {
        RelinkMovesToEnd(t, a, op.now, op.ahead);
      } else {
        LinkMovesToEnd(t, a, op.now, op.ahead);
      }
    }
  }

  /** The alias has been touched at `now`, which is not in the past, or else before. */
  lemma TieIsLate(max: nat, init: seq<Op>, now: nat, b: nat)
    requires SteadyRun(init) && Clock(init) <= now && b in After(max, init).order
    ensures b in After(max, init).entries
    ensures LastTouch(max, init, b) == Some(now) <==> After(max, init).entries[b].tp >= now
  {
    hide LastTouch, Clock, SteadyRun, After, Distinct;
    TimestampIsLastTouch(max, init, b);
    AliasHistory(max, init, b);
  }

  /** What the table shows of a tie is what the history says. */
  lemma OvertakenIsTie(max: nat, init: seq<Op>, op: Op)
    requires SteadyRun(init) && !op.OpClear? && Clock(init) <= op.now
    requires IsRecency(max, init) && Touched(After(max, init), op).Some?
    ensures Overtaken(After(max, init), Touched(After(max, init), op).value, op.now, op.ahead) <==> Tie(max, init, op)
  {
    hide Step, Touched, SteadyRun, Clock, LastTouch, OrderIsKeys, After, Recency;
    var s, a := After(max, init).order, Touched(After(max, init), op).value;
    if s != [] && s[|s| - 1] != a {
      TieIsLate(max, init, op.now, s[|s| - 1]);
      if a in s { TieIsLate(max, init, op.now, s[IndexOf(s, a) + 1]); }
    }
  }

  lemma RecencyStep(max: nat, init: seq<Op>, op: Op)
    requires SteadyRun(init) && (!op.OpClear? ==> Clock(init) <= op.now)
    requires IsRecency(max, init)
    ensures IsRecency(max, init + [op]) <==> !Tie(max, init, op)
  {
    var ops, t := init + [op], After(max, init);
    assert ops[..|ops| - 1] == init;
    RunKeepsInv(max, init);
    if op.OpClear? {
      ClearHasNoTie(t, op);
    } else {
      hide Step, Touched, Without, SteadyRun, Clock, LastTouch, OrderIsKeys, OrderIsSorted, InRange, TopicsDistinct;
      StepMovesToEnd(t, op);
      if Touched(t, op).Some? { OvertakenIsTie(max, init, op); }
    }
  }

  lemma ClearHasNoTie(t: Table, op: Op)
    requires OrderIsKeys(t) && op.OpClear?
    ensures Touched(t, op).None? && Step(t, op).order == []
  {
  }

  /** Throughout a run the timestamp index is the recency list exactly when no alias that is
      touched at a reading of the clock that another one has had stays in front of that one. */
  lemma {:induction false} OrderIsRecency(max: nat, ops: seq<Op>)
    requires SteadyRun(ops)
    ensures (forall k :: 0 <= k <= |ops| ==> IsRecency(max, ops[..k])) <==> NoTies(max, ops)
  {
    hide Tie, IsRecency, Clock;
    if ops == [] {
      EmptyIsRecency(max);
    } else {
      var init, op := ops[..|ops| - 1], ops[|ops| - 1];
      OrderIsRecency(max, init);
      Prefixes(ops);
      if IsRecency(max, init) { RecencyStep(max, init, op); }
    }
  }

  /** The clock advances between any two readings. */
  predicate StrictRun(ops: seq<Op>) {
    if ops == [] then true
    else
      var init, op := ops[..|ops| - 1], ops[|ops| - 1];
      StrictRun(init) && (!op.OpClear? ==> Clock(init) < op.now)
  }

  /** Without shared readings the container has no choice: whatever it does, there are no ties. */
  lemma {:induction false} NoSharedReadingsNoTies(max: nat, ops: seq<Op>)
    requires NoSharedReadings(max, ops)
    ensures NoTies(max, ops)
  {
    if ops != [] {
      hide SharedReading;
      NoSharedReadingsNoTies(max, ops[..|ops| - 1]);
    }
  }

  /** A strictly increasing clock has no shared readings. */
  lemma {:induction false} StrictRunHasNoTies(max: nat, ops: seq<Op>)
    requires StrictRun(ops)
    ensures SteadyRun(ops) && NoSharedReadings(max, ops) && NoTies(max, ops)
  {
    NoStrictSharing(max, ops);
    NoSharedReadingsNoTies(max, ops);
  }

  lemma {:induction false} NoStrictSharing(max: nat, ops: seq<Op>)
    requires StrictRun(ops)
    ensures SteadyRun(ops) && NoSharedReadings(max, ops)
  {
    if ops != [] {
      hide SharedReading;
      NoStrictSharing(max, ops[..|ops| - 1]);
      LaterIsNotShared(max, ops[..|ops| - 1], ops[|ops| - 1]);
    }
  }

  lemma LaterIsNotShared(max: nat, init: seq<Op>, op: Op)
    requires SteadyRun(init) && (!op.OpClear? ==> Clock(init) < op.now)
    ensures !SharedReading(max, init, op)
  {
    hide After, Recency, LastTouch, Clock, SteadyRun, Touched;
    if SharedReading(max, init, op) {
      var r := Recency(max, init);
      var b := r[|r| - 1];
      TimestampIsLastTouch(max, init, b);
      AliasHistory(max, init, b);
    }
  }

  lemma {:induction false} AfterSnoc(max: nat, init: seq<Op>, op: Op)
    ensures After(max, init + [op]) == Step(After(max, init), op)
    ensures SteadyRun(init + [op]) <==> SteadyRun(init) && (!op.OpClear? ==> Clock(init) <= op.now)
    ensures Clock(init + [op]) == if op.OpClear? then Clock(init) else op.now
    ensures Touched(After(max, init), op).Some? ==>
              var a := Touched(After(max, init), op).value;
              Recency(max, init + [op]) == Without(Recency(max, init), a) + [a]
  {
    hide Step, Touched, Without;
    assert (init + [op])[..|init|] == init;
  }

  lemma BindFresh(t: Table, topic: Topic, alias: nat, now: nat, ahead: nat)
    requires OrderIsKeys(t) && topic != [] && 1 <= alias <= t.max && alias !in t.entries
    requires forall a :: a in t.entries ==> t.entries[a].topic != topic
    ensures Step(t, OpBind(topic, alias, now, ahead)) ==
              Table(t.max, t.entries[alias := Entry(topic, now)], Linked(t.entries, t.order, alias, now, ahead),
                    t.used + {alias})
    ensures Touched(t, OpBind(topic, alias, now, ahead)) == Some(alias)
  {
  }

  /** Two aliases bound and the first looked up, all at the same reading: the index keeps the
      order of binding, although the first alias was touched last. */
  lemma TieKeepsOrder(ahead: nat)
    ensures var ops := [OpBind([1], 1, 0, 0), OpBind([2], 2, 0, 0), OpFind(1, 0, ahead)];
            SteadyRun(ops) && After(2, ops).order == [1, 2] && Recency(2, ops) == [2, 1]
  {
    hide Step, Touched, SteadyRun, OrderIsKeys, Place;
    var none: seq<Op>, a, b, c := [], OpBind([1], 1, 0, 0), OpBind([2], 2, 0, 0), OpFind(1, 0, ahead);
    AfterSnoc(2, none, a);
    AfterSnoc(2, none + [a], b);
    AfterSnoc(2, none + [a] + [b], c);
    assert none + [a] + [b] + [c] == [a, b, c];
    SmallLists();
    BindFresh(Empty(2), [1], 1, 0, 0);
    assert After(2, none + [a]) == Table(2, map[1 := Entry([1], 0)], [1], {1});
    BindFresh(After(2, none + [a]), [2], 2, 0, 0);
    assert After(2, none + [a] + [b]).order == [1, 2];
    assert Recency(2, none + [a]) == [1];
    assert Recency(2, none + [a] + [b]) == [1, 2];
    FindInPlace(After(2, none + [a] + [b]), ahead);
  }

  /** Two aliases bound at the same reading: the container may put the second in front, as it may
      when the element with the larger alias is the hint for the place of the new one. */
  lemma FreshTie()
    ensures var ops := [OpBind([1], 2, 0, 0), OpBind([2], 1, 0, 1)];
            SteadyRun(ops) && After(2, ops).order == [1, 2] && Recency(2, ops) == [2, 1]
  {
    hide Step, Touched, SteadyRun, OrderIsKeys, Place;
    var none: seq<Op>, a, b := [], OpBind([1], 2, 0, 0), OpBind([2], 1, 0, 1);
    AfterSnoc(2, none, a);
    AfterSnoc(2, none + [a], b);
    assert none + [a] + [b] == [a, b];
    SmallLists();
    BindFresh(Empty(2), [1], 2, 0, 0);
    var t := After(2, none + [a]);
    assert t == Table(2, map[2 := Entry([1], 0)], [2], {2});
    BindFresh(t, [2], 1, 0, 1);
    PlacedInFront(t.entries);
    assert Recency(2, none + [a]) == [2];
  }

  lemma PlacedInFront(entries: map<nat, Entry>)
    requires 2 in entries && entries[2].tp == 0
    ensures Linked(entries, [2], 1, 0, 1) == [1, 2]
  {
    assert Place(entries, [2], 0, 1) == 0;
  }

  lemma SmallLists()
    ensures SteadyRun([]) && Without([], 1) == Without([], 2) == []
    ensures Without([1], 2) == [1] && Without([2], 1) == [2] && Without([1, 2], 1) == [2]
  {
    assert [1, 2][1..] == [2] && [2][1..] == [] && [1][1..] == [];
  }

  lemma FindInPlace(t: Table, ahead: nat)
    requires OrderIsKeys(t)
    requires t.order == [1, 2] && t.entries == map[1 := Entry([1], 0), 2 := Entry([2], 0)]
    ensures Step(t, OpFind(1, 0, ahead)).order == [1, 2] && Touched(t, OpFind(1, 0, ahead)) == Some(1)
  {
  }

  /** A second alias for the same topic is refused: it is used, and not bound. */
  lemma RefusedStaysUsed()
    ensures var t := After(2, [OpBind([1], 1, 0, 0), OpBind([1], 2, 1, 0)]);
            t.used == {1, 2} && t.entries.Keys == {1} && !UsedEqualsBound(t)
  {
    hide Step, SteadyRun, OrderIsKeys, Place;
    var none: seq<Op>, a, b := [], OpBind([1], 1, 0, 0), OpBind([1], 2, 1, 0);
    AfterSnoc(2, none, a);
    AfterSnoc(2, none + [a], b);
    assert none + [a] + [b] == [a, b];
    BindFresh(Empty(2), [1], 1, 0, 0);
    assert Holds(After(2, none + [a]).entries, [1], 1);
    BindRefused(After(2, none + [a]), [1], 2, 1, 0);
    assert 2 in After(2, [a, b]).used;
  }

  lemma BindRefused(t: Table, topic: Topic, alias: nat, now: nat, ahead: nat)
    requires OrderIsKeys(t) && topic != [] && 1 <= alias <= t.max && alias !in t.entries
    requires exists a :: Holds(t.entries, topic, a)
    ensures Step(t, OpBind(topic, alias, now, ahead)) == t.(used := t.used + {alias})
    ensures Refused(t.entries, topic, alias)
  {
    var a :| Holds(t.entries, topic, a);
  }
}
