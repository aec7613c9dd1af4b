/**
  store.hpp: messages that wait for an acknowledgement, in three indexes over the same elements:
  by packet identifier, by packet identifier and expected packet type, and in order of insertion.
  insert_or_update moves its arguments into an emplace that may fail, and uses them again: `left`
  is what such a move leaves of a message and a life keeper.
*/
module Store {
  import opened Lists

  datatype Elem<M, K> = Elem(packetId: nat, expectedType: nat, message: M, lifeKeeper: K)

  datatype InsertUpdateResult = Inserted | Updated

  // ---------- the operations on the sequence ----------

  /** The position of the element with a packet identifier, or the number of elements. */
  function Position<M, K>(s: seq<Elem<M, K>>, id: nat): (k: nat)
    ensures k <= |s| && (k < |s| ==> s[k].packetId == id)
    ensures forall i :: 0 <= i < k ==> s[i].packetId != id
  {
    if s == [] then 0 else if s[0].packetId == id then 0 else 1 + Position(s[1..], id)
  }

  predicate Present<M, K>(s: seq<Elem<M, K>>, id: nat) {
    Position(s, id) < |s|
  }

  /** At most one element per packet identifier. */
  predicate Unique<M, K>(s: seq<Elem<M, K>>) {
    forall i, j :: 0 <= i < j < |s| ==> s[i].packetId != s[j].packetId
  }

  /** What a move leaves of a message and a life keeper. */
  type Residue<!M, !K> = (M, K) -> (M, K)

  /** The element with what is left of its content. */
  function Remains<M, K>(left: Residue<M, K>, e: Elem<M, K>): Elem<M, K> {
    var (m, k) := left(e.message, e.lifeKeeper);
    Elem(e.packetId, e.expectedType, m, k)
  }

  function Put<M, K>(left: Residue<M, K>, s: seq<Elem<M, K>>, e: Elem<M, K>): seq<Elem<M, K>> {
    var k := Position(s, e.packetId);
    if k < |s| then s[k := Remains(left, e)] else s + [e]
  }

  function Removed<M, K>(s: seq<Elem<M, K>>, id: nat): seq<Elem<M, K>> {
    var k := Position(s, id);
    if k < |s| then s[..k] + s[k + 1..] else s
  }

  /** for_each with a predicate that may carry state `st`: what is kept, and the final state. */
  function Sweep<M, K, S>(f: (S, M, K) -> (bool, S), st: S, s: seq<Elem<M, K>>): (seq<Elem<M, K>>, S) {
    if s == [] then ([], st)
    else
      var (erase, st1) := f(st, s[0].message, s[0].lifeKeeper);
      var (kept, st2) := Sweep(f, st1, s[1..]);
      ((if erase then [] else [s[0]]) + kept, st2)
  }

  function Joined<M, K, S>(kept: seq<Elem<M, K>>, rest: (seq<Elem<M, K>>, S)): (seq<Elem<M, K>>, S) {
    (kept + rest.0, rest.1)
  }

  lemma SweepStep<M, K, S>(f: (S, M, K) -> (bool, S), st: S, s: seq<Elem<M, K>>, it: nat)
    requires it < |s|
    ensures var (erase, next) := f(st, s[it].message, s[it].lifeKeeper);
            Joined(s[..it], Sweep(f, st, s[it..])) ==
              Joined(if erase then s[..it] else s[..it + 1], Sweep(f, next, s[it + 1..]))
  {
    var (erase, next) := f(st, s[it].message, s[it].lifeKeeper);
    var rest := Sweep(f, next, s[it + 1..]);
    assert s[it..][1..] == s[it + 1..];
    assert s[..it] + ([] + rest.0) == s[..it] + rest.0;
    assert s[..it] + ([s[it]] + rest.0) == s[..it + 1] + rest.0;
  }

  // ---------- the three indexes ----------

  /** The map holds exactly the elements of the sequence, each under its packet identifier. */
  ghost predicate Represents<M, K>(s: seq<Elem<M, K>>, m: map<nat, Elem<M, K>>) {
    && Unique(s)
    && (forall i :: 0 <= i < |s| ==> s[i].packetId in m && m[s[i].packetId] == s[i])
    && (forall id :: id in m ==> m[id] in s && m[id].packetId == id)
  }

  /** The index by identifier and type holds the elements of the index by identifier. */
  ghost predicate TypeIndexed<M, K>(m: map<nat, Elem<M, K>>, byIdType: map<(nat, nat), Elem<M, K>>) {
    && (forall id :: id in m ==> (id, m[id].expectedType) in byIdType && byIdType[(id, m[id].expectedType)] == m[id])
    && (forall key :: key in byIdType ==> key.0 in m && m[key.0].expectedType == key.1)
  }

  lemma PresentIsMapped<M, K>(s: seq<Elem<M, K>>, m: map<nat, Elem<M, K>>, id: nat)
    requires Represents(s, m)
    ensures Present(s, id) <==> id in m
    ensures Present(s, id) ==> m[id] == s[Position(s, id)]
  {
    hide Position;
    if id in m {
      var i :| 0 <= i < |s| && s[i] == m[id];
    }
  }

  lemma AppendRepresents<M, K>(s: seq<Elem<M, K>>, m: map<nat, Elem<M, K>>, e: Elem<M, K>)
    requires Represents(s, m) && e.packetId !in m
    ensures Represents(s + [e], m[e.packetId := e])
  {
    var s' := s + [e];
    assert s'[|s|] == e;
    assert forall i :: 0 <= i < |s| ==> s'[i] == s[i];
  }

  lemma ModifyRepresents<M, K>(s: seq<Elem<M, K>>, m: map<nat, Elem<M, K>>, e: Elem<M, K>)
    requires Represents(s, m) && Present(s, e.packetId)
    ensures Represents(s[Position(s, e.packetId) := e], m[e.packetId := e])
  {
    hide Position;
    var k := Position(s, e.packetId);
    var s', m' := s[k := e], m[e.packetId := e];
    assert s'[k] == e;
    forall id | id in m' ensures m'[id] in s' && m'[id].packetId == id {
      if id != e.packetId {
        var i :| 0 <= i < |s| && s[i] == m[id];
        assert s'[i] == m[id];
      }
    }
  }

  lemma RemoveRepresents<M, K>(s: seq<Elem<M, K>>, m: map<nat, Elem<M, K>>, k: nat)
    requires Represents(s, m) && k < |s|
    ensures Represents(s[..k] + s[k + 1..], m - {s[k].packetId})
  {
    var s', m' := s[..k] + s[k + 1..], m - {s[k].packetId};
    RemovedAt(s, k);
    forall id | id in m' ensures m'[id] in s' && m'[id].packetId == id {
      var i :| 0 <= i < |s| && s[i] == m[id];
      assert s'[if i < k then i else i - 1] == m[id];
    }
  }

  /** What is left is another element each, in order. */
  lemma RemovedAt<M, K>(s: seq<Elem<M, K>>, k: nat)
    requires Unique(s) && k < |s|
    ensures var s' := s[..k] + s[k + 1..];
            && Unique(s')
            && (forall i :: 0 <= i < |s'| ==> s'[i] == s[if i < k then i else i + 1])
            && (forall i :: 0 <= i < |s'| ==> s'[i].packetId != s[k].packetId)
  {
  }

  lemma PutRepresents<M, K>(left: Residue<M, K>, s: seq<Elem<M, K>>, m: map<nat, Elem<M, K>>, e: Elem<M, K>)
    requires Represents(s, m)
    ensures Represents(Put(left, s, e), MapPut(left, m, e))
  {
    hide Represents, Position;
    PresentIsMapped(s, m, e.packetId);
    if Present(s, e.packetId) {
      ModifyRepresents(s, m, Remains(left, e));
    } else {
      AppendRepresents(s, m, e);
    }
  }

  /** Inserting or modifying: the old key of the element makes room for the new one. */
  lemma TypeIndexedPut<M, K>(m: map<nat, Elem<M, K>>, byIdType: map<(nat, nat), Elem<M, K>>, e: Elem<M, K>)
    requires TypeIndexed(m, byIdType)
    ensures var rest := if e.packetId in m then byIdType - {(e.packetId, m[e.packetId].expectedType)} else byIdType;
            TypeIndexed(m[e.packetId := e], rest[(e.packetId, e.expectedType) := e])
  {
  }

  lemma TypeIndexedRemove<M, K>(m: map<nat, Elem<M, K>>, byIdType: map<(nat, nat), Elem<M, K>>, id: nat)
    requires TypeIndexed(m, byIdType) && id in m
    ensures TypeIndexed(m - {id}, byIdType - {(id, m[id].expectedType)})
  {
  }

  /** The key that a modified element gets is never another element's: the modify cannot collide. */
  lemma ModifyNeverCollides<M, K>(m: map<nat, Elem<M, K>>, byIdType: map<(nat, nat), Elem<M, K>>, e: Elem<M, K>)
    requires TypeIndexed(m, byIdType) && e.packetId in m
    ensures (e.packetId, e.expectedType) in byIdType ==>
              byIdType[(e.packetId, e.expectedType)] == m[e.packetId] && m[e.packetId].expectedType == e.expectedType
  {
  }

  class Store<M, K> {
    var sequence: seq<Elem<M, K>>                 // tag_seq
    var byId: map<nat, Elem<M, K>>                // tag_packet_id
    var byIdType: map<(nat, nat), Elem<M, K>>     // tag_packet_id_type

    ghost predicate Valid()
      reads this
    {
      Represents(sequence, byId) && TypeIndexed(byId, byIdType)
    }

    constructor ()
      ensures Valid() && sequence == []
    {
      sequence, byId, byIdType := [], map[], map[];
    }

    /** multi_index emplace: nothing happens if a unique index already has the key; the
        element that is in the way is then found by its packet identifier. */
    method Emplace(e: Elem<M, K>) returns (ok: bool)
      requires Valid()
      modifies this
      ensures Valid()
      ensures ok <==> !Present(old(sequence), e.packetId)
      ensures sequence == if ok then old(sequence) + [e] else old(sequence)
    {
      hide Represents, Position;
      PresentIsMapped(sequence, byId, e.packetId);
      if (e.packetId, e.expectedType) in byIdType || e.packetId in byId { return false; }
      AppendRepresents(sequence, byId, e);
      TypeIndexedPut(byId, byIdType, e);
      sequence := sequence + [e];
      byId := byId[e.packetId := e];
      byIdType := byIdType[(e.packetId, e.expectedType) := e];
      ok := true;
    }

    method Insert(packetId: nat, expectedType: nat, smv: M, lifeKeeper: K) returns (ok: bool)
      requires Valid()
      modifies this
      ensures Valid()
      ensures ok <==> !Present(old(sequence), packetId)
      ensures sequence == if ok then old(sequence) + [Elem(packetId, expectedType, smv, lifeKeeper)] else old(sequence)
    {
      ok := Emplace(Elem(packetId, expectedType, smv, lifeKeeper));
    }

    /** The position in the sequence of the element that an index refers to. */
    method Iterator(id: nat) returns (k: nat)
      ensures k == Position(sequence, id)
    {
      k := 0;
      while k < |sequence| && sequence[k].packetId != id
        invariant k <= |sequence|
        invariant Position(sequence, id) == k + Position(sequence[k..], id)
      {
        k := k + 1;
      }
    }

    method InsertOrUpdate(left: Residue<M, K>, packetId: nat, expectedType: nat, smv: M, lifeKeeper: K)
      returns (r: InsertUpdateResult)
      requires Valid()
      modifies this
      ensures Valid()
      ensures r.Updated? <==> Present(old(sequence), packetId)
      ensures sequence == Put(left, old(sequence), Elem(packetId, expectedType, smv, lifeKeeper))
    {
      var ok := Emplace(Elem(packetId, expectedType, smv, lifeKeeper));
      if ok { return Inserted; }
      // The arguments have been moved from.
      var (smv', lifeKeeper') := left(smv, lifeKeeper);
      Modify(Elem(packetId, expectedType, smv', lifeKeeper'));
      r := Updated;
    }

    /** multi_index modify of the element with the packet identifier of `e`. */
    method Modify(e: Elem<M, K>)
      requires Valid() && Present(sequence, e.packetId)
      modifies this
      ensures Valid() && sequence == old(sequence)[Position(old(sequence), e.packetId) := e]
    {
      hide Represents, TypeIndexed, Position;
      var k := Iterator(e.packetId);
      PresentIsMapped(sequence, byId, e.packetId);
      ModifyRepresents(sequence, byId, e);
      ModifyNeverCollides(byId, byIdType, e);
      TypeIndexedPut(byId, byIdType, e);
      var before := sequence[k].expectedType;
      sequence := sequence[k := e];
      byId := byId[e.packetId := e];
      byIdType := (byIdType - {(e.packetId, before)})[(e.packetId, e.expectedType) := e];
    }

    /** Erases the element at a position of the sequence. */
    method EraseAt(k: nat)
      requires Valid() && k < |sequence|
      modifies this
      ensures Valid() && sequence == old(sequence)[..k] + old(sequence)[k + 1..]
    {
      var e := sequence[k];
      RemoveRepresents(sequence, byId, k);
      TypeIndexedRemove(byId, byIdType, e.packetId);
      sequence := sequence[..k] + sequence[k + 1..];
      byId := byId - {e.packetId};
      byIdType := byIdType - {(e.packetId, e.expectedType)};
    }

    /** The predicate sees every element once, in order, whatever has been erased before. */
    method ForEach<S>(f: (S, M, K) -> (bool, S), start: S) returns (st: S)
      requires Valid()
      modifies this
      ensures Valid()
      ensures (sequence, st) == Sweep(f, start, old(sequence))
    {
      hide Represents, TypeIndexed;
      st := start;
      var it := 0;
      ghost var all := Sweep(f, start, sequence);
      assert [] + all.0 == all.0;
      while it != |sequence|
        invariant it <= |sequence| && Valid()
        invariant Sweep(f, start, old(sequence)) == Joined(sequence[..it], Sweep(f, st, sequence[it..]))
        decreases |sequence| - it
      {
        SweepStep(f, st, sequence, it);
        var (erase, next) := f(st, sequence[it].message, sequence[it].lifeKeeper);
        st := next;
        if erase {
          ghost var before := sequence;
          EraseAt(it);
          assert sequence[it..] == before[it + 1..] && sequence[..it] == before[..it];
        } else {
          it := it + 1;
        }
      }
      assert sequence[..it] + [] == sequence;
    }

    method EraseId(packetId: nat) returns (count: nat)
      requires Valid()
      modifies this
      ensures Valid() && sequence == Removed(old(sequence), packetId)
      ensures count == if Present(old(sequence), packetId) then 1 else 0
    {
      hide Represents, Position;
      PresentIsMapped(sequence, byId, packetId);
      if packetId !in byId { return 0; }
      var k := Iterator(packetId);
      EraseAt(k);
      count := 1;
    }

    method EraseIdType(packetId: nat, packetType: nat) returns (erased: bool)
      requires Valid()
      modifies this
      ensures Valid()
      ensures erased <==> Present(old(sequence), packetId)
                          && old(sequence)[Position(old(sequence), packetId)].expectedType == packetType
      ensures sequence == if erased then Removed(old(sequence), packetId) else old(sequence)
    {
      hide Represents, Position;
      PresentIsMapped(sequence, byId, packetId);
      if (packetId, packetType) !in byIdType { return false; }
      var k := Iterator(packetId);
      EraseAt(k);
      erased := true;
    }

    method Clear()
      modifies this
      ensures Valid() && sequence == []
    {
      sequence, byId, byIdType := [], map[], map[];
    }

    method Empty() returns (empty: bool)
      requires Valid()
      ensures empty <==> sequence == []
    {
      empty := |sequence| == 0;
    }
  }

  // ---------- for_each ----------

  function Filter<M, K>(keep: (M, K) -> bool, s: seq<Elem<M, K>>): seq<Elem<M, K>> {
    if s == [] then []
    else (if keep(s[0].message, s[0].lifeKeeper) then [s[0]] else []) + Filter(keep, s[1..])
  }

  function Kept<M, K>(erase: (M, K) -> bool): (M, K) -> bool {
    (m: M, k: K) => !erase(m, k)
  }

  function Visited<M, K>(s: seq<Elem<M, K>>): seq<(M, K)> {
    seq(|s|, i requires 0 <= i < |s| => (s[i].message, s[i].lifeKeeper))
  }

  /** A predicate that also writes down what it was called with. */
  function Logging<M, K, S>(f: (S, M, K) -> (bool, S))
    : ((seq<(M, K)>, S), M, K) -> (bool, (seq<(M, K)>, S))
  {
    (st: (seq<(M, K)>, S), m: M, k: K) =>
      var (erase, next) := f(st.1, m, k);
      (erase, (st.0 + [(m, k)], next))
  }

  /** The verdict on each element, with the state that the calls before it have left. */
  function Verdicts<M, K, S>(f: (S, M, K) -> (bool, S), st: S, s: seq<Elem<M, K>>): (v: seq<bool>)
    ensures |v| == |s|
  {
    if s == [] then []
    else
      var (erase, next) := f(st, s[0].message, s[0].lifeKeeper);
      [erase] + Verdicts(f, next, s[1..])
  }

  function Spared<M, K>(verdicts: seq<bool>, s: seq<Elem<M, K>>): seq<Elem<M, K>>
    requires |verdicts| == |s|
  {
    if s == [] then [] else (if verdicts[0] then [] else [s[0]]) + Spared(verdicts[1..], s[1..])
  }

  /** The elements that the predicate does not ask to erase are left, in order. */
  lemma {:induction false} SweepSpares<M, K, S>(f: (S, M, K) -> (bool, S), st: S, s: seq<Elem<M, K>>)
    ensures Sweep(f, st, s).0 == Spared(Verdicts(f, st, s), s)
    decreases |s|
  {
    if s != [] {
      var (erase, next) := f(st, s[0].message, s[0].lifeKeeper);
      SweepSpares(f, next, s[1..]);
      assert Verdicts(f, st, s)[1..] == Verdicts(f, next, s[1..]);
    }
  }

  lemma VisitedCons<M, K>(log: seq<(M, K)>, s: seq<Elem<M, K>>)
    requires s != []
    ensures log + Visited(s) == log + [(s[0].message, s[0].lifeKeeper)] + Visited(s[1..])
  {
    assert Visited(s) == [(s[0].message, s[0].lifeKeeper)] + Visited(s[1..]);
  }

  /** The predicate, which may carry state, is called exactly once on each element, in order. */
  lemma {:induction false} SweepVisitsOnce<M, K, S>(f: (S, M, K) -> (bool, S), log: seq<(M, K)>, st: S,
                                                    s: seq<Elem<M, K>>)
    ensures Sweep(Logging(f), (log, st), s) == (Sweep(f, st, s).0, (log + Visited(s), Sweep(f, st, s).1))
    decreases |s|
  {
    if s == [] {
      assert log + Visited(s) == log;
    } else {
      hide Visited;
      var call := (s[0].message, s[0].lifeKeeper);
      var (erase, next) := f(st, call.0, call.1);
      SweepVisitsOnce(f, log + [call], next, s[1..]);
      VisitedCons(log, s);
    }
  }

  /** Without state, what is left is what the predicate rejects for erasure. */
  lemma {:induction false} SweepIsFilter<M, K>(erase: (M, K) -> bool, s: seq<Elem<M, K>>)
    ensures Sweep((st: (), m: M, k: K) => (erase(m, k), st), (), s).0 == Filter(Kept(erase), s)
    decreases |s|
  {
    if s != [] { SweepIsFilter(erase, s[1..]); }
  }

  /** An element is left exactly if its call did not ask to erase it. */
  lemma {:induction false} FilterElements<M, K>(erase: (M, K) -> bool, s: seq<Elem<M, K>>, e: Elem<M, K>)
    ensures e in Filter(Kept(erase), s) <==> e in s && !erase(e.message, e.lifeKeeper)
    decreases |s|
  {
    if s != [] {
      FilterElements(erase, s[1..], e);
      assert s == [s[0]] + s[1..];
    }
  }

  // ---------- runs ----------

  datatype Op<!M, !K, !S> =
    | OpInsert(elem: Elem<M, K>)
    | OpPut(elem: Elem<M, K>)
    | OpErase(id: nat)
    | OpEraseType(id: nat, packetType: nat)
    | OpForEach(f: (S, M, K) -> (bool, S), start: S)
    | OpClear

  function Step<M, K, S>(left: Residue<M, K>, s: seq<Elem<M, K>>, op: Op<M, K, S>): seq<Elem<M, K>> {
    match op
    case OpInsert(e) => if Present(s, e.packetId) then s else s + [e]
    case OpPut(e) => Put(left, s, e)
    case OpErase(id) => Removed(s, id)
    case OpEraseType(id, t) =>
      if Present(s, id) && s[Position(s, id)].expectedType == t then Removed(s, id) else s
    case OpForEach(f, start) => Sweep(f, start, s).0
    case OpClear => []
  }

  function After<M, K, S>(left: Residue<M, K>, ops: seq<Op<M, K, S>>): seq<Elem<M, K>> {
    if ops == [] then [] else Step(left, After(left, ops[..|ops| - 1]), ops[|ops| - 1])
  }

  // ---------- the same operations on an insertion-ordered map ----------

  /** The identifiers in order of insertion, and what is stored under each of them. */
  datatype Ordered<M, K> = Ordered(ids: seq<nat>, content: map<nat, Elem<M, K>>)

  function MapPut<M, K>(left: Residue<M, K>, m: map<nat, Elem<M, K>>, e: Elem<M, K>): map<nat, Elem<M, K>> {
    m[e.packetId := if e.packetId in m then Remains(left, e) else e]
  }

  ghost function Erased<M, K>(o: Ordered<M, K>, id: nat): Ordered<M, K> {
    Ordered(Without(o.ids, id), o.content - {id})
  }

  /** The identifiers whose content the predicate, called in order, does not ask to erase. */
  function SweepIds<M, K, S>(f: (S, M, K) -> (bool, S), st: S, ids: seq<nat>, m: map<nat, Elem<M, K>>): seq<nat> {
    if ids == [] || ids[0] !in m then []
    else
      var (erase, next) := f(st, m[ids[0]].message, m[ids[0]].lifeKeeper);
      (if erase then [] else [ids[0]]) + SweepIds(f, next, ids[1..], m)
  }

  ghost function Restricted<M, K>(ids: seq<nat>, m: map<nat, Elem<M, K>>): Ordered<M, K> {
    Ordered(ids, map id | id in m && id in ids :: m[id])
  }

  ghost function OrderedStep<M, K, S>(left: Residue<M, K>, o: Ordered<M, K>, op: Op<M, K, S>): Ordered<M, K> {
    match op
    case OpInsert(e) =>
      if e.packetId in o.content then o else Ordered(o.ids + [e.packetId], o.content[e.packetId := e])
    case OpPut(e) =>
      Ordered(if e.packetId in o.content then o.ids else o.ids + [e.packetId], MapPut(left, o.content, e))
    case OpErase(id) => Erased(o, id)
    case OpEraseType(id, t) => if id in o.content && o.content[id].expectedType == t then Erased(o, id) else o
    case OpForEach(f, start) => Restricted(SweepIds(f, start, o.ids, o.content), o.content)
    case OpClear => Ordered([], map[])
  }

  ghost function OrderedAfter<M, K, S>(left: Residue<M, K>, ops: seq<Op<M, K, S>>): Ordered<M, K> {
    if ops == [] then Ordered([], map[])
    else OrderedStep(left, OrderedAfter(left, ops[..|ops| - 1]), ops[|ops| - 1])
  }

  function Ids<M, K>(s: seq<Elem<M, K>>): seq<nat> {
    seq(|s|, i requires 0 <= i < |s| => s[i].packetId)
  }

  /** The sequence holds the content of the map in the order of the map. */
  ghost predicate Refines<M, K>(s: seq<Elem<M, K>>, o: Ordered<M, K>) {
    Represents(s, o.content) && o.ids == Ids(s)
  }

  lemma IdsOfAppended<M, K>(s: seq<Elem<M, K>>, e: Elem<M, K>)
    ensures Ids(s + [e]) == Ids(s) + [e.packetId]
  {
  }

  lemma IdsOfModified<M, K>(s: seq<Elem<M, K>>, k: nat, e: Elem<M, K>)
    requires k < |s| && s[k].packetId == e.packetId
    ensures Ids(s[k := e]) == Ids(s)
  {
  }

  lemma IdsOfRemoved<M, K>(s: seq<Elem<M, K>>, k: nat)
    requires Unique(s) && k < |s|
    ensures Ids(s[..k] + s[k + 1..]) == Without(Ids(s), s[k].packetId)
  {
    var ids := Ids(s);
    assert Distinct(ids);
    WithoutPresent(ids, k);
    hide Without;
    assert Ids(s[..k] + s[k + 1..]) == Dropped(ids, k);
  }

  lemma IdsAbsent<M, K>(s: seq<Elem<M, K>>, id: nat)
    requires !Present(s, id)
    ensures Without(Ids(s), id) == Ids(s)
  {
    WithoutAbsent(Ids(s), id);
  }

  // ---------- what for_each leaves ----------

  lemma {:induction false} SweepElement<M, K, S>(f: (S, M, K) -> (bool, S), st: S, s: seq<Elem<M, K>>, i: nat)
    requires i < |Sweep(f, st, s).0|
    ensures Sweep(f, st, s).0[i] in s
    decreases |s|
  {
    var (erase, next) := f(st, s[0].message, s[0].lifeKeeper);
    var tail := Sweep(f, next, s[1..]).0;
    if erase {
      assert Sweep(f, st, s).0 == [] + tail == tail;
      SweepElement(f, next, s[1..], i);
    } else if i > 0 {
      SweepElement(f, next, s[1..], i - 1);
    }
  }

  lemma UniqueTail<M, K>(s: seq<Elem<M, K>>)
    requires Unique(s) && s != []
    ensures Unique(s[1..])
  {
  }

  /** Position skips a head with another identifier. */
  lemma PositionInTail<M, K>(s: seq<Elem<M, K>>, e: Elem<M, K>)
    requires Unique(s) && s != [] && e in s[1..]
    ensures e.packetId != s[0].packetId && Position(s, e.packetId) == 1 + Position(s[1..], e.packetId)
    ensures Position(s, s[0].packetId) == 0
  {
    var i :| 0 <= i < |s[1..]| && s[1..][i] == e;
    assert s[i + 1] == e;
  }

  /** What is left is in the order in which it was. */
  lemma {:induction false} SweepKeepsOrder<M, K, S>(f: (S, M, K) -> (bool, S), st: S, s: seq<Elem<M, K>>,
                                                    i: nat, j: nat)
    requires Unique(s) && i < j < |Sweep(f, st, s).0|
    ensures Position(s, Sweep(f, st, s).0[i].packetId) < Position(s, Sweep(f, st, s).0[j].packetId)
    decreases |s|
  {
    UniqueTail(s);
    hide Unique, Position;
    var (erase, next) := f(st, s[0].message, s[0].lifeKeeper);
    var r, t := Sweep(f, st, s).0, Sweep(f, next, s[1..]).0;
    assert r == (if erase then [] else [s[0]]) + t;
    hide Sweep;
    var d := if erase then 0 else 1;
    SweepElement(f, next, s[1..], j - d);
    PositionInTail(s, r[j]);
    if i >= d {
      SweepElement(f, next, s[1..], i - d);
      PositionInTail(s, r[i]);
      SweepKeepsOrder(f, next, s[1..], i - d, j - d);
    }
  }

  lemma SweepIsUnique<M, K, S>(f: (S, M, K) -> (bool, S), st: S, s: seq<Elem<M, K>>)
    requires Unique(s)
    ensures Unique(Sweep(f, st, s).0)
  {
    var r := Sweep(f, st, s).0;
    forall i, j | 0 <= i < j < |r| ensures r[i].packetId != r[j].packetId {
      SweepKeepsOrder(f, st, s, i, j);
    }
  }

  lemma {:induction false} IdsOfSwept<M, K, S>(f: (S, M, K) -> (bool, S), st: S, s: seq<Elem<M, K>>,
                                               m: map<nat, Elem<M, K>>)
    requires forall i :: 0 <= i < |s| ==> s[i].packetId in m && m[s[i].packetId] == s[i]
    ensures Ids(Sweep(f, st, s).0) == SweepIds(f, st, Ids(s), m)
    decreases |s|
  {
    if s != [] {
      var (erase, next) := f(st, s[0].message, s[0].lifeKeeper);
      IdsOfSwept(f, next, s[1..], m);
      assert Ids(s)[0] == s[0].packetId && Ids(s)[1..] == Ids(s[1..]);
      var tail := Sweep(f, next, s[1..]).0;
      assert Ids([s[0]] + tail) == [s[0].packetId] + Ids(tail);
      assert [] + tail == tail && [] + Ids(tail) == Ids(tail);
    }
  }

  lemma SweepRefines<M, K, S>(f: (S, M, K) -> (bool, S), st: S, s: seq<Elem<M, K>>, o: Ordered<M, K>)
    requires Refines(s, o)
    ensures Refines(Sweep(f, st, s).0, Restricted(SweepIds(f, st, o.ids, o.content), o.content))
  {
    var r := Sweep(f, st, s).0;
    IdsOfSwept(f, st, s, o.content);
    SweepIsUnique(f, st, s);
    hide Sweep, SweepIds;
    forall i | 0 <= i < |r| ensures r[i] in s {
      SweepElement(f, st, s, i);
    }
    SubsetRefines(s, r, o.content);
  }

  lemma SubsetRefines<M, K>(s: seq<Elem<M, K>>, r: seq<Elem<M, K>>, m: map<nat, Elem<M, K>>)
    requires Represents(s, m) && Unique(r) && forall i :: 0 <= i < |r| ==> r[i] in s
    ensures Refines(r, Restricted(Ids(r), m))
  {
    var m' := Restricted(Ids(r), m).content;
    forall i | 0 <= i < |r| ensures r[i].packetId in m' && m'[r[i].packetId] == r[i] {
      assert Ids(r)[i] == r[i].packetId;
    }
    forall id | id in m' ensures m'[id] in r && m'[id].packetId == id {
      var i :| 0 <= i < |r| && Ids(r)[i] == id;
    }
  }

  // ---------- refinement ----------

  lemma PutRefines<M, K>(left: Residue<M, K>, s: seq<Elem<M, K>>, o: Ordered<M, K>, e: Elem<M, K>)
    requires Refines(s, o)
    ensures Refines(Put(left, s, e),
                    Ordered(if e.packetId in o.content then o.ids else o.ids + [e.packetId],
                            MapPut(left, o.content, e)))
  {
    hide Represents, Position;
    PresentIsMapped(s, o.content, e.packetId);
    PutRepresents(left, s, o.content, e);
    if Present(s, e.packetId) {
      IdsOfModified(s, Position(s, e.packetId), Remains(left, e));
    } else {
      IdsOfAppended(s, e);
    }
  }

  lemma EraseRefines<M, K>(s: seq<Elem<M, K>>, o: Ordered<M, K>, id: nat)
    requires Refines(s, o)
    ensures Refines(Removed(s, id), Erased(o, id))
  {
    hide Represents, Position, Erased;
    PresentIsMapped(s, o.content, id);
    if Present(s, id) {
      ErasePresent(s, o, Position(s, id));
    } else {
      EraseAbsent(s, o, id);
    }
  }

  lemma EraseAbsent<M, K>(s: seq<Elem<M, K>>, o: Ordered<M, K>, id: nat)
    requires o.ids == Ids(s) && !Present(s, id) && id !in o.content
    ensures Erased(o, id) == o
  {
    hide Without, Ids;
    IdsAbsent(s, id);
    assert o.content - {id} == o.content;
  }

  lemma ErasePresent<M, K>(s: seq<Elem<M, K>>, o: Ordered<M, K>, k: nat)
    requires Refines(s, o) && k < |s|
    ensures Refines(s[..k] + s[k + 1..], Erased(o, s[k].packetId))
  {
    RemoveRepresents(s, o.content, k);
    IdsOfRemoved(s, k);
    hide Represents, Without, Ids;
  }

  lemma EmptyRefines<M, K>()
    ensures Refines<M, K>([], Ordered([], map[]))
  {
  }

  /** Every operation does to the sequence what it does to the insertion-ordered map. */
  lemma StepRefines<M, K, S>(left: Residue<M, K>, s: seq<Elem<M, K>>, o: Ordered<M, K>, op: Op<M, K, S>)
    requires Refines(s, o)
    ensures Refines(Step(left, s, op), OrderedStep(left, o, op))
  {
    hide Represents, Position, Ids, Put, MapPut, Removed, Erased, Sweep, SweepIds, Restricted;
    match op
    case OpInsert(e) =>
      PresentIsMapped(s, o.content, e.packetId);
      if !Present(s, e.packetId) {
        AppendRepresents(s, o.content, e);
        IdsOfAppended(s, e);
      }
    case OpPut(e) => PutRefines(left, s, o, e);
    case OpErase(id) => EraseRefines(s, o, id);
    case OpEraseType(id, t) =>
      PresentIsMapped(s, o.content, id);
      EraseRefines(s, o, id);
    case OpForEach(f, start) => SweepRefines(f, start, s, o);
    case OpClear => EmptyRefines<M, K>();
  }

  /** Refinement over every run: the store holds exactly what an insertion-ordered map would hold
      after the same operations, in its order, whatever a move leaves. */
  lemma {:induction false} RunRefinesMap<M, K, S>(left: Residue<M, K>, ops: seq<Op<M, K, S>>)
    ensures Refines(After(left, ops), OrderedAfter(left, ops))
    decreases |ops|
  {
    if ops == [] {
      EmptyRefines<M, K>();
    } else {
      var init := ops[..|ops| - 1];
      RunRefinesMap(left, init);
      StepRefines(left, After(left, init), OrderedAfter(left, init), ops[|ops| - 1]);
    }
  }

  // ---------- what an update stores ----------

  /** A copy: a move that leaves everything in place. */
  function Intact<M, K>(): Residue<M, K> {
    (m: M, k: K) => (m, k)
  }

  /** No update of the run meets a present identifier with arguments that a move changes. */
  ghost predicate NothingLost<M, K, S>(left: Residue<M, K>, ops: seq<Op<M, K, S>>) {
    if ops == [] then true
    else
      var init, op := ops[..|ops| - 1], ops[|ops| - 1];
      NothingLost(left, init) && !LosesContent(left, OrderedAfter(Intact(), init), op)
  }

  ghost predicate LosesContent<M, K, S>(left: Residue<M, K>, o: Ordered<M, K>, op: Op<M, K, S>) {
    op.OpPut? && op.elem.packetId in o.content && Remains(left, op.elem) != op.elem
  }

  /** The store holds what was given to it. */
  ghost predicate Faithful<M, K, S>(left: Residue<M, K>, ops: seq<Op<M, K, S>>) {
    OrderedAfter(left, ops) == OrderedAfter(Intact(), ops)
  }

  lemma StepIsFaithful<M, K, S>(left: Residue<M, K>, o: Ordered<M, K>, op: Op<M, K, S>)
    ensures OrderedStep(left, o, op) == OrderedStep(Intact(), o, op) <==> !LosesContent(left, o, op)
  {
    if op.OpPut? && op.elem.packetId in o.content {
      assert OrderedStep(left, o, op).content[op.elem.packetId] == Remains(left, op.elem);
      assert OrderedStep(Intact(), o, op).content[op.elem.packetId] == op.elem;
    }
  }

  /** Throughout a run the store holds the content that it was given exactly when nothing is lost:
      when no update meets a present identifier with arguments that the first move has changed. */
  lemma {:induction false} ContentIffNothingLost<M, K, S>(left: Residue<M, K>, ops: seq<Op<M, K, S>>)
    ensures (forall k :: 0 <= k <= |ops| ==> Faithful(left, ops[..k])) <==> NothingLost(left, ops)
    decreases |ops|
  {
    hide OrderedStep, LosesContent;
    if ops == [] {
      assert ops[..0] == [];
    } else {
      var init, op := ops[..|ops| - 1], ops[|ops| - 1];
      ContentIffNothingLost(left, init);
      Prefixes(ops);
      if Faithful(left, init) { StepIsFaithful(left, OrderedAfter(left, init), op); }
    }
  }

  lemma Prefixes<M, K, S>(ops: seq<Op<M, K, S>>)
    requires ops != []
    ensures var init := ops[..|ops| - 1];
            ops[..|ops|] == ops && ops[..|init|] == init && forall k :: 0 <= k <= |init| ==> ops[..k] == init[..k]
  {
  }

  /** The same identifiers in the same order with the same expected types, and the content of `o` is
      that of `p` or what a move leaves of it. */
  ghost predicate SameIndexes<M, K>(left: Residue<M, K>, o: Ordered<M, K>, p: Ordered<M, K>) {
    && o.ids == p.ids && (forall id :: id in o.content <==> id in p.content)
    && (forall id :: id in o.content ==>
          o.content[id] == p.content[id] || o.content[id] == Remains(left, p.content[id]))
  }

  /** The predicate does not tell a message from what a move leaves of it. */
  ghost predicate Blind<M(!new), K(!new), S(!new)>(left: Residue<M, K>, f: (S, M, K) -> (bool, S)) {
    forall st, m, k :: f(st, left(m, k).0, left(m, k).1) == f(st, m, k)
  }

  lemma {:induction false} BlindSweeps<M(!new), K(!new), S(!new)>(
      left: Residue<M, K>, f: (S, M, K) -> (bool, S), st: S, ids: seq<nat>, o: Ordered<M, K>, p: Ordered<M, K>)
    requires SameIndexes(left, o, p) && Blind(left, f)
    ensures SweepIds(f, st, ids, o.content) == SweepIds(f, st, ids, p.content)
    decreases |ids|
  {
    if ids != [] && ids[0] in p.content {
      var e := p.content[ids[0]];
      BlindSweeps(left, f, f(st, e.message, e.lifeKeeper).1, ids[1..], o, p);
    }
  }

  lemma StepKeepsIndexes<M(!new), K(!new), S(!new)>(left: Residue<M, K>, o: Ordered<M, K>, p: Ordered<M, K>,
                                                    op: Op<M, K, S>)
    requires SameIndexes(left, o, p) && (op.OpForEach? ==> Blind(left, op.f))
    ensures SameIndexes(left, OrderedStep(left, o, op), OrderedStep(Intact(), p, op))
  {
    hide Without, SweepIds;
    if op.OpForEach? { BlindSweeps(left, op.f, op.start, o.ids, o, p); }
  }

  /** Identifiers, types and order are right in any case, as long as no for_each tells a message
      from what a move leaves of it. */
  lemma {:induction false} IndexesSurvive<M(!new), K(!new), S(!new)>(left: Residue<M, K>, ops: seq<Op<M, K, S>>)
    requires forall i :: 0 <= i < |ops| && ops[i].OpForEach? ==> Blind(left, ops[i].f)
    ensures SameIndexes(left, OrderedAfter(left, ops), OrderedAfter(Intact(), ops))
    decreases |ops|
  {
    if ops != [] {
      hide SameIndexes, Blind, OrderedStep;
      var init, op := ops[..|ops| - 1], ops[|ops| - 1];
      assert forall i :: 0 <= i < |init| ==> init[i] == ops[i];
      IndexesSurvive(left, init);
      StepKeepsIndexes(left, OrderedAfter(left, init), OrderedAfter(Intact(), init), op);
    } else {
      assert SameIndexes(left, Ordered([], map[]), Ordered([], map[]));
    }
  }

  lemma AfterSnoc<M, K, S>(left: Residue<M, K>, init: seq<Op<M, K, S>>, op: Op<M, K, S>)
    ensures After(left, init + [op]) == Step(left, After(left, init), op)
    ensures OrderedAfter(left, init + [op]) == OrderedStep(left, OrderedAfter(left, init), op)
  {
    assert (init + [op])[..|init|] == init;
  }

  /** A move leaves an empty container: after an update the store holds an empty message. */
  lemma UpdateLosesContent()
    ensures var left: Residue<seq<int>, int> := (m, k) => ([], k);
            var ops: seq<Op<seq<int>, int, ()>> := [OpInsert(Elem(1, 4, [7], 0)), OpPut(Elem(1, 4, [8], 0))];
            After(left, ops) == [Elem(1, 4, [], 0)] && !Faithful(left, ops)
  {
    var left: Residue<seq<int>, int> := (m, k) => ([], k);
    var none: seq<Op<seq<int>, int, ()>>, first, second := [], OpInsert(Elem(1, 4, [7], 0)), OpPut(Elem(1, 4, [8], 0));
    assert [first, second] == none + [first] + [second];
    AfterSnoc(left, none, first);
    AfterSnoc(left, none + [first], second);
    AfterSnoc(Intact(), none, first);
    AfterSnoc(Intact(), none + [first], second);
    var s: seq<Elem<seq<int>, int>>, o: Ordered<seq<int>, int> := [], Ordered([], map[]);
    assert After(left, none) == s && OrderedAfter(left, none) == o && OrderedAfter(Intact(), none) == o;
    hide After, OrderedAfter;
    assert Position([first.elem], 1) == 0;
    assert OrderedAfter(left, [first, second]).content[1].message == [];
    assert OrderedAfter(Intact(), [first, second]).content[1].message == [8];
  }

  // ---------- the order of insertion ----------

  /** From the map alone: the operation that put the present element's identifier in, for the
      last time. Updates do not count. */
  ghost function Birth<M, K, S>(left: Residue<M, K>, ops: seq<Op<M, K, S>>, id: nat): nat
    requires id in OrderedAfter(left, ops).content
    decreases |ops|
  {
    var init := ops[..|ops| - 1];
    if id in OrderedAfter(left, init).content then Birth(left, init, id) else |ops| - 1
  }

  lemma {:induction false} BirthBound<M, K, S>(left: Residue<M, K>, ops: seq<Op<M, K, S>>, id: nat)
    requires id in OrderedAfter(left, ops).content
    ensures Birth(left, ops, id) < |ops|
    decreases |ops|
  {
    var init := ops[..|ops| - 1];
    if id in OrderedAfter(left, init).content { BirthBound(left, init, id); }
  }

  /** The step moves no element past another: an element that another one follows was there
      before, and in front of it; so one that is new comes last. */
  lemma StepKeepsOrder<M, K, S>(left: Residue<M, K>, s: seq<Elem<M, K>>, op: Op<M, K, S>, i: nat, j: nat)
    requires Unique(s) && i < j < |Step(left, s, op)|
    ensures var a, b := Step(left, s, op)[i].packetId, Step(left, s, op)[j].packetId;
            Position(s, a) < |s| && Position(s, a) < Position(s, b)
  {
    match op
    case OpInsert(e) =>
      if Present(s, e.packetId) { SelfKeepsOrder(s, i, j); } else { PutKeepsOrder(left, s, e, i, j); }
    case OpPut(e) => PutKeepsOrder(left, s, e, i, j);
    case OpErase(id) => RemovedKeepsOrder(s, id, i, j);
    case OpEraseType(id, t) =>
      if Step(left, s, op) == s { SelfKeepsOrder(s, i, j); } else { RemovedKeepsOrder(s, id, i, j); }
    case OpForEach(f, start) =>
      hide Position, Sweep;
      SweepKeepsOrder(f, start, s, i, j);
      SweepElement(f, start, s, i);
    case OpClear =>
  }

  lemma PositionOf<M, K>(s: seq<Elem<M, K>>, i: nat)
    requires Unique(s) && i < |s|
    ensures Position(s, s[i].packetId) == i
  {
    hide Position;
  }

  lemma SelfKeepsOrder<M, K>(s: seq<Elem<M, K>>, i: nat, j: nat)
    requires Unique(s) && i < j < |s|
    ensures Position(s, s[i].packetId) == i && Position(s, s[j].packetId) == j
  {
    hide Position, Unique;
    PositionOf(s, i);
    PositionOf(s, j);
  }

  lemma PutKeepsOrder<M, K>(left: Residue<M, K>, s: seq<Elem<M, K>>, e: Elem<M, K>, i: nat, j: nat)
    requires Unique(s) && i < j < |Put(left, s, e)|
    ensures i < |s| && Position(s, Put(left, s, e)[i].packetId) == i
    ensures Position(s, Put(left, s, e)[j].packetId) == j
  {
    hide Position, Unique;
    PositionOf(s, i);
    if j < |s| { PositionOf(s, j); }
  }

  lemma RemovedKeepsOrder<M, K>(s: seq<Elem<M, K>>, id: nat, i: nat, j: nat)
    requires Unique(s) && i < j < |Removed(s, id)|
    ensures Position(s, Removed(s, id)[i].packetId) < Position(s, Removed(s, id)[j].packetId) < |s|
  {
    hide Position, Unique;
    var k := Position(s, id);
    if k == |s| {
      SelfKeepsOrder(s, i, j);
    } else {
      RemovedElement(s, k, i);
      RemovedElement(s, k, j);
      SelfKeepsOrder(s, if i < k then i else i + 1, if j < k then j else j + 1);
    }
  }

  lemma RemovedElement<M, K>(s: seq<Elem<M, K>>, k: nat, i: nat)
    requires k < |s| && i + 1 < |s|
    ensures (s[..k] + s[k + 1..])[i] == s[if i < k then i else i + 1]
  {
  }

  /** Over every run, the elements stand in the order in which their identifiers were first
      inserted: updating an element, even to another expected type, keeps its place. */
  lemma {:induction false} OrderIsInsertionOrder<M, K, S>(left: Residue<M, K>, ops: seq<Op<M, K, S>>, i: nat, j: nat)
    requires i < j < |After(left, ops)|
    ensures After(left, ops)[i].packetId in OrderedAfter(left, ops).content
    ensures After(left, ops)[j].packetId in OrderedAfter(left, ops).content
    ensures Birth(left, ops, After(left, ops)[i].packetId) < Birth(left, ops, After(left, ops)[j].packetId)
    decreases |ops|
  {
    RunRefinesMap(left, ops);
    var init, op := ops[..|ops| - 1], ops[|ops| - 1];
    RunRefinesMap(left, init);
    var s, s' := After(left, init), After(left, ops);
    StepKeepsOrder(left, s, op, i, j);
    var a, b := s'[i].packetId, s'[j].packetId;
    PresentIsMapped(s, OrderedAfter(left, init).content, a);
    PresentIsMapped(s, OrderedAfter(left, init).content, b);
    if b in OrderedAfter(left, init).content {
      OrderIsInsertionOrder(left, init, Position(s, a), Position(s, b));
    } else {
      BirthBound(left, init, a);
    }
  }
}
