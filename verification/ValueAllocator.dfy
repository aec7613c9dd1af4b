/**
  value_allocator.hpp: the free values of [lowest, highest] as an ordered set of disjoint
  intervals. Values are of a 16-bit or a 32-bit unsigned type; value + 1 is computed in `int` for
  the first, and wraps around for the second.
*/
module ValueAllocator {
  import opened Wrappers

  datatype Interval = Interval(low: nat, high: nat)

  predicate Has(pool: seq<Interval>, v: nat) {
    exists i :: 0 <= i < |pool| && pool[i].low <= v <= pool[i].high
  }

  /** In order, disjoint, and with a gap in between: intervals that touch are merged. */
  predicate Canonical(pool: seq<Interval>) {
    && (forall i :: 0 <= i < |pool| ==> pool[i].low <= pool[i].high)
    && (forall i, j :: 0 <= i < j < |pool| ==> pool[i].high + 1 < pool[j].low)
  }

  predicate Within(pool: seq<Interval>, lowest: nat, highest: nat) {
    forall i :: 0 <= i < |pool| ==> lowest <= pool[i].low && pool[i].high <= highest
  }

  function UsedIn(pool: seq<Interval>, lowest: nat, highest: nat): set<nat> {
    set v: nat | lowest <= v <= highest && !Has(pool, v)
  }

  const MAX16: nat := 0xffff
  const MAX32: nat := 0xffff_ffff

  /** value + 1, as the program computes it. */
  function Succ(wide: bool, v: nat): nat {
    if wide && v == MAX32 then 0 else v + 1
  }

  /** The only value outside `used`. */
  ghost predicate LastFree(used: set<nat>, lowest: nat, highest: nat, v: nat) {
    lowest <= v <= highest && v !in used && forall w: nat :: lowest <= w <= highest && w != v ==> w in used
  }

  class Allocator {
    const wide: bool
    const lowest: nat
    const highest: nat
    var pool: seq<Interval>

    ghost predicate Valid()
      reads this
    {
      && lowest <= highest <= (if wide then MAX32 else MAX16)
      && Canonical(pool) && Within(pool, lowest, highest)
    }

    /** The values that are taken. */
    ghost function Used(): set<nat>
      reads this
    {
      UsedIn(pool, lowest, highest)
    }

    constructor (wide: bool, lowest: nat, highest: nat)
      requires lowest <= highest <= if wide then MAX32 else MAX16
      ensures Valid() && Used() == {} && this.wide == wide && this.lowest == lowest && this.highest == highest
    {
      this.wide, this.lowest, this.highest := wide, lowest, highest;
      pool := [Interval(lowest, highest)];
      WholeIsFree(lowest, highest);
    }

    /** The interval that holds `v`, or the number of intervals. */
    method Find(v: nat) returns (k: nat)
      ensures k <= |pool|
      ensures k < |pool| ==> pool[k].low <= v <= pool[k].high
      ensures k == |pool| ==> !Has(pool, v)
    {
      k := 0;
      while k < |pool| && !(pool[k].low <= v <= pool[k].high)
        invariant k <= |pool|
        invariant forall i :: 0 <= i < k ==> !(pool[i].low <= v <= pool[i].high)
      {
        k := k + 1;
      }
    }

    /** The first interval above `v`, or the number of intervals. */
    method UpperBound(v: nat) returns (k: nat)
      ensures k <= |pool|
      ensures forall i :: 0 <= i < k ==> pool[i].low <= v
      ensures k < |pool| ==> v < pool[k].low
    {
      k := 0;
      while k < |pool| && pool[k].low <= v
        invariant k <= |pool|
        invariant forall i :: 0 <= i < k ==> pool[i].low <= v
      {
        k := k + 1;
      }
    }

    /** The least vacant value. */
    method FirstVacant() returns (r: Option<nat>)
      requires Valid()
      ensures r == FirstIn(pool)
      ensures FirstOutside(r, Used(), lowest, highest)
    {
      FirstIsLeast(pool, lowest, highest);
      if |pool| == 0 { return None; }
      r := Some(pool[0].low);
    }

    /** Takes the least value that is not used. An assertion fails exactly if the largest value of
        a 32-bit type is the only one left. */
    method Allocate() returns (r: Result<Option<nat>>)
      requires Valid()
      modifies this
      ensures Valid()
      ensures r == Failure(Assertion) <==> wide && LastFree(old(Used()), lowest, highest, MAX32)
      ensures r.Failure? ==> r.error == Assertion && Used() == old(Used())
      ensures r.Success? ==>
                && FirstOutside(r.value, old(Used()), lowest, highest)
                && Used() == old(Used()) + if r.value.Some? then {r.value.value} else {}
    {
      hide Has, Canonical, UsedIn, FirstOutside;
      var vacant := FirstVacant();
      if vacant.None? { return Success(None); }
      var first := pool[0];
      Bounds(pool, 0);
      TakenAt(pool, 0, first.low, lowest, highest);
      OnlyOne(pool, 0, lowest, highest);
      if Succ(wide, first.low) <= first.high {
        if !(first.low < highest) { return Failure(Assertion); }
        pool := [Interval(Succ(wide, first.low), first.high)] + pool[1..];
      } else {
        pool := pool[1..];
      }
      assert pool == old(pool)[..0] + (Rest(first, first.low) + old(pool)[1..]);
      r := Success(vacant);
    }

    /** Declares a value as used; false if it is so already, or out of range. But if the largest
        value of a 32-bit type is the last free one, all values are free afterwards, from 0 on. */
    method Use(value: nat) returns (ok: bool)
      requires Valid()
      modifies this
      ensures ok <==> lowest <= value <= highest && value !in old(Used())
      ensures if wide && value == MAX32 && LastFree(old(Used()), lowest, highest, value)
              then pool == [Interval(0, MAX32)] && Used() == {}
              else Valid() && Used() == old(Used()) + if ok then {value} else {}
    {
      hide Has, Canonical, UsedIn, LastFree;
      var k := Find(value);
      if k == |pool| {
        NotFree(pool, value, lowest, highest);
        return false;
      }
      var iv := pool[k];
      TakenAt(pool, k, value, lowest, highest);
      OnlyOne(pool, k, lowest, highest);
      ghost var wraps := wide && value == MAX32 && |pool| == 1 && iv.low == value;
      var left: seq<Interval> := [];
      var right: seq<Interval> := [];
      if iv.low < value {
        left := [Interval(iv.low, value - 1)];
      }
      var next := Succ(wide, value);
      // An interval from 0 on overlaps any other one, and is then not inserted.
      if next <= iv.high && (next > value || (left == [] && |pool| == 1)) {
        right := [Interval(next, iv.high)];
      }
      assert left + right == if wraps then [Interval(0, MAX32)] else Rest(iv, value);
      if wraps { WiderIsFree(lowest, highest); }
      pool := pool[..k] + ((left + right) + pool[k + 1..]);
      assert wraps ==> pool == [Interval(0, MAX32)];
      ok := true;
    }

    /** Gives a used value back, merging it with the intervals it touches. */
    method Deallocate(value: nat)
      requires Valid() && value in Used()
      modifies this
      ensures Valid() && Used() == old(Used()) - {value}
    {
      var r := UpperBound(value);
      var concatLeft := r > 0 && Succ(wide, pool[r - 1].high) == value;
      var concatRight := r < |pool| && Succ(wide, value) == pool[r].low;
      assert r > 0 ==> pool[r - 1].high < value by { if r > 0 { NotHeld(pool, r, value); } }
      var from := if concatLeft then r - 1 else r;
      var to := if concatRight then r + 1 else r;
      var iv := Merged(pool[from..r], value, pool[r..to]);
      Returned(pool, r, from, to, value, lowest, highest);
      pool := pool[..from] + ([iv] + pool[to..]);
    }

    method Clear()
      requires Valid()
      modifies this
      ensures Valid() && Used() == {}
    {
      pool := [Interval(lowest, highest)];
      WholeIsFree(lowest, highest);
    }
  }

  // ---------- the least vacant value ----------

  function FirstIn(pool: seq<Interval>): Option<nat> {
    if pool == [] then None else Some(pool[0].low)
  }

  /** `r` is the least value of [lowest, highest] outside `used`, if there is one. */
  ghost predicate FirstOutside(r: Option<nat>, used: set<nat>, lowest: nat, highest: nat) {
    match r
    case None => forall v: nat :: lowest <= v <= highest ==> v in used
    case Some(f) => lowest <= f <= highest && f !in used && forall v: nat :: lowest <= v < f ==> v in used
  }

  lemma FirstIsLeast(pool: seq<Interval>, lowest: nat, highest: nat)
    requires Canonical(pool) && Within(pool, lowest, highest)
    ensures FirstOutside(FirstIn(pool), UsedIn(pool, lowest, highest), lowest, highest)
  {
    if pool != [] {
      var first := pool[0];
      assert first.low <= first.low <= first.high;
      assert Has(pool, first.low);
      assert forall i :: 0 <= i < |pool| ==> first.low <= pool[i].low;
    }
  }

  lemma WholeIsFree(lowest: nat, highest: nat)
    ensures UsedIn([Interval(lowest, highest)], lowest, highest) == {}
  {
    var pool := [Interval(lowest, highest)];
    forall v: nat | lowest <= v <= highest ensures Has(pool, v) {
      assert pool[0].low <= v <= pool[0].high;
    }
  }

  /** All values of a type are free in an interval that starts at 0. */
  lemma WiderIsFree(lowest: nat, highest: nat)
    requires highest <= MAX32
    ensures UsedIn([Interval(0, MAX32)], lowest, highest) == {}
  {
    forall v: nat | lowest <= v <= highest ensures Has([Interval(0, MAX32)], v) {
      HasOne(Interval(0, MAX32), v);
    }
  }

  lemma NotFree(pool: seq<Interval>, v: nat, lowest: nat, highest: nat)
    requires !Has(pool, v)
    ensures lowest <= v <= highest ==> v in UsedIn(pool, lowest, highest)
    ensures !LastFree(UsedIn(pool, lowest, highest), lowest, highest, v)
  {
  }

  lemma NotHeld(pool: seq<Interval>, r: nat, v: nat)
    requires 0 < r <= |pool| && !Has(pool, v) && pool[r - 1].low <= v
    ensures pool[r - 1].high < v
  {
  }

  /** The upper end of an interval is the only free value exactly if the interval holds nothing
      else and is the only one. */
  lemma OnlyOne(pool: seq<Interval>, k: nat, lowest: nat, highest: nat)
    requires Canonical(pool) && Within(pool, lowest, highest) && k < |pool|
    ensures LastFree(UsedIn(pool, lowest, highest), lowest, highest, pool[k].high) <==>
              |pool| == 1 && pool[k].low == pool[k].high
  {
    var v := pool[k].high;
    Bounds(pool, k);
    if |pool| == 1 && pool[k].low == v {
      assert pool == [pool[0]];
      forall w: nat | w != v ensures !Has(pool, w) { HasOne(pool[0], w); }
    } else if |pool| == 1 {
      assert pool[k].low !in UsedIn(pool, lowest, highest);
    } else {
      var j := if k == 0 then 1 else 0;
      Bounds(pool, j);
      assert pool[j].low !in UsedIn(pool, lowest, highest) && pool[j].low != v;
    }
  }

  lemma Bounds(pool: seq<Interval>, k: nat)
    requires Canonical(pool) && k < |pool|
    ensures pool[k].low <= pool[k].high && Has(pool, pool[k].low) && Has(pool, pool[k].high)
  {
  }

  // ---------- what the splices do to the set of free values ----------

  /** A gap between every interval of `a` and every interval of `b`. */
  predicate Gap(a: seq<Interval>, b: seq<Interval>) {
    forall i, j :: 0 <= i < |a| && 0 <= j < |b| ==> a[i].high + 1 < b[j].low
  }

  lemma CanonicalAppend(a: seq<Interval>, b: seq<Interval>)
    ensures Canonical(a + b) <==> Canonical(a) && Canonical(b) && Gap(a, b)
  {
    var s := a + b;
    assert forall i :: 0 <= i < |a| ==> s[i] == a[i];
    assert forall j :: 0 <= j < |b| ==> s[|a| + j] == b[j];
    assert forall k :: |a| <= k < |s| ==> s[k] == b[k - |a|];
  }

  lemma HasAppend(a: seq<Interval>, b: seq<Interval>, v: nat)
    ensures Has(a + b, v) <==> Has(a, v) || Has(b, v)
  {
    var s := a + b;
    if Has(s, v) {
      var i :| 0 <= i < |s| && s[i].low <= v <= s[i].high;
      if i < |a| { assert a[i] == s[i]; } else { assert b[i - |a|] == s[i]; }
    }
    if Has(a, v) {
      var i :| 0 <= i < |a| && a[i].low <= v <= a[i].high;
      assert s[i] == a[i];
    }
    if Has(b, v) {
      var i :| 0 <= i < |b| && b[i].low <= v <= b[i].high;
      assert s[|a| + i] == b[i];
    }
  }

  lemma HasOne(iv: Interval, v: nat)
    ensures Has([iv], v) <==> iv.low <= v <= iv.high
  {
    assert [iv][0] == iv;
  }

  lemma GapAppend(a: seq<Interval>, b: seq<Interval>, c: seq<Interval>)
    ensures Gap(a, b + c) <==> Gap(a, b) && Gap(a, c)
  {
    var s := b + c;
    assert forall i :: 0 <= i < |b| ==> s[i] == b[i];
    assert forall i :: 0 <= i < |c| ==> s[|b| + i] == c[i];
    assert forall k :: |b| <= k < |s| ==> s[k] == c[k - |b|];
  }

  lemma HasMiddle(a: seq<Interval>, b: seq<Interval>, c: seq<Interval>, v: nat)
    ensures Has(a + (b + c), v) <==> Has(a, v) || Has(b, v) || Has(c, v)
  {
    HasAppend(a, b + c, v);
    HasAppend(b, c, v);
  }

  lemma CanonicalMiddle(a: seq<Interval>, b: seq<Interval>, c: seq<Interval>)
    ensures Canonical(a + (b + c)) <==>
              Canonical(a) && Canonical(b) && Canonical(c) && Gap(a, b) && Gap(a, c) && Gap(b, c)
  {
    CanonicalAppend(a, b + c);
    CanonicalAppend(b, c);
    GapAppend(a, b, c);
  }

  lemma WithinMiddle(a: seq<Interval>, b: seq<Interval>, c: seq<Interval>, lowest: nat, highest: nat)
    ensures Within(a + (b + c), lowest, highest) <==>
              Within(a, lowest, highest) && Within(b, lowest, highest) && Within(c, lowest, highest)
  {
    var s := a + (b + c);
    assert forall i :: 0 <= i < |a| ==> s[i] == a[i];
    assert forall i :: 0 <= i < |b| ==> s[|a| + i] == b[i];
    assert forall i :: 0 <= i < |c| ==> s[|a| + |b| + i] == c[i];
    assert forall k :: |a| <= k < |a| + |b| ==> s[k] == b[k - |a|];
    assert forall k :: |a| + |b| <= k < |s| ==> s[k] == c[k - |a| - |b|];
  }

  /** What is left of an interval without one of its values. */
  function Rest(iv: Interval, v: nat): seq<Interval> {
    (if iv.low < v then [Interval(iv.low, v - 1)] else [])
      + (if v + 1 <= iv.high then [Interval(v + 1, iv.high)] else [])
  }

  lemma HasRest(iv: Interval, v: nat, w: nat)
    requires iv.low <= v <= iv.high
    ensures Has(Rest(iv, v), w) <==> iv.low <= w <= iv.high && w != v
  {
    var left := if iv.low < v then [Interval(iv.low, v - 1)] else [];
    var right := if v + 1 <= iv.high then [Interval(v + 1, iv.high)] else [];
    HasAppend(left, right, w);
    if iv.low < v { HasOne(Interval(iv.low, v - 1), w); }
    if v + 1 <= iv.high { HasOne(Interval(v + 1, iv.high), w); }
  }

  /** Taking `v` out of the interval that holds it. */
  lemma Taken(a: seq<Interval>, iv: Interval, c: seq<Interval>, v: nat, lowest: nat, highest: nat)
    requires Canonical(a + ([iv] + c)) && Within(a + ([iv] + c), lowest, highest)
    requires iv.low <= v <= iv.high
    ensures var pool, pool' := a + ([iv] + c), a + (Rest(iv, v) + c);
            && Canonical(pool') && Within(pool', lowest, highest)
            && lowest <= v <= highest && v !in UsedIn(pool, lowest, highest)
            && UsedIn(pool', lowest, highest) == UsedIn(pool, lowest, highest) + {v}
  {
    var pool, pool' := a + ([iv] + c), a + (Rest(iv, v) + c);
    CanonicalMiddle(a, [iv], c);
    TakenPool(a, iv, c, v, lowest, highest);
    HasMiddle(a, [iv], c, v);
    HasOne(iv, v);
    forall w: nat ensures Has(pool', w) <==> Has(pool, w) && w != v {
      TakenHas(a, iv, c, v, w);
    }
    hide Has, Canonical, Gap;
    assert UsedIn(pool', lowest, highest) == UsedIn(pool, lowest, highest) + {v};
  }

  lemma TakenAt(pool: seq<Interval>, k: nat, v: nat, lowest: nat, highest: nat)
    requires Canonical(pool) && Within(pool, lowest, highest)
    requires k < |pool| && pool[k].low <= v <= pool[k].high
    ensures lowest <= pool[k].low && pool[k].high <= highest
    ensures var pool' := pool[..k] + (Rest(pool[k], v) + pool[k + 1..]);
            && Canonical(pool') && Within(pool', lowest, highest)
            && v !in UsedIn(pool, lowest, highest)
            && UsedIn(pool', lowest, highest) == UsedIn(pool, lowest, highest) + {v}
  {
    hide Canonical, UsedIn, Rest;
    assert pool == pool[..k] + ([pool[k]] + pool[k + 1..]);
    Taken(pool[..k], pool[k], pool[k + 1..], v, lowest, highest);
  }

  lemma TakenPool(a: seq<Interval>, iv: Interval, c: seq<Interval>, v: nat, lowest: nat, highest: nat)
    requires Canonical(a + ([iv] + c)) && Within(a + ([iv] + c), lowest, highest)
    requires iv.low <= v <= iv.high
    ensures lowest <= v <= highest
    ensures Canonical(a + (Rest(iv, v) + c)) && Within(a + (Rest(iv, v) + c), lowest, highest)
  {
    CanonicalMiddle(a, [iv], c);
    CanonicalMiddle(a, Rest(iv, v), c);
    WithinMiddle(a, [iv], c, lowest, highest);
    WithinMiddle(a, Rest(iv, v), c, lowest, highest);
    hide Canonical, Within, Gap, Rest;
    RestFits(a, iv, c, v, lowest, highest);
  }

  lemma RestFits(a: seq<Interval>, iv: Interval, c: seq<Interval>, v: nat, lowest: nat, highest: nat)
    requires iv.low <= v <= iv.high && Gap(a, [iv]) && Gap([iv], c) && Within([iv], lowest, highest)
    ensures lowest <= v <= highest
    ensures Canonical(Rest(iv, v)) && Within(Rest(iv, v), lowest, highest) && Gap(a, Rest(iv, v)) && Gap(Rest(iv, v), c)
  {
    assert [iv][0] == iv;
  }

  lemma TakenHas(a: seq<Interval>, iv: Interval, c: seq<Interval>, v: nat, w: nat)
    requires Gap(a, [iv]) && Gap([iv], c) && iv.low <= v <= iv.high
    ensures Has(a + (Rest(iv, v) + c), w) <==> Has(a + ([iv] + c), w) && w != v
  {
    HasMiddle(a, [iv], c, w);
    HasMiddle(a, Rest(iv, v), c, w);
    HasRest(iv, v, w);
    HasOne(iv, w);
    Apart(a, iv, c, v);
  }

  lemma Apart(a: seq<Interval>, iv: Interval, c: seq<Interval>, v: nat)
    requires Gap(a, [iv]) && Gap([iv], c) && iv.low <= v <= iv.high
    ensures !Has(a, v) && !Has(c, v)
  {
    assert [iv][0] == iv;
  }

  /** Giving `v` back: the intervals `b` that it touches become one with it. */
  lemma Given(a: seq<Interval>, b: seq<Interval>, c: seq<Interval>, iv: Interval, v: nat, lowest: nat, highest: nat)
    requires Canonical(a + (b + c)) && Within(a + (b + c), lowest, highest)
    requires v in UsedIn(a + (b + c), lowest, highest)
    requires Gap(a, [iv]) && Gap([iv], c)
    requires forall w: nat :: iv.low <= w <= iv.high <==> Has(b, w) || w == v
    requires lowest <= iv.low <= iv.high <= highest
    ensures var pool, pool' := a + (b + c), a + ([iv] + c);
            && Canonical(pool') && Within(pool', lowest, highest)
            && UsedIn(pool', lowest, highest) == UsedIn(pool, lowest, highest) - {v}
  {
    var pool, pool' := a + (b + c), a + ([iv] + c);
    CanonicalMiddle(a, b, c);
    WithinMiddle(a, b, c, lowest, highest);
    CanonicalMiddle(a, [iv], c);
    WithinMiddle(a, [iv], c, lowest, highest);
    assert [iv][0] == iv;
    assert Canonical([iv]) && Within([iv], lowest, highest);
    forall w: nat ensures Has(pool', w) <==> Has(pool, w) || w == v {
      GivenHas(a, b, c, iv, v, w);
    }
  }

  lemma GivenHas(a: seq<Interval>, b: seq<Interval>, c: seq<Interval>, iv: Interval, v: nat, w: nat)
    requires iv.low <= w <= iv.high <==> Has(b, w) || w == v
    ensures Has(a + ([iv] + c), w) <==> Has(a + (b + c), w) || w == v
  {
    HasMiddle(a, b, c, w);
    HasMiddle(a, [iv], c, w);
    HasOne(iv, w);
  }

  /** The neighbours of a value that is not free. */
  lemma Neighbours(pool: seq<Interval>, r: nat, v: nat)
    requires Canonical(pool) && !Has(pool, v)
    requires r <= |pool| && (forall i :: 0 <= i < r ==> pool[i].low <= v) && (r < |pool| ==> v < pool[r].low)
    ensures forall i :: 0 <= i < r ==> pool[i].high < v
    ensures forall i :: r <= i < |pool| ==> v < pool[i].low
    ensures forall i :: 0 <= i < r - 1 ==> pool[i].high + 1 < v
    ensures forall i :: r < i < |pool| ==> v + 1 < pool[i].low
  {
    if r > 0 {
      assert pool[r - 1].high < v by { assert pool[r - 1].low <= v; }
      assert forall i :: 0 <= i < r - 1 ==> pool[i].high + 1 < pool[r - 1].low;
    }
  }

  /** What `v` becomes together with the interval that ends before it and the one that starts after it. */
  function Merged(left: seq<Interval>, v: nat, right: seq<Interval>): Interval {
    Interval(if left == [] then v else left[0].low, if right == [] then v else right[0].high)
  }

  /** What surrounds a value given back at position r: [from, r) touches it from below and
      [r, to) from above. */
  ghost predicate Surrounds(pool: seq<Interval>, r: nat, from: nat, to: nat, v: nat) {
    && from <= r <= to <= |pool|
    && from == (if r > 0 && pool[r - 1].high + 1 == v then r - 1 else r)
    && to == (if r < |pool| && v + 1 == pool[r].low then r + 1 else r)
  }

  lemma LowerGap(pool: seq<Interval>, r: nat, from: nat, to: nat, v: nat)
    requires Canonical(pool) && !Has(pool, v) && Surrounds(pool, r, from, to, v)
    requires (forall i :: 0 <= i < r ==> pool[i].low <= v) && (r < |pool| ==> v < pool[r].low)
    ensures forall i :: 0 <= i < from ==> pool[i].high + 1 < if from < r then pool[from].low else v
  {
    Neighbours(pool, r, v);
  }

  lemma UpperGap(pool: seq<Interval>, r: nat, from: nat, to: nat, v: nat)
    requires Canonical(pool) && !Has(pool, v) && Surrounds(pool, r, from, to, v)
    requires (forall i :: 0 <= i < r ==> pool[i].low <= v) && (r < |pool| ==> v < pool[r].low)
    ensures forall i :: to <= i < |pool| ==> (if r < to then pool[r].high else v) + 1 < pool[i].low
  {
    Neighbours(pool, r, v);
  }

  lemma MergedGap(pool: seq<Interval>, r: nat, from: nat, to: nat, v: nat)
    requires Canonical(pool) && !Has(pool, v) && Surrounds(pool, r, from, to, v)
    requires (forall i :: 0 <= i < r ==> pool[i].low <= v) && (r < |pool| ==> v < pool[r].low)
    ensures var iv := Merged(pool[from..r], v, pool[r..to]);
            Gap(pool[..from], [iv]) && Gap([iv], pool[to..]) && iv.low <= v <= iv.high
  {
    LowerGap(pool, r, from, to, v);
    UpperGap(pool, r, from, to, v);
    var iv := Merged(pool[from..r], v, pool[r..to]);
    assert iv.low == if from < r then pool[from].low else v;
    assert iv.high == if r < to then pool[r].high else v;
    GapAround(pool, from, to, iv);
  }

  lemma GapAround(pool: seq<Interval>, from: nat, to: nat, iv: Interval)
    requires from <= |pool| && to <= |pool|
    requires forall i :: 0 <= i < from ==> pool[i].high + 1 < iv.low
    requires forall i :: to <= i < |pool| ==> iv.high + 1 < pool[i].low
    ensures Gap(pool[..from], [iv]) && Gap([iv], pool[to..])
  {
  }

  lemma MergedHas(left: seq<Interval>, v: nat, right: seq<Interval>, w: nat)
    requires |left| <= 1 && |right| <= 1
    requires left != [] ==> left[0].low <= left[0].high && left[0].high + 1 == v
    requires right != [] ==> right[0].low <= right[0].high && v + 1 == right[0].low
    ensures Merged(left, v, right).low <= w <= Merged(left, v, right).high <==> Has(left + right, w) || w == v
  {
    HasAppend(left, right, w);
    if left != [] { HasOne(left[0], w); assert left == [left[0]]; }
    if right != [] { HasOne(right[0], w); assert right == [right[0]]; }
  }

  lemma MergedAt(pool: seq<Interval>, r: nat, from: nat, to: nat, v: nat, w: nat)
    requires Canonical(pool) && Surrounds(pool, r, from, to, v)
    ensures var left, right := pool[from..r], pool[r..to];
            var iv := Merged(left, v, right);
            iv.low <= w <= iv.high <==> Has(left + right, w) || w == v
  {
    hide Has, Merged;
    MergedHas(pool[from..r], v, pool[r..to], w);
  }

  lemma Slices(pool: seq<Interval>, r: nat, from: nat, to: nat)
    requires from <= r <= to <= |pool|
    ensures pool == pool[..from] + ((pool[from..r] + pool[r..to]) + pool[to..])
  {
  }

  lemma Returned(pool: seq<Interval>, r: nat, from: nat, to: nat, v: nat, lowest: nat, highest: nat)
    requires Canonical(pool) && Within(pool, lowest, highest) && v in UsedIn(pool, lowest, highest)
    requires Surrounds(pool, r, from, to, v)
    requires (forall i :: 0 <= i < r ==> pool[i].low <= v) && (r < |pool| ==> v < pool[r].low)
    ensures var pool' := pool[..from] + ([Merged(pool[from..r], v, pool[r..to])] + pool[to..]);
            && Canonical(pool') && Within(pool', lowest, highest)
            && UsedIn(pool', lowest, highest) == UsedIn(pool, lowest, highest) - {v}
  {
    hide Gap, Merged, Canonical, Has;
    var left, right := pool[from..r], pool[r..to];
    var iv := Merged(left, v, right);
    MergedGap(pool, r, from, to, v);
    MergedWithin(pool, r, from, to, v, lowest, highest);
    Slices(pool, r, from, to);
    forall w: nat ensures iv.low <= w <= iv.high <==> Has(left + right, w) || w == v {
      MergedAt(pool, r, from, to, v, w);
    }
    hide Within, UsedIn, Surrounds;
    Given(pool[..from], left + right, pool[to..], iv, v, lowest, highest);
  }

  lemma MergedWithin(pool: seq<Interval>, r: nat, from: nat, to: nat, v: nat, lowest: nat, highest: nat)
    requires Within(pool, lowest, highest) && Surrounds(pool, r, from, to, v) && lowest <= v <= highest
    ensures var iv := Merged(pool[from..r], v, pool[r..to]);
            lowest <= iv.low && iv.high <= highest
  {
  }

  // ---------- the representation is unique ----------

  lemma HasTail(pool: seq<Interval>, v: nat)
    requires Canonical(pool) && pool != []
    ensures Has(pool[1..], v) <==> Has(pool, v) && v > pool[0].high
  {
    if Has(pool[1..], v) {
      var i :| 0 <= i < |pool[1..]| && pool[1..][i].low <= v <= pool[1..][i].high;
      assert pool[i + 1] == pool[1..][i];
    }
    if Has(pool, v) && v > pool[0].high {
      var i :| 0 <= i < |pool| && pool[i].low <= v <= pool[i].high;
      assert pool[1..][i - 1] == pool[i];
    }
  }

  /** The free values determine the intervals, so the number of intervals is the least possible
      and does not depend on the history. */
  lemma {:induction false} Unique(p: seq<Interval>, q: seq<Interval>)
    requires Canonical(p) && Canonical(q)
    requires forall v: nat :: Has(p, v) <==> Has(q, v)
    ensures p == q
  {
    EmptyIffNothing(p);
    EmptyIffNothing(q);
    if p != [] {
      CanonicalEnds(p);
      CanonicalEnds(q);
      FreeEnds(p);
      FreeEnds(q);
      hide Canonical, Has;
      SameStart(p, q);
      forall v: nat ensures Has(p[1..], v) <==> Has(q[1..], v) {
        HasTail(p, v);
        HasTail(q, v);
      }
      Unique(p[1..], q[1..]);
      assert p == [p[0]] + p[1..] && q == [q[0]] + q[1..];
    }
  }

  lemma CanonicalEnds(p: seq<Interval>)
    requires Canonical(p) && p != []
    ensures p[0].low <= p[0].high && Canonical(p[1..])
  {
  }

  lemma EmptyIffNothing(p: seq<Interval>)
    requires Canonical(p)
    ensures p == [] <==> forall v: nat :: !Has(p, v)
  {
    if p != [] {
      assert p[0].low <= p[0].low <= p[0].high;
      assert Has(p, p[0].low);
    }
  }

  lemma FreeEnds(p: seq<Interval>)
    requires Canonical(p) && p != []
    ensures forall v: nat :: v <= p[0].high + 1 ==> (Has(p, v) <==> p[0].low <= v <= p[0].high)
  {
    assert forall i :: 0 < i < |p| ==> p[0].high + 1 < p[i].low;
  }

  lemma SameStart(p: seq<Interval>, q: seq<Interval>)
    requires p != [] && q != [] && p[0].low <= p[0].high && q[0].low <= q[0].high
    requires forall v: nat :: Has(p, v) <==> Has(q, v)
    requires forall v: nat :: v <= p[0].high + 1 ==> (Has(p, v) <==> p[0].low <= v <= p[0].high)
    requires forall v: nat :: v <= q[0].high + 1 ==> (Has(q, v) <==> q[0].low <= v <= q[0].high)
    ensures p[0] == q[0]
  {
    hide Has;
    assert Has(p, p[0].low) && Has(q, q[0].low);
    assert Has(p, p[0].high) && Has(q, q[0].high);
    assert !Has(p, p[0].high + 1) && !Has(q, q[0].high + 1);
  }
}
