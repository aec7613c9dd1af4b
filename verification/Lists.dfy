/** Lists of distinct identifiers: packet identifiers in the store, aliases in the timestamp index. */
module Lists {

  predicate Distinct(s: seq<nat>) {
    forall i, j :: 0 <= i < j < |s| ==> s[i] != s[j]
  }

  /** The position of an identifier. */
  function IndexOf(s: seq<nat>, a: nat): (k: nat)
    requires a in s
    ensures k < |s| && s[k] == a
  {
    if s[0] == a then 0 else 1 + IndexOf(s[1..], a)
  }

  function Without(s: seq<nat>, a: nat): seq<nat> {
    if s == [] then [] else if s[0] == a then Without(s[1..], a) else [s[0]] + Without(s[1..], a)
  }

  function Dropped(s: seq<nat>, k: nat): (r: seq<nat>)
    requires k < |s|
    ensures |r| == |s| - 1 && forall b :: b in r ==> b in s
  {
    s[..k] + s[k + 1..]
  }

  function Spliced(s: seq<nat>, k: nat, a: nat): seq<nat>
    requires k <= |s|
  {
    s[..k] + [a] + s[k..]
  }

  lemma DroppedIsRest(s: seq<nat>, k: nat)
    requires k < |s| && Distinct(s)
    ensures Distinct(Dropped(s, k)) && s[k] !in Dropped(s, k)
    ensures forall b :: b in s <==> b in Dropped(s, k) || b == s[k]
    ensures forall i :: 0 <= i < |s| - 1 ==> Dropped(s, k)[i] == s[if i < k then i else i + 1]
  {
    assert s == s[..k] + ([s[k]] + s[k + 1..]);
  }

  lemma SplicedElements(s: seq<nat>, k: nat, a: nat)
    requires k <= |s|
    ensures |Spliced(s, k, a)| == |s| + 1 && Spliced(s, k, a)[k] == a
    ensures forall i :: 0 <= i < |s| + 1 && i != k ==> Spliced(s, k, a)[i] == s[if i < k then i else i - 1]
  {
  }

  lemma SplicedIsMore(s: seq<nat>, k: nat, a: nat)
    requires k <= |s| && Distinct(s) && a !in s
    ensures var r := Spliced(s, k, a);
            && Distinct(r) && |r| == |s| + 1 && r[k] == a
            && (forall b :: b in r <==> b in s || b == a)
            && (forall i :: 0 <= i < |r| && i != k ==> r[i] == s[if i < k then i else i - 1])
  {
    SplicedElements(s, k, a);
    hide Spliced;
    var r := Spliced(s, k, a);
    forall b ensures b in r <==> b in s || b == a {
      if b in s {
        var i :| 0 <= i < |s| && s[i] == b;
        assert r[if i < k then i else i + 1] == b;
      }
    }
    SplicedIsDistinct(s, r, k, a);
  }

  lemma SplicedIsDistinct(s: seq<nat>, r: seq<nat>, k: nat, a: nat)
    requires k <= |s| && Distinct(s) && a !in s && |r| == |s| + 1 && r[k] == a
    requires forall i :: 0 <= i < |r| && i != k ==> r[i] == s[if i < k then i else i - 1]
    ensures Distinct(r)
  {
    forall i, j | 0 <= i < j < |r| ensures r[i] != r[j] {
      if i != k && j != k {
        DistinctAt(s, if i < k then i else i - 1, if j < k then j else j - 1);
      }
    }
  }

  lemma {:induction false} WithoutAbsent(s: seq<nat>, a: nat)
    requires a !in s
    ensures Without(s, a) == s
  {
    if s != [] {
      assert a !in s[1..];
      WithoutAbsent(s[1..], a);
    }
  }

  lemma {:induction false} WithoutPresent(s: seq<nat>, k: nat)
    requires k < |s| && Distinct(s)
    ensures Without(s, s[k]) == Dropped(s, k)
  {
    if k == 0 {
      assert s[k] !in s[1..];
      WithoutAbsent(s[1..], s[0]);
    } else {
      TailDistinct(s);
      hide Distinct;
      WithoutPresent(s[1..], k - 1);
      assert s[..k] == [s[0]] + s[1..][..k - 1];
      assert s[1..][k..] == s[k + 1..];
    }
  }

  lemma TailDistinct(s: seq<nat>)
    requires s != [] && Distinct(s)
    ensures Distinct(s[1..]) && s[0] !in s[1..]
  {
  }

  lemma DistinctAt(s: seq<nat>, i: nat, j: nat)
    requires Distinct(s) && i < j < |s|
    ensures s[i] != s[j]
  {
  }

  /** Linking puts an element at the end exactly when it is put behind everything. */
  lemma SplicedAtEnd(s: seq<nat>, k: nat, a: nat)
    requires k <= |s| && a !in s
    ensures Spliced(s, k, a) == s + [a] <==> k == |s|
  {
    if k == |s| {
      assert s[k..] == [] && s[..k] == s;
    } else {
      assert Spliced(s, k, a)[k] == a && (s + [a])[k] == s[k];
    }
  }

  lemma InPlaceIsAtEnd(s: seq<nat>, k: nat)
    requires k < |s| && Distinct(s)
    ensures s == Dropped(s, k) + [s[k]] <==> k + 1 == |s|
  {
    if k + 1 < |s| {
      assert (Dropped(s, k) + [s[k]])[k] == s[k + 1];
      DistinctAt(s, k, k + 1);
    } else {
      hide Distinct;
      assert s[k + 1..] == [];
    }
  }

  lemma DroppedEnds(s: seq<nat>, k: nat)
    requires k + 1 < |s| && Distinct(s)
    ensures s[k] !in Dropped(s, k) && s[k] != s[|s| - 1]
    ensures Dropped(s, k)[|s| - 2] == s[|s| - 1]
  {
    DroppedIsRest(s, k);
    DistinctAt(s, k, |s| - 1);
  }
}
