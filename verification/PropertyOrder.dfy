/**
  Comparison of properties: less_than_visitor and equal_visitor, and the operators of the kinds.
  The fixed-size kinds compare vectors of `char`, whose signedness is the platform's; strings
  compare as unsigned bytes.
*/
module PropertyOrder {
  import opened Bytes
  import opened VariableLength
  import opened Property

  function Rank(signed: bool, b: byte): int {
    if signed && b >= 128 then b as int - 256 else b
  }

  /** std::lexicographical_compare. */
  predicate LexLess(signed: bool, a: seq<byte>, b: seq<byte>) {
    if b == [] then false
    else if a == [] then true
    else if Rank(signed, a[0]) < Rank(signed, b[0]) then true
    else if Rank(signed, b[0]) < Rank(signed, a[0]) then false
    else LexLess(signed, a[1..], b[1..])
  }

  /** The value that a variable property compares by. */
  function Number(value: seq<byte>): nat {
    Decode(value).0
  }

  predicate Less(signed: bool, p: Property, q: Property) {
    if Id(p) != Id(q) then Id(p) < Id(q)
    else
      match (p, q)
      case (NBytes(_, a), NBytes(_, b)) => LexLess(signed, a, b)
      case (Data(_, a), Data(_, b)) => LexLess(false, a, b)
      case (Variable(a), Variable(b)) => Number(a) < Number(b)
      case (User(k, v), User(k', v')) => LexLess(false, k, k') || (!LexLess(false, k', k) && LexLess(false, v, v'))
      case _ => false
  }

  predicate Equal(p: Property, q: Property) {
    Id(p) == Id(q) &&
    match (p, q)
    case (NBytes(_, a), NBytes(_, b)) => a == b
    case (Data(_, a), Data(_, b)) => a == b
    case (Variable(a), Variable(b)) => Number(a) == Number(b)
    case (User(k, v), User(k', v')) => k == k' && v == v'
    case _ => false
  }

  // ---------- lexicographical order ----------

  lemma {:induction false} LexTrichotomy(signed: bool, a: seq<byte>, b: seq<byte>)
    ensures !(LexLess(signed, a, b) && LexLess(signed, b, a))
    ensures !LexLess(signed, a, b) && !LexLess(signed, b, a) <==> a == b
  {
    if a != [] && b != [] {
      LexTrichotomy(signed, a[1..], b[1..]);
      assert a == [a[0]] + a[1..] && b == [b[0]] + b[1..];
    }
  }

  lemma {:induction false} LexTransitive(signed: bool, a: seq<byte>, b: seq<byte>, c: seq<byte>)
    requires LexLess(signed, a, b) && LexLess(signed, b, c)
    ensures LexLess(signed, a, c)
  {
    if a != [] && b != [] && c != [] && a[0] == b[0] == c[0] {
      LexTransitive(signed, a[1..], b[1..], c[1..]);
    }
  }

  /** At the first difference `a` has the smaller byte, or it ends. */
  ghost predicate LessAt(signed: bool, a: seq<byte>, b: seq<byte>, k: nat) {
    && k <= |a| && k < |b| && a[..k] == b[..k]
    && (k < |a| ==>
          (if signed && a[k] >= 128 then a[k] as int - 256 else a[k] as int)
          < (if signed && b[k] >= 128 then b[k] as int - 256 else b[k] as int))
  }

  /** The order of strings is that at their first difference. */
  lemma {:induction false} LexIsFirstDifference(signed: bool, a: seq<byte>, b: seq<byte>)
    ensures LexLess(signed, a, b) <==> exists k :: LessAt(signed, a, b, k)
  {
    forall k: nat | k > 0 && LessAt(signed, a, b, k) ensures a != [] && b != [] && a[0] == b[0] {
      assert a[..k][0] == b[..k][0];
    }
    if a != [] && b != [] && a[0] == b[0] {
      var s, t := a[1..], b[1..];
      LexIsFirstDifference(signed, s, t);
      if k: nat :| LessAt(signed, s, t, k) {
        assert a[..k + 1] == [a[0]] + s[..k] && b[..k + 1] == [b[0]] + t[..k];
        assert LessAt(signed, a, b, k + 1);
      }
      if k: nat :| LessAt(signed, a, b, k) {
        assert k > 0;
        assert s[..k - 1] == a[..k][1..] && t[..k - 1] == b[..k][1..];
        assert LessAt(signed, s, t, k - 1);
      }
    } else if b != [] && (a == [] || Rank(signed, a[0]) < Rank(signed, b[0])) {
      assert LessAt(signed, a, b, 0);
    }
  }

  // ---------- the order on properties ----------

  /** Properties of different kinds are ordered by their identifiers. */
  lemma LessByIdentifier(signed: bool, p: Property, q: Property)
    requires Id(p) != Id(q)
    ensures Less(signed, p, q) <==> Id(p) < Id(q)
  {
  }

  /** Those of the same kind by their bytes, strings as unsigned ones, a user property by its key
      and then by its value, and subscription identifiers by their numbers. */
  lemma LessByContent(signed: bool, p: Property, q: Property)
    requires WellSized(p) && WellSized(q) && Id(p) == Id(q)
    ensures match (p, q)
            case (NBytes(_, a), NBytes(_, b)) => Less(signed, p, q) <==> exists k :: LessAt(signed, a, b, k)
            case (Data(_, a), Data(_, b)) => Less(signed, p, q) <==> exists k :: LessAt(false, a, b, k)
            case (User(k, v), User(k', v')) =>
              Less(signed, p, q) <==>
                (exists i :: LessAt(false, k, k', i)) || (k == k' && exists i :: LessAt(false, v, v', i))
            case (Variable(a), Variable(b)) => Less(signed, p, q) <==> Value(a) < Value(b)
            case _ => false
  {
    hide LexLess, LessAt, LayoutOf, Encode;
    SameIdSameKind(p, q);
    match p
    case NBytes(_, a) => LexIsFirstDifference(signed, a, q.buf);
    case Data(_, a) => LexIsFirstDifference(false, a, q.data);
    case Variable(a) =>
      NumberOf(a);
      NumberOf(q.value);
    case User(k, v) =>
      LexIsFirstDifference(false, k, q.key);
      LexIsFirstDifference(false, v, q.val);
      LexTrichotomy(false, k, q.key);
  }

  lemma NumberOf(value: seq<byte>)
    requires Value(value) <= MAX && value == Encode(Value(value))
    ensures Number(value) == Value(value)
  {
    RoundTrip(Value(value), []);
    assert value + [] == value;
  }

  /** The identifier fixes the kind. */
  lemma SameIdSameKind(p: Property, q: Property)
    requires WellSized(p) && WellSized(q) && Id(p) == Id(q)
    ensures (p.NBytes? <==> q.NBytes?) && (p.Data? <==> q.Data?)
    ensures (p.Variable? <==> q.Variable?) && (p.User? <==> q.User?)
  {
  }

  lemma NumberIsValue(p: Property)
    requires WellSized(p) && p.Variable?
    ensures p.value == Encode(Number(p.value))
  {
    RoundTrip(Value(p.value), []);
    assert p.value + [] == p.value;
  }

  /** == on constructible properties is equality of what is stored. */
  lemma EqualIsIdentity(p: Property, q: Property)
    requires WellSized(p) && WellSized(q)
    ensures Equal(p, q) <==> p == q
  {
    hide Decode, LayoutOf, Encode;
    if Id(p) == Id(q) {
      SameIdSameKind(p, q);
      if p.Variable? {
        NumberIsValue(p);
        NumberIsValue(q);
      }
    }
  }

  /** Of two constructible properties exactly one of <, > and == holds. */
  lemma Trichotomy(signed: bool, p: Property, q: Property)
    requires WellSized(p) && WellSized(q)
    ensures !(Less(signed, p, q) && Less(signed, q, p))
    ensures !Less(signed, p, q) && !Less(signed, q, p) <==> Equal(p, q)
  {
    hide LexLess, Number, LayoutOf, Encode;
    if Id(p) == Id(q) {
      SameIdSameKind(p, q);
      match p
      case NBytes(_, a) => LexTrichotomy(signed, a, q.buf);
      case Data(_, a) => LexTrichotomy(false, a, q.data);
      case Variable(_) =>
      case User(k, v) =>
        LexTrichotomy(false, k, q.key);
        LexTrichotomy(false, v, q.val);
    }
  }

  lemma UserTransitive(p: Property, q: Property, r: Property)
    requires p.User? && q.User? && r.User?
    requires Less(false, p, q) && Less(false, q, r)
    ensures Less(false, p, r)
  {
    hide LexLess;
    LexTrichotomy(false, p.key, q.key);
    LexTrichotomy(false, q.key, r.key);
    LexTrichotomy(false, p.key, r.key);
    if LexLess(false, p.key, q.key) && LexLess(false, q.key, r.key) {
      LexTransitive(false, p.key, q.key, r.key);
    } else if p.key == q.key && q.key == r.key {
      LexTransitive(false, p.val, q.val, r.val);
    }
  }

  /** < is transitive on constructible properties, whatever their kinds: with Trichotomy, a
      strict total order. */
  lemma Transitive(signed: bool, p: Property, q: Property, r: Property)
    requires WellSized(p) && WellSized(q) && WellSized(r)
    requires Less(signed, p, q) && Less(signed, q, r)
    ensures Less(signed, p, r)
  {
    hide LexLess, Number, LayoutOf, Encode;
    if Id(p) == Id(q) && Id(q) == Id(r) {
      SameIdSameKind(p, q);
      SameIdSameKind(q, r);
      match p
      case NBytes(_, a) => LexTransitive(signed, a, q.buf, r.buf);
      case Data(_, a) => LexTransitive(false, a, q.data, r.data);
      case Variable(_) =>
      case User(_, _) => UserTransitive(p, q, r);
    }
  }

  // ---------- order and value ----------

  function BigEndian(b: seq<byte>): nat {
    if b == [] then 0 else BigEndian(b[..|b| - 1]) * 256 + b[|b| - 1]
  }

  /** The bytes at the first difference lie on the same side of 0x80. */
  predicate SameSide(a: seq<byte>, b: seq<byte>) {
    if a == [] || b == [] then true
    else if a[0] != b[0] then a[0] < 128 <==> b[0] < 128
    else SameSide(a[1..], b[1..])
  }

  lemma {:induction false} SignMatters(a: seq<byte>, b: seq<byte>)
    ensures LexLess(true, a, b) == LexLess(false, a, b) <==> SameSide(a, b)
  {
    if a != [] && b != [] && a[0] == b[0] {
      SignMatters(a[1..], b[1..]);
    }
  }

  lemma {:induction false} LexSnoc(a: seq<byte>, b: seq<byte>, x: byte, y: byte)
    requires |a| == |b|
    ensures LexLess(false, a + [x], b + [y]) <==> LexLess(false, a, b) || (a == b && x < y)
  {
    if a == [] {
      assert (a + [x])[1..] == [] && (b + [y])[1..] == [];
    } else {
      assert (a + [x])[1..] == a[1..] + [x] && (b + [y])[1..] == b[1..] + [y];
      LexSnoc(a[1..], b[1..], x, y);
      assert a == [a[0]] + a[1..] && b == [b[0]] + b[1..];
    }
  }

  lemma {:induction false} LexIsNumeric(a: seq<byte>, b: seq<byte>)
    requires |a| == |b|
    ensures LexLess(false, a, b) <==> BigEndian(a) < BigEndian(b)
    ensures a == b <==> BigEndian(a) == BigEndian(b)
  {
    if a != [] {
      var a', b' := a[..|a| - 1], b[..|b| - 1];
      var x, y := a[|a| - 1], b[|b| - 1];
      LexIsNumeric(a', b');
      assert a == a' + [x] && b == b' + [y];
      LexSnoc(a', b', x, y);
    }
  }

  lemma NumberOfBytes(b: seq<byte>)
    ensures |b| == 1 ==> BigEndian(b) == b[0]
    ensures |b| == 2 ==> BigEndian(b) == MakeUint16(b)
    ensures |b| == 4 ==> BigEndian(b) == MakeUint32(b)
  {
    if 0 < |b| {
      assert BigEndian(b[..1][..0]) == 0 && BigEndian(b[..1]) == b[0];
      if 2 <= |b| {
        assert b[..2][..1] == b[..1] && BigEndian(b[..2]) == b[0] as int * 256 + b[1];
        if 3 <= |b| {
          assert b[..3][..2] == b[..2] && BigEndian(b[..3]) == BigEndian(b[..2]) * 256 + b[2];
          if |b| == 4 {
            assert b[..4][..3] == b[..3] && b[..4] == b;
            assert b[2..] == [b[2], b[3]] && b[..2] == [b[0], b[1]];
          }
        }
      }
      assert b[..|b|] == b;
    }
  }

  /** Two numeric properties of the same kind are ordered by their values, if `char` is unsigned.
      If it is signed, they are so exactly when the first bytes that differ are both below 0x80
      or both not. */
  lemma OrderByValue(signed: bool, p: Property, q: Property)
    requires WellSized(p) && WellSized(q) && p.NBytes? && Id(p) == Id(q) && ValOf(p).Num? && ValOf(q).Num?
    ensures (Less(signed, p, q) <==> ValOf(p).n < ValOf(q).n) <==> !signed || SameSide(p.buf, q.buf)
  {
    hide LexLess, SameSide, MakeUint16, MakeUint32;
    SameIdSameKind(p, q);
    NumberOfBytes(p.buf);
    NumberOfBytes(q.buf);
    LexIsNumeric(p.buf, q.buf);
    SignMatters(p.buf, q.buf);
  }

  /** An expiry interval of 128 seconds sorts before one of 127, where `char` is signed. */
  lemma SignedSurprise()
    ensures Less(true, NBytes(2, [0, 0, 0, 128]), NBytes(2, [0, 0, 0, 127]))
    ensures ValOf(NBytes(2, [0, 0, 0, 128])) == Num(128) && ValOf(NBytes(2, [0, 0, 0, 127])) == Num(127)
  {
    var a: seq<byte>, b: seq<byte> := [0, 0, 0, 128], [0, 0, 0, 127];
    assert a[1..] == [0, 0, 128] && b[1..] == [0, 0, 127];
    assert a[1..][1..] == [0, 128] && b[1..][1..] == [0, 127];
    assert a[1..][1..][1..] == [128] && b[1..][1..][1..] == [127];
    assert LexLess(true, a[1..][1..][1..], b[1..][1..][1..]);
    assert LexLess(true, a[1..][1..], b[1..][1..]);
    assert LexLess(true, a[1..], b[1..]);
    assert a[..2] == [0, 0] && a[2..] == [0, 128] && b[..2] == [0, 0] && b[2..] == [0, 127];
  }
}
