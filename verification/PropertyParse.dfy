/**
  property_parse.hpp: one property is read off the front of a buffer, and a list is read until
  that fails. parse_one swallows property_parse_error alone, so a string that fails its contents
  check ends the whole parse with an exception: three outcomes.
*/
module PropertyParse {
  import opened Bytes
  import opened Wrappers
  import opened VariableLength
  import opened Property

  datatype Outcome = Parsed(property: Property) | Nothing | Throws

  // ---------- specification ----------

  /** A length-prefixed string at the front, and what follows. */
  function TakeString(t: seq<byte>): Option<(seq<byte>, seq<byte>)> {
    if |t| < 2 then None
    else
      var len := MakeUint16(t[..2]);
      if |t[2..]| < len then None else Some((t[2..][..len], t[2..][len..]))
  }

  /** A property with the bytes `t` after its identifier. The second component is the buffer
      afterwards; a failure leaves it where it was noticed. */
  function ParseLayout(ok: Utf8Check, id: byte, layout: Layout, t: seq<byte>): (Outcome, seq<byte>) {
    match layout
    case Fixed(w) =>
      if |t| < w then (Nothing, t) else (Parsed(NBytes(id, t[..w])), t[w..])
    case VarInt =>
      var (val, consumed) := Decode(t);
      if consumed == 0 then (Nothing, t) else (Parsed(Variable(Encoded(val))), t[consumed..])
    case Pair => (
      match TakeString(t)
      case None => (Nothing, t)
      case Some((key, u)) =>
        match TakeString(u)
        case None => (Nothing, u)
        case Some((val, rest)) =>
          if ok(key) && ok(val) then (Parsed(User(key, val)), rest) else (Throws, u)
    )
    case _ =>
      match TakeString(t)
      case None => (Nothing, t)
      case Some((data, rest)) =>
        if layout == Text && !ok(data) then (Throws, t) else (Parsed(Data(id, data)), rest)
  }

  function ParseOneOf(ok: Utf8Check, s: seq<byte>): (Outcome, seq<byte>) {
    if s == [] then (Nothing, s)
    else if LayoutOf(s[0]) == None then (Nothing, s[1..])
    else ParseLayout(ok, s[0], LayoutOf(s[0]).value, s[1..])
  }

  /** The properties read until the first failure; None if an exception escapes. */
  function ParseOf(ok: Utf8Check, s: seq<byte>): Option<seq<Property>>
    decreases |s|
  {
    match ParseOneOf(ok, s)
    case (Nothing, _) => Some([])
    case (Throws, _) => None
    case (Parsed(p), rest) =>
      Progress(ok, s);
      match ParseOf(ok, rest)
      case None => None
      case Some(ps) => Some([p] + ps)
  }

  // ---------- the parser ----------

  /** parse_one: the buffer shrinks in place. The branches are grouped by layout. */
  method ParseOne(ok: Utf8Check, buf: Buffer) returns (r: Outcome)
    modifies buf
    ensures (r, buf.data) == ParseOneOf(ok, old(buf.data))
  {
    if |buf.data| == 0 { return Nothing; }
    var id := buf.data[0];
    buf.RemovePrefix(1);
    var layout := LayoutOf(id);
    if layout == None { return Nothing; }
    match layout.value
    case Fixed(w) =>
      if |buf.data| < w { return Nothing; }
      r := Parsed(NBytes(id, buf.data[..w]));
      buf.RemovePrefix(w);
    case VarInt =>
      var val, consumed := VariableLengthRange(buf.data, 0, |buf.data|);
      assert buf.data[0..|buf.data|] == buf.data;
      if consumed == 0 { return Nothing; }
      var value := VariablePush([], val);
      assert value == Encoded(val);
      r := Parsed(Variable(value));
      buf.RemovePrefix(consumed);
    case Pair =>
      r := ParsePair(ok, buf);
    case _ =>
      if |buf.data| < 2 { return Nothing; }
      var len: nat := MakeUint16(buf.data[..2]);
      if |buf.data| < 2 + len { return Nothing; }
      var data := buf.data[2..][..len];
      if layout.value == Text && !ok(data) { return Throws; }
      buf.RemovePrefix(2);
      buf.RemovePrefix(len);
      r := Parsed(Data(id, data));
  }

  method ParsePair(ok: Utf8Check, buf: Buffer) returns (r: Outcome)
    modifies buf
    ensures (r, buf.data) == ParseLayout(ok, USER_PROPERTY, Pair, old(buf.data))
  {
    if |buf.data| < 2 { return Nothing; }
    var keyLen: nat := MakeUint16(buf.data[..2]);
    if |buf.data| < 2 + keyLen { return Nothing; }
    var key := buf.data[2..][..keyLen];
    buf.RemovePrefix(2);
    buf.RemovePrefix(keyLen);

    if |buf.data| < 2 { return Nothing; }
    var valLen: nat := MakeUint16(buf.data[..2]);
    if |buf.data| < 2 + valLen { return Nothing; }
    var val := buf.data[2..][..valLen];
    if !ok(key) || !ok(val) { return Throws; }
    buf.RemovePrefix(2);
    buf.RemovePrefix(valLen);
    r := Parsed(User(key, val));
  }

  /** The list so far, followed by what the rest of the parse gives. */
  function Prepend(list: seq<Property>, rest: Option<seq<Property>>): Option<seq<Property>> {
    if rest == None then None else Some(list + rest.value)
  }

  lemma ParseStep(ok: Utf8Check, s: seq<byte>, list: seq<Property>)
    ensures match ParseOneOf(ok, s)
            case (Nothing, _) => Prepend(list, ParseOf(ok, s)) == Some(list)
            case (Throws, _) => Prepend(list, ParseOf(ok, s)) == None
            case (Parsed(p), rest) =>
              |rest| < |s| && Prepend(list, ParseOf(ok, s)) == Prepend(list + [p], ParseOf(ok, rest))
  {
    hide ParseOneOf;
    Progress(ok, s);
    if ParseOneOf(ok, s).0.Parsed? {
      var (r, rest) := ParseOneOf(ok, s);
      if ParseOf(ok, rest).Some? {
        var ps := ParseOf(ok, rest).value;
        assert list + ([r.property] + ps) == list + [r.property] + ps;
      }
    } else {
      assert list + [] == list;
    }
  }

  method Parse(ok: Utf8Check, data: seq<byte>) returns (props: Option<seq<Property>>)
    ensures props == ParseOf(ok, data)
  {
    hide ParseOneOf, ParseOf;
    var buf := new Buffer(data);
    var list: seq<Property> := [];
    if ParseOf(ok, data).Some? { assert [] + ParseOf(ok, data).value == ParseOf(ok, data).value; }
    while true
      invariant fresh(buf)
      invariant ParseOf(ok, data) == Prepend(list, ParseOf(ok, buf.data))
      decreases |buf.data|
    {
      ParseStep(ok, buf.data, list);
      var ret := ParseOne(ok, buf);
      if ret.Nothing? { return Some(list); }
      if ret.Throws? { return None; }
      list := list + [ret.property];
    }
  }

  // ---------- the table of identifiers ----------

  /** A number of fixed size: its bytes are taken as they are; fewer are not a property. */
  lemma ReadsNumber(ok: Utf8Check, id: byte, t: seq<byte>)
    requires id in {1, 23, 25, 36, 37, 40, 41, 42} + {19, 33, 34, 35} + {2, 17, 24, 39}
    ensures var w := if id in {1, 23, 25, 36, 37, 40, 41, 42} then 1 else if id in {19, 33, 34, 35} then 2 else 4;
            ParseOneOf(ok, [id] + t) == if |t| < w then (Nothing, t) else (Parsed(NBytes(id, t[..w])), t[w..])
  {
    assert ([id] + t)[1..] == t;
  }

  /** A string or binary: two length bytes, high byte first, and as many bytes; fewer are not a
      property. A string that fails the contents check throws. */
  lemma ReadsText(ok: Utf8Check, id: byte, t: seq<byte>)
    requires id in {3, 8, 18, 21, 26, 28, 31} + {9, 22}
    ensures |t| < 2 ==> ParseOneOf(ok, [id] + t) == (Nothing, t)
    ensures |t| >= 2 ==>
              var end: nat := 2 + t[0] as int * 256 + t[1] as int;
              ParseOneOf(ok, [id] + t) ==
                if |t| < end then (Nothing, t)
                else if id in {3, 8, 18, 21, 26, 28, 31} && !ok(t[2..end]) then (Throws, t)
                else (Parsed(Data(id, t[2..end])), t[end..])
  {
    assert ([id] + t)[1..] == t;
    TakenByOffset(t);
    hide TakeString;
  }

  lemma TakenByOffset(t: seq<byte>)
    ensures |t| < 2 ==> TakeString(t) == None
    ensures |t| >= 2 ==>
              var end: nat := 2 + t[0] as int * 256 + t[1] as int;
              TakeString(t) == if |t| < end then None else Some((t[2..end], t[end..]))
  {
    if |t| >= 2 {
      var len: nat := MakeUint16(t[..2]);
      if |t| >= 2 + len {
        assert t[2..][..len] == t[2..2 + len] && t[2..][len..] == t[2 + len..];
      }
    }
  }

  /** A subscription identifier: a variable byte integer, which is stored in its canonical form. */
  lemma ReadsIdentifier(ok: Utf8Check, t: seq<byte>)
    ensures var (n, consumed) := Decode(t);
            ParseOneOf(ok, [11] + t) ==
              if consumed == 0 then (Nothing, t) else (Parsed(Variable(Encode(n))), t[consumed..])
  {
    assert ([11] + t)[1..] == t;
    DecodeBounds(t);
    hide Decode, Encode;
  }

  /** A user property: key and value, each with two length bytes, and both are checked before
      either is taken for a property. */
  lemma ReadsPair(ok: Utf8Check, t: seq<byte>)
    ensures |t| < 2 ==> ParseOneOf(ok, [38] + t) == (Nothing, t)
    ensures |t| >= 2 ==>
              var keyEnd: nat := 2 + t[0] as int * 256 + t[1] as int;
              if |t| < keyEnd then ParseOneOf(ok, [38] + t) == (Nothing, t)
              else
                var u := t[keyEnd..];
                if |u| < 2 then ParseOneOf(ok, [38] + t) == (Nothing, u)
                else
                  var valEnd: nat := 2 + u[0] as int * 256 + u[1] as int;
                  ParseOneOf(ok, [38] + t) ==
                    if |u| < valEnd then (Nothing, u)
                    else if !ok(t[2..keyEnd]) || !ok(u[2..valEnd]) then (Throws, u)
                    else (Parsed(User(t[2..keyEnd], u[2..valEnd])), u[valEnd..])
  {
    assert ([38] + t)[1..] == t;
    TakenByOffset(t);
    if |t| >= 2 {
      var keyEnd: nat := 2 + t[0] as int * 256 + t[1] as int;
      if |t| >= keyEnd { TakenByOffset(t[keyEnd..]); }
    }
    hide TakeString;
  }

  /** Any other first byte is no property, and neither is an empty buffer. */
  lemma ReadsNothingElse(ok: Utf8Check, id: byte, t: seq<byte>)
    requires id !in {1, 2, 3, 8, 9, 11, 17, 18, 19, 21, 22, 23, 24, 25, 26, 28, 31, 33, 34, 35, 36, 37, 38, 39,
                     40, 41, 42}
    ensures ParseOneOf(ok, [id] + t) == (Nothing, t) && ParseOneOf(ok, []) == (Nothing, [])
  {
    assert ([id] + t)[1..] == t;
  }

  // ---------- progress and conservation ----------

  lemma TakeStringSplits(t: seq<byte>)
    requires TakeString(t).Some?
    ensures var (s, rest) := TakeString(t).value;
            |s| <= 0xffff && t == LenStr(s) + rest
  {
    var (s, rest) := TakeString(t).value;
    Uint16RoundTrip(|s|, t[..2]);
    assert t == t[..2] + t[2..];
    assert t[2..] == s + rest;
    Assoc(t[..2], s, rest);
  }

  predicate IsSuffix(u: seq<byte>, s: seq<byte>) {
    |u| <= |s| && u == s[|s| - |u|..]
  }

  lemma SuffixOfSuffix(s: seq<byte>, t: seq<byte>, u: seq<byte>)
    requires IsSuffix(t, s) && IsSuffix(u, t)
    ensures IsSuffix(u, s)
  {
  }

  lemma DropIsSuffix(s: seq<byte>, k: nat)
    requires k <= |s|
    ensures IsSuffix(s[k..], s)
  {
  }

  lemma TakeStringSuffix(t: seq<byte>)
    requires TakeString(t).Some?
    ensures IsSuffix(TakeString(t).value.1, t)
  {
    hide IsSuffix, MakeUint16;
    var len: nat := MakeUint16(t[..2]);
    DropIsSuffix(t, 2);
    DropIsSuffix(t[2..], len);
    SuffixOfSuffix(t, t[2..], t[2..][len..]);
  }

  lemma LayoutProgress(ok: Utf8Check, id: byte, layout: Layout, t: seq<byte>)
    ensures IsSuffix(ParseLayout(ok, id, layout, t).1, t)
  {
    hide IsSuffix, TakeString, Decode;
    DropIsSuffix(t, 0);
    assert t[0..] == t;
    match layout
    case Fixed(w) => if |t| >= w { DropIsSuffix(t, w); }
    case VarInt => DropIsSuffix(t, Decode(t).1);
    case Pair =>
      if TakeString(t).Some? {
        TakeStringSuffix(t);
        var u := TakeString(t).value.1;
        if TakeString(u).Some? {
          TakeStringSuffix(u);
          SuffixOfSuffix(t, u, TakeString(u).value.1);
        }
      }
    case _ => if TakeString(t).Some? { TakeStringSuffix(t); }
  }

  /** The buffer is always left at a suffix of itself, and a property costs at least a byte. */
  lemma Progress(ok: Utf8Check, s: seq<byte>)
    ensures var (r, rest) := ParseOneOf(ok, s);
            && IsSuffix(rest, s)
            && (s != [] ==> |rest| < |s|)
            && (r.Parsed? ==> |rest| < |s|)
  {
    hide ParseLayout, LayoutOf;
    if s != [] {
      DropIsSuffix(s, 1);
      if LayoutOf(s[0]).Some? {
        LayoutProgress(ok, s[0], LayoutOf(s[0]).value, s[1..]);
        SuffixOfSuffix(s, s[1..], ParseOneOf(ok, s).1);
      }
    }
  }

  /** How many bytes a subscription identifier takes, as against its canonical form. */
  ghost predicate CanonicalVarInt(t: seq<byte>) {
    Canonical(t[..Decode(t).1])
  }

  lemma LayoutConserves(ok: Utf8Check, id: byte, t: seq<byte>)
    requires LayoutOf(id).Some? && LayoutOf(id) != Some(VarInt)
    requires ParseLayout(ok, id, LayoutOf(id).value, t).0.Parsed?
    ensures var (r, rest) := ParseLayout(ok, id, LayoutOf(id).value, t);
            var p := r.property;
            Id(p) == id && !p.Variable? && WellSized(p) && TextOk(ok, p) && t == Payload(p) + rest
  {
    hide LenStr, TakeString;
    match LayoutOf(id).value
    case Fixed(w) =>
      assert t == t[..w] + t[w..];
    case Pair =>
      TakeStringSplits(t);
      var (key, u) := TakeString(t).value;
      TakeStringSplits(u);
      var (val, rest) := TakeString(u).value;
      Assoc(LenStr(key), LenStr(val), rest);
    case _ =>
      TakeStringSplits(t);
  }

  /** A property that is read is well formed, and takes at least size() bytes: exactly as many,
      and exactly its wire format, unless it is a subscription identifier whose number was not
      written canonically. */
  lemma Conservation(ok: Utf8Check, s: seq<byte>)
    requires ParseOneOf(ok, s).0.Parsed?
    ensures var (r, rest) := ParseOneOf(ok, s);
            var p := r.property;
            && WellSized(p) && TextOk(ok, p)
            && |s| - |rest| >= Size(p)
            && (s == PropertyBytes(p) + rest <==> (p.Variable? ==> CanonicalVarInt(s[1..])))
            && (!p.Variable? ==> |s| - |rest| == Size(p))
  {
    var t := s[1..];
    if LayoutOf(s[0]) == Some(VarInt) {
      ConserveVarInt(s);
    } else {
      hide ParseLayout, WellSized, TextOk, Payload, LayoutOf, Size;
      LayoutConserves(ok, s[0], t);
      var (r, rest) := ParseOneOf(ok, s);
      assert s == [s[0]] + t;
      Assoc([s[0]], Payload(r.property), rest);
    }
  }

  lemma SameFront(h: byte, x: seq<byte>, c: seq<byte>, rest: seq<byte>)
    ensures [h] + x + rest == [h] + (c + rest) <==> x == c
  {
    var l, r := [h] + x + rest, [h] + (c + rest);
    if l == r {
      assert |x| == |c|;
      assert x == l[1..1 + |x|] && c == r[1..1 + |c|];
    } else if x == c {
      Assoc([h], x, rest);
    }
  }

  lemma ConserveVarInt(s: seq<byte>)
    requires s != [] && s[0] == SUBSCRIPTION_IDENTIFIER && Decode(s[1..]).1 > 0
    ensures var (val, consumed) := Decode(s[1..]);
            var p := Variable(Encoded(val));
            && WellSized(p) && Size(p) <= 1 + consumed
            && (s == PropertyBytes(p) + s[1..][consumed..] <==> CanonicalVarInt(s[1..]))
  {
    var t := s[1..];
    var (val, consumed) := Decode(t);
    var c, rest := t[..consumed], t[consumed..];
    assert val == Value(c);
    DecodeBounds(t);
    hide Chain, Decode, Value, Encode, Canonical;
    MakeIdentifier(val);
    ReencodeIffCanonical(c);
    SameFront(s[0], Encode(val), c, rest);
    assert t == c + rest && s == [s[0]] + t;
  }

  function TotalSize(ps: seq<Property>): nat {
    if ps == [] then 0 else Size(ps[0]) + TotalSize(ps[1..])
  }

  ghost predicate AllWellSized(ps: seq<Property>) {
    forall i :: 0 <= i < |ps| ==> WellSized(ps[i])
  }

  ghost predicate AllTextOk(ok: Utf8Check, ps: seq<Property>) {
    forall i :: 0 <= i < |ps| ==> TextOk(ok, ps[i])
  }

  ghost function ListBytes(ps: seq<Property>): seq<byte>
    requires AllWellSized(ps)
  {
    if ps == [] then [] else PropertyBytes(ps[0]) + ListBytes(ps[1..])
  }

  /** A parsed list never claims more bytes than there were, and without subscription
      identifiers its serialized form is a prefix of the input. */
  lemma {:induction false} ListConservation(ok: Utf8Check, s: seq<byte>)
    requires ParseOf(ok, s).Some?
    ensures var ps := ParseOf(ok, s).value;
            && AllWellSized(ps) && AllTextOk(ok, ps) && TotalSize(ps) <= |s|
            && ((forall i :: 0 <= i < |ps| ==> !ps[i].Variable?) ==> ListBytes(ps) <= s)
    decreases |s|
  {
    if ParseOneOf(ok, s).0.Parsed? {
      hide ParseOneOf, PropertyBytes, WellSized, TextOk, Size;
      var (r, rest) := ParseOneOf(ok, s);
      Progress(ok, s);
      Conservation(ok, s);
      ListConservation(ok, rest);
      var ps := ParseOf(ok, s).value;
      var tail := ParseOf(ok, rest).value;
      assert ps[0] == r.property && ps[1..] == tail;
      assert forall i :: 0 < i < |ps| ==> ps[i] == tail[i - 1];
      if forall i :: 0 <= i < |ps| ==> !ps[i].Variable? {
        assert forall i :: 0 <= i < |tail| ==> tail[i] == ps[i + 1];
        assert ListBytes(tail) <= rest;
        assert s == PropertyBytes(ps[0]) + rest;
      }
    }
  }

  // ---------- parse after print ----------

  lemma TakeStringInverts(s: seq<byte>, rest: seq<byte>)
    requires |s| <= 0xffff
    ensures TakeString(LenStr(s) + rest) == Some((s, rest))
  {
    var t := LenStr(s) + rest;
    Uint16RoundTrip(|s|, [0, 0]);
    assert t[..2] == TwoBytes(|s|);
    assert t[2..] == s + rest;
    assert (s + rest)[..|s|] == s && (s + rest)[|s|..] == rest;
  }

  lemma DataInverts(ok: Utf8Check, layout: Layout, id: byte, data: seq<byte>, rest: seq<byte>)
    requires |data| <= 0xffff && (layout == Text || layout == Binary)
    ensures ParseLayout(ok, id, layout, LenStr(data) + rest) ==
              if layout == Text && !ok(data) then (Throws, LenStr(data) + rest) else (Parsed(Data(id, data)), rest)
  {
    hide TakeString, LenStr;
    TakeStringInverts(data, rest);
  }

  lemma PairInverts(ok: Utf8Check, key: seq<byte>, val: seq<byte>, rest: seq<byte>)
    requires |key| <= 0xffff && |val| <= 0xffff
    ensures ParseLayout(ok, USER_PROPERTY, Pair, LenStr(key) + (LenStr(val) + rest)) ==
              if ok(key) && ok(val) then (Parsed(User(key, val)), rest) else (Throws, LenStr(val) + rest)
  {
    hide TakeString, LenStr;
    TakeStringInverts(key, LenStr(val) + rest);
    TakeStringInverts(val, rest);
  }

  lemma VarIntInverts(ok: Utf8Check, n: nat, rest: seq<byte>)
    requires n <= MAX
    ensures ParseLayout(ok, SUBSCRIPTION_IDENTIFIER, VarInt, Encode(n) + rest) == (Parsed(Variable(Encode(n))), rest)
  {
    hide Encode, Decode;
    RoundTrip(n, rest);
    assert (Encode(n) + rest)[|Encode(n)|..] == rest;
  }

  lemma LayoutInverts(ok: Utf8Check, p: Property, rest: seq<byte>)
    requires WellSized(p)
    ensures LayoutOf(Id(p)).Some?
    ensures var (r, t) := ParseLayout(ok, Id(p), LayoutOf(Id(p)).value, Payload(p) + rest);
            if TextOk(ok, p) then r == Parsed(p) && t == rest else r == Throws
  {
    hide LenStr, Encode, Decode, TakeString;
    match p
    case NBytes(id, buf) =>
      assert (buf + rest)[..|buf|] == buf && (buf + rest)[|buf|..] == rest;
    case Data(id, data) => DataInverts(ok, LayoutOf(id).value, id, data, rest);
    case Variable(value) => VarIntInverts(ok, Value(value), rest);
    case User(key, val) =>
      Assoc(LenStr(key), LenStr(val), rest);
      PairInverts(ok, key, val, rest);
  }

  /** A serialized property is read back as it was, whatever follows, exactly when its strings
      pass the contents check; otherwise the parse throws. */
  lemma ParseOneInverts(ok: Utf8Check, p: Property, rest: seq<byte>)
    requires WellSized(p)
    ensures TextOk(ok, p) ==> ParseOneOf(ok, PropertyBytes(p) + rest) == (Parsed(p), rest)
    ensures !TextOk(ok, p) ==> ParseOneOf(ok, PropertyBytes(p) + rest).0 == Throws
  {
    hide ParseLayout, Payload, WellSized, TextOk, LayoutOf;
    LayoutInverts(ok, p, rest);
    assert (PropertyBytes(p) + rest)[1..] == Payload(p) + rest;
  }

  /** The list round trip, with anything behind it: a list of properties is recovered in order
      from its concatenated bytes, and the parse goes on with what follows. */
  lemma {:induction false} ParseInvertsBefore(ok: Utf8Check, ps: seq<Property>, rest: seq<byte>)
    requires AllWellSized(ps) && AllTextOk(ok, ps)
    ensures ParseOf(ok, ListBytes(ps) + rest) == Prepend(ps, ParseOf(ok, rest))
  {
    hide ParseOneOf, PropertyBytes, WellSized, TextOk;
    if ps == [] {
      assert [] + rest == rest;
      if ParseOf(ok, rest).Some? { assert [] + ParseOf(ok, rest).value == ParseOf(ok, rest).value; }
    } else {
      var tail := ListBytes(ps[1..]) + rest;
      Assoc(PropertyBytes(ps[0]), ListBytes(ps[1..]), rest);
      ParseOneInverts(ok, ps[0], tail);
      ParseInvertsBefore(ok, ps[1..], rest);
      if ParseOf(ok, rest).Some? {
        assert [ps[0]] + (ps[1..] + ParseOf(ok, rest).value) == ps + ParseOf(ok, rest).value;
      }
    }
  }

  /** The list ends, and is returned, where no property can be read; an exception there loses it. */
  lemma ParseEnds(ok: Utf8Check, ps: seq<Property>, rest: seq<byte>)
    requires AllWellSized(ps) && AllTextOk(ok, ps)
    ensures ParseOneOf(ok, rest).0 == Nothing ==> ParseOf(ok, ListBytes(ps) + rest) == Some(ps)
    ensures ParseOneOf(ok, rest).0 == Throws ==> ParseOf(ok, ListBytes(ps) + rest) == None
  {
    hide ParseOneOf, PropertyBytes, WellSized, TextOk;
    ParseInvertsBefore(ok, ps, rest);
    assert ps + [] == ps;
  }

  lemma AllTextOkCons(ok: Utf8Check, ps: seq<Property>)
    requires ps != []
    ensures AllTextOk(ok, ps) <==> TextOk(ok, ps[0]) && AllTextOk(ok, ps[1..])
  {
    hide TextOk;
    if AllTextOk(ok, ps[1..]) && TextOk(ok, ps[0]) {
      forall i | 0 <= i < |ps| ensures TextOk(ok, ps[i]) {
        if i > 0 { assert ps[i] == ps[1..][i - 1]; }
      }
    }
  }

  /** The list round trip: it succeeds exactly when every string passes the contents check, and
      otherwise the exception escapes. */
  lemma {:induction false} ParseInverts(ok: Utf8Check, ps: seq<Property>)
    requires AllWellSized(ps)
    ensures ParseOf(ok, ListBytes(ps)) == if AllTextOk(ok, ps) then Some(ps) else None
  {
    if ps != [] {
      hide ParseOneOf, PropertyBytes, WellSized, TextOk, AllTextOk;
      ParseOneInverts(ok, ps[0], ListBytes(ps[1..]));
      ParseInverts(ok, ps[1..]);
      if !TextOk(ok, ps[0]) { assert ParseOneOf(ok, ListBytes(ps)).0 == Throws; }
      AllTextOkCons(ok, ps);
      assert [ps[0]] + ps[1..] == ps;
    }
  }

  /** Parsing normalises: printing what was parsed and parsing it again changes nothing. */
  lemma ParseNormalises(ok: Utf8Check, s: seq<byte>)
    requires ParseOf(ok, s).Some?
    ensures AllWellSized(ParseOf(ok, s).value)
    ensures ParseOf(ok, ListBytes(ParseOf(ok, s).value)) == ParseOf(ok, s)
  {
    ListConservation(ok, s);
    ParseInverts(ok, ParseOf(ok, s).value);
  }

  /** What the oversized subscription identifier costs: it is written as its bare identifier
      byte, and whoever reads it takes the bytes behind it as the number. It is read as a property
      exactly if those bytes start with a chain of one to four. */
  lemma OversizedIdentifier(ok: Utf8Check, n: nat, rest: seq<byte>)
    requires n > MAX
    ensures var p := Variable([]);
            var (val, consumed) := Decode(rest);
            && Make(ok, SUBSCRIPTION_IDENTIFIER, Num(n), false, false) == Success(p)
            && PropertyBytes(p) == [SUBSCRIPTION_IDENTIFIER] && Size(p) == 1
            && ParseOneOf(ok, PropertyBytes(p) + rest) ==
                 if rest == [] || Chain(rest) > 4 then (Nothing, rest)
                 else (Parsed(Variable(Encoded(val))), rest[consumed..])
  {
    hide Chain;
    DecodeBounds(rest);
    assert ([SUBSCRIPTION_IDENTIFIER] + rest)[1..] == rest;
  }
}
