/**
  The v5 properties (section 2.2.2 of MQTT v5.0): property.hpp and the dispatch of
  property_variant.hpp. The 27 kinds have five layouts; the identifier byte decides.
*/
module Property {
  import opened Bytes
  import opened Wrappers
  import opened VariableLength

  datatype Layout = Fixed(width: nat) | Text | Binary | VarInt | Pair

  const USER_PROPERTY: byte := 38
  const SUBSCRIPTION_IDENTIFIER: byte := 11

  function LayoutOf(id: byte): Option<Layout> {
    if id == 1 || id == 23 || id == 25 || id == 36 || id == 37 || id == 40 || id == 41 || id == 42 then Some(Fixed(1))
    else if id == 19 || id == 33 || id == 34 || id == 35 then Some(Fixed(2))
    else if id == 2 || id == 17 || id == 24 || id == 39 then Some(Fixed(4))
    else if id == 3 || id == 8 || id == 18 || id == 21 || id == 26 || id == 28 || id == 31 then Some(Text)
    else if id == 9 || id == 22 then Some(Binary)
    else if id == SUBSCRIPTION_IDENTIFIER then Some(VarInt)
    else if id == USER_PROPERTY then Some(Pair)
    else None
  }

  /** n_bytes_property, binary_property and string_property, variable_property, user_property. */
  datatype Property =
    | NBytes(nid: byte, buf: seq<byte>)
    | Data(did: byte, data: seq<byte>)
    | Variable(value: seq<byte>)
    | User(key: seq<byte>, val: seq<byte>)

  function Id(p: Property): byte {
    match p
    case NBytes(id, _) => id
    case Data(id, _) => id
    case Variable(_) => SUBSCRIPTION_IDENTIFIER
    case User(_, _) => USER_PROPERTY
  }

  /** What every constructed property meets: the identifier fits the layout and the lengths fit
      their fields. */
  predicate Storable(p: Property) {
    match p
    case NBytes(id, buf) => LayoutOf(id) == Some(Fixed(|buf|))
    case Data(id, data) => (LayoutOf(id) == Some(Text) || LayoutOf(id) == Some(Binary)) && |data| <= 0xffff
    case Variable(value) => |value| <= 4
    case User(key, val) => |key| <= 0xffff && |val| <= 0xffff
  }

  /** And a subscription identifier holds a number. */
  predicate WellSized(p: Property): (r: bool)
    ensures r ==> Storable(p)
  {
    Storable(p) && (p.Variable? ==> Value(p.value) <= MAX && p.value == Encode(Value(p.value)))
  }

  /** The strings in the property pass the contents check. */
  predicate TextOk(ok: Utf8Check, p: Property) {
    match p
    case Data(id, data) => LayoutOf(id) == Some(Text) ==> ok(data)
    case User(key, val) => ok(key) && ok(val)
    case _ => true
  }

  // ---------- size, flat bytes, scattered buffers ----------

  function Size(p: Property): nat {
    match p
    case NBytes(_, buf) => 1 + |buf|
    case Data(_, data) => 1 + 2 + |data|
    case Variable(value) => 1 + |value|
    case User(key, val) => 1 + (2 + |key|) + (2 + |val|)
  }

  /** A length-prefixed string. */
  function LenStr(s: seq<byte>): (r: seq<byte>)
    requires |s| <= 0xffff
    ensures |r| == 2 + |s|
  {
    TwoBytes(|s|) + s
  }

  /** What follows the identifier byte. */
  function Payload(p: Property): (b: seq<byte>)
    requires Storable(p)
    ensures |b| + 1 == Size(p)
  {
    match p
    case NBytes(_, buf) => buf
    case Data(_, data) => LenStr(data)
    case Variable(value) => value
    case User(key, val) => LenStr(key) + LenStr(val)
  }

  /** The wire format of a property. */
  function PropertyBytes(p: Property): (b: seq<byte>)
    requires Storable(p)
    ensures |b| == Size(p) && b[0] == Id(p)
  {
    [Id(p)] + Payload(p)
  }

  function Buffers(p: Property): seq<seq<byte>>
    requires Storable(p)
  {
    match p
    case NBytes(id, buf) => [[id], buf]
    case Data(id, data) => [[id], TwoBytes(|data|), data]
    case Variable(value) => [[SUBSCRIPTION_IDENTIFIER], value]
    case User(key, val) => [[USER_PROPERTY], TwoBytes(|key|), key, TwoBytes(|val|), val]
  }

  function NumOfConstBufferSequence(p: Property): nat {
    match p
    case NBytes(_, _) => 2
    case Data(_, _) => 2
    case Variable(_) => 2
    case User(_, _) => 1 + 2 + 2
  }

  /** fill: the bytes are written at the front of [b, e), and nothing else is touched. */
  method Fill(p: Property, a: array<byte>, b: nat, e: nat)
    requires Storable(p) && b <= e <= a.Length && e - b >= Size(p)
    modifies a
    ensures a[..] == Overwrite(old(a[..]), b, PropertyBytes(p))
  {
    hide LayoutOf, TwoBytes, Overwrite, LenStr;
    ghost var s := a[..];
    var it := b;
    a[it] := Id(p);
    OverwriteOne(s, b, Id(p));
    it := it + 1;
    match p
    case NBytes(id, buf) =>
      CopyInto(a, it, buf);
      OverwriteNext(s, b, [id], buf);
    case Data(id, data) =>
      FillBlock(s, a, b, [id], it, data);
    case Variable(value) =>
      CopyInto(a, it, value);
      OverwriteNext(s, b, [Id(p)], value);
    case User(key, val) =>
      FillBlock(s, a, b, [Id(p)], it, key);
      it := it + 2 + |key|;
      FillBlock(s, a, b, [Id(p)] + LenStr(key), it, val);
      Assoc([Id(p)], LenStr(key), LenStr(val));
  }

  /** One length and the bytes after it, copied behind `head`, which has been written at `b`. */
  method FillBlock(ghost s: seq<byte>, a: array<byte>, ghost b: nat, ghost head: seq<byte>, at: nat, val: seq<byte>)
    requires |val| <= 0xffff && |s| == a.Length
    requires at == b + |head| && at + 2 + |val| <= a.Length && a[..] == Overwrite(s, b, head)
    modifies a
    ensures a[..] == Overwrite(s, b, head + LenStr(val))
  {
    var it := at;
    var valLen := TwoBytes(|val|);
    CopyInto(a, it, valLen);
    it := it + |valLen|;
    CopyInto(a, it, val);
    OverwriteNext(s, b, head, valLen);
    OverwriteNext(s, b, head + valLen, val);
    Assoc(head, valLen, val);
  }

  method AddConstBufferSequence(p: Property, v: seq<seq<byte>>) returns (r: seq<seq<byte>>)
    requires Storable(p)
    ensures r == v + Buffers(p)
  {
    r := v + [[Id(p)]];
    match p
    case NBytes(_, buf) =>
      r := r + [buf];
    case Data(_, data) =>
      r := r + [TwoBytes(|data|)];
      r := r + [data];
    case Variable(value) =>
      r := r + [value];
    case User(key, val) =>
      r := r + [TwoBytes(|key|)];
      r := r + [key];
      r := r + [TwoBytes(|val|)];
      r := r + [val];
  }

  /** The scattered buffers are the bytes that fill writes, and there are size() of them. */
  lemma ScatterIsFlat(p: Property)
    requires Storable(p)
    ensures Flatten(Buffers(p)) == PropertyBytes(p)
    ensures |Flatten(Buffers(p))| == Size(p)
  {
    match p
    case NBytes(id, buf) => FlattenTwo([id], buf);
    case Data(id, data) => FlattenThree([id], TwoBytes(|data|), data);
    case Variable(value) => FlattenTwo([SUBSCRIPTION_IDENTIFIER], value);
    case User(key, val) =>
      var bufs := Buffers(p);
      FlattenFour(bufs[1], bufs[2], bufs[3], bufs[4]);
      assert bufs[1..] == [bufs[1], bufs[2], bufs[3], bufs[4]];
      Assoc(TwoBytes(|key|), key, LenStr(val));
  }

  /** The announced number of buffers is right except for the string and binary properties,
      which announce two and add three. */
  lemma BufferCount(p: Property)
    requires Storable(p)
    ensures NumOfConstBufferSequence(p) == if p.User? then 5 else 2
    ensures |Buffers(p)| == if p.User? then 5 else if p.Data? then 3 else 2
    ensures NumOfConstBufferSequence(p) == |Buffers(p)| <==> !p.Data?
  {
  }

  // ---------- constructors and val() ----------

  /** The argument of a constructor and the result of val(). A payload format and a bool are flags. */
  datatype Val = Flag(on: bool) | Num(n: nat) | Blob(bytes: seq<byte>) | KeyVal(key: seq<byte>, val: seq<byte>)

  /** The arguments that the static types of the constructors allow. */
  predicate Admits(id: byte, v: Val) {
    match LayoutOf(id)
    case None => false
    case Some(Fixed(w)) =>
      if w == 1 && id != 36 then v.Flag?
      else v.Num? && v.n < (if w == 1 then 0x100 else if w == 2 then 0x1_0000 else 0x1_0000_0000)
    case Some(VarInt) => v.Num?
    case Some(Pair) => v.KeyVal?
    case _ => v.Blob?
  }

  /** The contents check, unless the caller says that the string is already checked. */
  predicate Passes(ok: Utf8Check, alreadyChecked: bool, s: seq<byte>) {
    alreadyChecked || ok(s)
  }

  /** The constructors of the 27 kinds. `checked` is about the string or the key, `valChecked`
      about the value of a user property. */
  function Make(ok: Utf8Check, id: byte, v: Val, checked: bool, valChecked: bool): Result<Property>
    requires Admits(id, v)
  {
    match LayoutOf(id).value
    case Fixed(w) =>
      if v.Flag? then Success(NBytes(id, [if v.on then 1 else 0]))
      else if w == 1 then if v.n > 2 then Failure(PropertyParse) else Success(NBytes(id, [v.n]))
      else if w == 2 then Success(NBytes(id, TwoBytes(v.n)))
      else Success(NBytes(id, FourBytes(v.n)))
    case VarInt => Success(Variable(Encoded(v.n)))
    case Pair =>
      if |v.key| > 0xffff then Failure(NumericCast)
      else if !Passes(ok, checked, v.key) then Failure(Utf8Contents)
      else if |v.val| > 0xffff then Failure(NumericCast)
      else if !Passes(ok, valChecked, v.val) then Failure(Utf8Contents)
      else Success(User(v.key, v.val))
    case layout =>
      if |v.bytes| > 0xffff then Failure(NumericCast)
      else if layout == Text && !Passes(ok, checked, v.bytes) then Failure(Utf8Contents)
      else Success(Data(id, v.bytes))
  }

  /** val(). A payload format is a string unless the byte is 0; a bool is set only by the byte 1. */
  function ValOf(p: Property): Val
    requires p.NBytes? ==> WellSized(p)
  {
    match p
    case NBytes(id, buf) =>
      if id == 1 then Flag(buf[0] != 0)
      else if id == 36 then Num(buf[0])
      else if |buf| == 1 then Flag(buf[0] == 1)
      else if |buf| == 2 then Num(MakeUint16(buf))
      else Num(MakeUint32(buf))
    case Data(_, data) => Blob(data)
    case Variable(value) => Num(Decode(value).0)
    case User(key, val) => KeyVal(key, val)
  }

  /** A constructed property reports the value it was built from, and has the identifier and the
      sizes that its wire format needs. For a subscription identifier that is so exactly up to
      MAX: the constructor accepts more, and stores nothing. */
  lemma MakeVal(ok: Utf8Check, id: byte, v: Val, checked: bool, valChecked: bool)
    requires Admits(id, v) && Make(ok, id, v, checked, valChecked).Success?
    ensures var p := Make(ok, id, v, checked, valChecked).value;
            && Id(p) == id && Storable(p)
            && (WellSized(p) <==> (id == SUBSCRIPTION_IDENTIFIER ==> v.n <= MAX))
            && (WellSized(p) <==> ValOf(p) == v)
            && (!checked && !valChecked ==> TextOk(ok, p))
  {
    match LayoutOf(id).value
    case Fixed(w) =>
      if v.Num? && w > 1 { MakeNumber(w, v.n); }
    case VarInt => MakeIdentifier(v.n);
    case Pair =>
    case _ =>
  }

  /** When a constructor throws, and what: only the maximum QoS checks a number; a string must fit its
      length field and pass the contents check unless it is declared checked, the key of a user
      property before its value. */
  lemma MakeErrors(ok: Utf8Check, id: byte, v: Val, checked: bool, valChecked: bool)
    requires Admits(id, v)
    ensures var r := Make(ok, id, v, checked, valChecked);
            match v
            case Flag(_) => r.Success?
            case Num(n) => r == Failure(PropertyParse) <==> id == 36 && n > 2
            case Blob(s) =>
              && (r == Failure(NumericCast) <==> |s| > 0xffff)
              && (r == Failure(Utf8Contents) <==>
                    |s| <= 0xffff && id in {3, 8, 18, 21, 26, 28, 31} && !checked && !ok(s))
            case KeyVal(k, w) =>
              var key := |k| <= 0xffff && (checked || ok(k));
              && (r == Failure(NumericCast) <==> |k| > 0xffff || (key && |w| > 0xffff))
              && (r == Failure(Utf8Contents) <==>
                    (|k| <= 0xffff && !key) || (key && |w| <= 0xffff && !valChecked && !ok(w)))
    ensures var r := Make(ok, id, v, checked, valChecked);
            r.Failure? ==> r.error == PropertyParse || r.error == NumericCast || r.error == Utf8Contents
  {
  }

  /** val() of any stored bytes, whoever built or sent them. */
  lemma ValOfStored(id: byte, buf: seq<byte>)
    requires Storable(NBytes(id, buf))
    ensures id == 1 ==> ValOf(NBytes(id, buf)) == Flag(buf[0] != 0)
    ensures id == 36 ==> ValOf(NBytes(id, buf)) == Num(buf[0])
    ensures id in {23, 25, 37, 40, 41, 42} ==> ValOf(NBytes(id, buf)) == Flag(buf[0] == 1)
    ensures id in {19, 33, 34, 35} ==> ValOf(NBytes(id, buf)) == Num(buf[0] as int * 256 + buf[1])
    ensures id in {2, 17, 24, 39} ==>
              ValOf(NBytes(id, buf)) == Num(buf[0] as int * 0x100_0000 + buf[1] as int * 0x1_0000
                                            + buf[2] as int * 0x100 + buf[3])
  {
    hide MakeUint32;
    if |buf| == 4 {
      assert MakeUint32(buf) == MakeUint16(buf[..2]) as int * 0x1_0000 + MakeUint16(buf[2..]) by { Halves(buf); }
    }
  }

  /** And of the other kinds. */
  lemma ValOfOthers(id: byte, data: seq<byte>, key: seq<byte>, val: seq<byte>)
    ensures ValOf(Data(id, data)) == Blob(data) && ValOf(User(key, val)) == KeyVal(key, val)
    ensures ValOf(Variable(data)) == Num(Decode(data).0)
  {
  }

  /** What the constructors store: 0 or 1 for a flag, a number most significant byte first, strings
      as they are, and a number up to 0xfffffff as its encoding. */
  lemma MakeStores(ok: Utf8Check, id: byte, v: Val, checked: bool, valChecked: bool)
    requires Admits(id, v) && Make(ok, id, v, checked, valChecked).Success?
    ensures var p := Make(ok, id, v, checked, valChecked).value;
            match v
            case Flag(on) => p == NBytes(id, if on then [1] else [0])
            case Num(n) =>
              p == (if id == 36 then NBytes(id, [n])
                    else if id in {19, 33, 34, 35} then NBytes(id, [n / 256, n % 256])
                    else if id in {2, 17, 24, 39} then
                      NBytes(id, [n / 0x100_0000, n / 0x1_0000 % 256, n / 0x100 % 256, n % 256])
                    else Variable(if n <= 0xfff_ffff then Encode(n) else []))
            case Blob(s) => p == Data(id, s)
            case KeyVal(k, w) => p == User(k, w)
  {
    hide Encode;
    if v.Num? && id in {2, 17, 24, 39} { ShiftedBytes(v.n); }
  }

  lemma Halves(b: seq<byte>)
    requires |b| == 4
    ensures MakeUint32(b) == MakeUint16(b[..2]) as int * 0x1_0000 + MakeUint16(b[2..])
  {
  }

  lemma MakeNumber(w: nat, n: nat)
    requires (w == 2 && n < 0x1_0000) || (w == 4 && n < 0x1_0000_0000)
    ensures w == 2 ==> MakeUint16(TwoBytes(n)) == n
    ensures w == 4 ==> MakeUint32(FourBytes(n)) == n
  {
    if w == 2 { Uint16RoundTrip(n, [0, 0]); } else { Uint32RoundTrip(n, [0, 0, 0, 0]); }
  }

  lemma MakeIdentifier(n: nat)
    ensures var p := Variable(Encoded(n));
            && Storable(p) && (WellSized(p) <==> n <= MAX) && (ValOf(p) == Num(n) <==> n <= MAX)
  {
    if n <= MAX {
      RoundTrip(n, []);
      ChainOfEncoding(n, []);
      assert Encode(n) + [] == Encode(n);
    } else {
      assert Encode(Value([])) == [0];
    }
  }

  /** The strings of a constructed property pass the contents check, except for those that the
      caller has declared checked and that do not. */
  lemma MakeChecks(ok: Utf8Check, id: byte, v: Val, checked: bool, valChecked: bool)
    requires Admits(id, v) && Make(ok, id, v, checked, valChecked).Success?
    ensures TextOk(ok, Make(ok, id, v, checked, valChecked).value) <==>
              match LayoutOf(id).value
              case Text => ok(v.bytes) || !checked
              case Pair => (ok(v.key) || !checked) && (ok(v.val) || !valChecked)
              case _ => true
  {
  }
}
