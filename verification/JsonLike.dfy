/** The escaping printer of string and binary properties (ostream_format::json_like). */
module JsonLike {
  import opened Bytes
  import opened Wrappers

  const BACKSLASH: byte := 92
  const QUOTE: byte := 34

  /** std::hex, lower case. */
  function HexDigit(d: nat): byte
    requires d < 16
  {
    if d < 10 then 48 + d else 87 + d
  }

  /** What is put out for one byte. */
  function Escape(c: byte): (r: seq<byte>)
    ensures r != []
  {
    if c == 92 then [BACKSLASH, 92]
    else if c == 34 then [BACKSLASH, 34]
    else if c == 47 then [BACKSLASH, 47]
    else if c == 8 then [BACKSLASH, 98]
    else if c == 12 then [BACKSLASH, 102]
    else if c == 10 then [BACKSLASH, 110]
    else if c == 13 then [BACKSLASH, 114]
    else if c == 9 then [BACKSLASH, 116]
    else if c < 0x20 || c >= 0x7f then [BACKSLASH, 117, 48, 48, HexDigit(c / 16), HexDigit(c % 16)]
    else [c]
  }

  function Printed(v: seq<byte>): seq<byte> {
    if v == [] then [] else Escape(v[0]) + Printed(v[1..])
  }

  method Print(v: seq<byte>) returns (o: seq<byte>)
    ensures o == Printed(v)
  {
    o := [];
    for i := 0 to |v|
      invariant o + Printed(v[i..]) == Printed(v)
    {
      var c := v[i];
      ghost var rest := Printed(v[i + 1..]);
      assert v[i..][1..] == v[i + 1..];
      Assoc(o, Escape(c), rest);
      if c == 92 { o := o + [BACKSLASH, 92]; }
      else if c == 34 { o := o + [BACKSLASH, 34]; }
      else if c == 47 { o := o + [BACKSLASH, 47]; }
      else if c == 8 { o := o + [BACKSLASH, 98]; }
      else if c == 12 { o := o + [BACKSLASH, 102]; }
      else if c == 10 { o := o + [BACKSLASH, 110]; }
      else if c == 13 { o := o + [BACKSLASH, 114]; }
      else if c == 9 { o := o + [BACKSLASH, 116]; }
      else if c < 0x20 || c >= 0x7f {
        o := o + [BACKSLASH, 117, 48, 48, HexDigit(c / 16), HexDigit(c % 16)];
      } else {
        o := o + [c];
      }
    }
    assert v[|v|..] == [];
    assert o + [] == o;
  }

  /** What is put out for each byte: a backslash and a mnemonic for the seven special ones and the
      slash, four hexadecimal digits for the other control characters and everything from 127 on,
      and the byte itself for the rest. */
  lemma EscapeTable(c: byte)
    ensures var digits: seq<byte> := [48, 49, 50, 51, 52, 53, 54, 55, 56, 57, 97, 98, 99, 100, 101, 102];
            Printed([c]) ==
              (if c == 92 || c == 34 || c == 47 then [92, c]
               else if c == 8 then [92, 98] else if c == 9 then [92, 116] else if c == 10 then [92, 110]
               else if c == 12 then [92, 102] else if c == 13 then [92, 114]
               else if 32 <= c <= 126 then [c]
               else [92, 117, 48, 48, digits[c / 16], digits[c % 16]])
  {
    assert [c][1..] == [];
    assert Printed([c]) == Escape(c) + [] == Escape(c);
  }

  /** A string is printed byte by byte. */
  lemma {:induction false} PrintedAppends(v: seq<byte>, w: seq<byte>)
    ensures Printed(v + w) == Printed(v) + Printed(w)
  {
    hide Escape;
    if v == [] {
      assert v + w == w;
    } else {
      assert (v + w)[1..] == v[1..] + w;
      PrintedAppends(v[1..], w);
      Assoc(Escape(v[0]), Printed(v[1..]), Printed(w));
    }
  }

  // ---------- a reader for the output ----------

  function HexValue(c: byte): Option<nat> {
    if 48 <= c < 58 then Some(c - 48)
    else if 97 <= c < 103 then Some(c - 87)
    else None
  }

  /** The byte that an escape at the front stands for, and how long it is. */
  function Unescape(s: seq<byte>): Option<(byte, nat)>
    requires s != []
  {
    if s[0] != BACKSLASH then Some((s[0], 1))
    else if |s| < 2 then None
    else if s[1] == 92 || s[1] == 34 || s[1] == 47 then Some((s[1], 2))
    else if s[1] == 98 then Some((8, 2))
    else if s[1] == 102 then Some((12, 2))
    else if s[1] == 110 then Some((10, 2))
    else if s[1] == 114 then Some((13, 2))
    else if s[1] == 116 then Some((9, 2))
    else if s[1] != 117 || |s| < 6 || s[2] != 48 || s[3] != 48 then None
    else
      match (HexValue(s[4]), HexValue(s[5]))
      case (Some(hi), Some(lo)) => if hi < 16 && lo < 16 then Some((16 * hi + lo, 6)) else None
      case _ => None
  }

  function Read(s: seq<byte>): Option<seq<byte>>
    decreases |s|
  {
    if s == [] then Some([])
    else
      match Unescape(s)
      case None => None
      case Some((c, len)) =>
        if len == 0 || |s| < len then None
        else
          match Read(s[len..])
          case None => None
          case Some(v) => Some([c] + v)
  }

  // ---------- properties ----------

  lemma UnescapeInverts(c: byte, rest: seq<byte>)
    ensures Unescape(Escape(c) + rest) == Some((c, |Escape(c)|))
  {
  }

  /** Every byte string is recovered from what is printed for it. */
  lemma {:induction false} ReadInverts(v: seq<byte>)
    ensures Read(Printed(v)) == Some(v)
  {
    if v != [] {
      hide Escape, Unescape;
      var rest := Printed(v[1..]);
      UnescapeInverts(v[0], rest);
      assert (Escape(v[0]) + rest)[|Escape(v[0])|..] == rest;
      ReadInverts(v[1..]);
      assert [v[0]] + v[1..] == v;
    }
  }

  /** Different strings are never printed alike. */
  lemma PrintIsInjective(v: seq<byte>, w: seq<byte>)
    requires Printed(v) == Printed(w)
    ensures v == w
  {
    ReadInverts(v);
    ReadInverts(w);
  }

  predicate PrintableAscii(s: seq<byte>) {
    forall i :: 0 <= i < |s| ==> 0x20 <= s[i] < 0x7f
  }

  /** No quote except behind a backslash that is not itself escaped. */
  predicate NoBareQuote(s: seq<byte>) {
    if s == [] then true
    else if s[0] == BACKSLASH then |s| >= 2 && NoBareQuote(s[2..])
    else s[0] != QUOTE && NoBareQuote(s[1..])
  }

  /** The output is printable ASCII and could stand between quotes. */
  lemma {:induction false} OutputIsSafe(v: seq<byte>)
    ensures PrintableAscii(Printed(v)) && NoBareQuote(Printed(v))
  {
    if v != [] {
      OutputIsSafe(v[1..]);
      var e, rest := Escape(v[0]), Printed(v[1..]);
      if |e| == 1 {
        assert (e + rest)[1..] == rest;
      } else if |e| == 2 {
        assert (e + rest)[2..] == rest;
      } else {
        SkipHex(e, rest);
      }
    }
  }

  lemma SkipHex(e: seq<byte>, rest: seq<byte>)
    requires |e| == 6 && e[0] == BACKSLASH && NoBareQuote(rest)
    requires forall i :: 2 <= i < 6 ==> e[i] != BACKSLASH && e[i] != QUOTE
    ensures NoBareQuote(e + rest)
  {
    var s := e + rest;
    assert s[2..][1..] == s[3..] && s[3..][1..] == s[4..] && s[4..][1..] == s[5..] && s[5..][1..] == s[6..];
    assert s[6..] == rest;
    assert NoBareQuote(s[5..]);
    assert NoBareQuote(s[4..]);
    assert NoBareQuote(s[3..]);
    assert NoBareQuote(s[2..]);
  }
}
