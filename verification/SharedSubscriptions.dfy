/**
  shared_subscriptions.hpp: topic filters of shared subscriptions, `$share/name/filter`
  (section 4.8.2 of MQTT v5.0), taken apart, put together and compared.
*/
module SharedSubscriptions {
  import opened Bytes
  import opened Wrappers
  import PropertyOrder

  datatype ShareFilter = ShareFilter(shareName: seq<byte>, topicFilter: seq<byte>)

  const SLASH: byte := 0x2f
  /** "$share/" */
  const PREFIX: seq<byte> := [0x24, 0x73, 0x68, 0x61, 0x72, 0x65, SLASH]

  // ---------- specification ----------

  /** The position of the first slash, or the length. */
  function FirstSlash(s: seq<byte>): (k: nat)
    ensures k <= |s| && (k < |s| ==> s[k] == SLASH)
    ensures forall i :: 0 <= i < k ==> s[i] != SLASH
  {
    if s == [] || s[0] == SLASH then 0 else 1 + FirstSlash(s[1..])
  }

  /** The constructor of share_name_topic_filter asserts that there is a filter. */
  function Make(shareName: seq<byte>, topicFilter: seq<byte>): Result<Option<ShareFilter>> {
    if topicFilter == [] then Failure(Assertion) else Success(Some(ShareFilter(shareName, topicFilter)))
  }

  function ParseOf(s: seq<byte>): Result<Option<ShareFilter>> {
    if !(PREFIX <= s) then Make([], s)
    else
      var t := s[|PREFIX|..];
      var k := FirstSlash(t);
      if k == |t| || k == 0 || k + 1 == |t| then Success(None)
      else Make(t[..k], t[k + 1..])
  }

  predicate Accepted(s: seq<byte>) {
    ParseOf(s).Success? && ParseOf(s).value.Some?
  }

  function PrintOf(p: ShareFilter): seq<byte> {
    if p.shareName == [] then p.topicFilter
    else PREFIX + (p.shareName + ([SLASH] + p.topicFilter))
  }

  // ---------- the program ----------

  method FindFirstOfSlash(s: seq<byte>) returns (k: nat)
    ensures k == FirstSlash(s)
  {
    k := 0;
    while k < |s| && s[k] != SLASH
      invariant k <= |s| && FirstSlash(s) == k + FirstSlash(s[k..])
    {
      k := k + 1;
    }
  }

  method ParseSharedSubscription(whole: seq<byte>) returns (r: Result<Option<ShareFilter>>)
    ensures r == ParseOf(whole)
  {
    var view := new Buffer(whole);
    if |view.data| < |PREFIX| || view.data[..|PREFIX|] != PREFIX {
      return Make([], view.data);
    }
    view.RemovePrefix(|PREFIX|);
    var idx := FindFirstOfSlash(view.data);
    if idx == |view.data| { return Success(None); }
    var shareName := view.data[..idx];
    view.RemovePrefix(if idx + 1 < |view.data| then idx + 1 else |view.data|);
    if |shareName| == 0 || |view.data| == 0 { return Success(None); }
    r := Make(shareName, view.data);
  }

  /** Copies the parts into one array, behind a moving position. */
  method CreateTopicFilterBuffer(shareName: seq<byte>, topicFilter: seq<byte>) returns (r: seq<byte>)
    ensures r == PrintOf(ShareFilter(shareName, topicFilter))
  {
    if |shareName| == 0 { return topicFilter; }
    var a := new byte[|PREFIX| + |shareName| + 1 + |topicFilter|];
    ghost var s := a[..];
    var it := 0;
    CopyInto(a, it, PREFIX);
    it := it + |PREFIX|;
    CopyInto(a, it, shareName);
    OverwriteNext(s, 0, PREFIX, shareName);
    it := it + |shareName|;
    ghost var head := PREFIX + shareName;
    assert a[..] == Overwrite(s, 0, head);
    a[it] := SLASH;
    assert a[..] == Overwrite(Overwrite(s, 0, head), it, [SLASH]);
    OverwriteNext(s, 0, head, [SLASH]);
    it := it + 1;
    CopyInto(a, it, topicFilter);
    OverwriteNext(s, 0, head + [SLASH], topicFilter);
    it := it + |topicFilter|;
    r := a[..it];
    assert r == a[..] == head + [SLASH] + topicFilter;
    Assoc(head, [SLASH], topicFilter);
    Assoc(PREFIX, shareName, [SLASH] + topicFilter);
  }

  // ---------- the syntax of section 4.8.2 ----------

  /** "$share/", a share name, "/" and a topic filter are taken apart, and put together. */
  lemma SharedSyntax(share: seq<byte>, filter: seq<byte>)
    requires |share| > 0 && 0x2f !in share && |filter| > 0
    ensures var prefix: seq<byte> := [0x24, 0x73, 0x68, 0x61, 0x72, 0x65, 0x2f];
            && ParseOf(prefix + (share + ([0x2f] + filter))) == Success(Some(ShareFilter(share, filter)))
            && PrintOf(ShareFilter(share, filter)) == prefix + (share + ([0x2f] + filter))
  {
    PrintParse(ShareFilter(share, filter));
  }

  /** A string that begins otherwise has no share and is the filter itself. */
  lemma PlainSyntax(s: seq<byte>)
    requires |s| > 0 && (|s| < 7 || s[..7] != [0x24, 0x73, 0x68, 0x61, 0x72, 0x65, 0x2f])
    ensures ParseOf(s) == Success(Some(ShareFilter([], s))) && PrintOf(ShareFilter([], s)) == s
  {
    assert PREFIX <= s <==> |s| >= 7 && s[..7] == PREFIX;
  }

  /** And one that begins so is refused without a share name, a second slash or a filter. */
  lemma BadSyntax(t: seq<byte>)
    ensures var s: seq<byte> := [0x24, 0x73, 0x68, 0x61, 0x72, 0x65, 0x2f] + t;
            ParseOf(s) == Success(None) <==>
              0x2f !in t || t[0] == 0x2f || (t[|t| - 1] == 0x2f && 0x2f !in t[..|t| - 1])
  {
    var s := PREFIX + t;
    assert s[7..] == t;
    var k := FirstSlash(t);
    if 0x2f in t {
      var u := t[..|t| - 1];
      assert k < |u| ==> u[k] == 0x2f;
      assert 0x2f in u ==> k < |u|;
    }
  }

  // ---------- inverses ----------

  /** Whatever is parsed prints back to the original string. */
  lemma ParsePrint(s: seq<byte>)
    requires Accepted(s)
    ensures PrintOf(ParseOf(s).value.value) == s
  {
    if PREFIX <= s {
      var t := s[|PREFIX|..];
      var k := FirstSlash(t);
      assert t == t[..k] + ([t[k]] + t[k + 1..]);
      assert s == PREFIX + t;
    }
  }

  /** The pairs that survive printing: a filter is there, and the share name has no slash, or
      there is no share name and the filter does not look like a shared one. */
  predicate Printable(p: ShareFilter) {
    && p.topicFilter != []
    && if p.shareName == [] then !(PREFIX <= p.topicFilter) else SLASH !in p.shareName
  }

  lemma FirstSlashBehind(a: seq<byte>, b: seq<byte>)
    ensures SLASH !in a ==> FirstSlash(a + ([SLASH] + b)) == |a|
    ensures SLASH in a ==> FirstSlash(a + ([SLASH] + b)) < |a|
  {
    var s := a + ([SLASH] + b);
    var k := FirstSlash(s);
    assert s[|a|] == SLASH;
    if SLASH in a {
      var i :| 0 <= i < |a| && a[i] == SLASH;
      assert s[i] == SLASH;
    } else {
      assert forall i :: 0 <= i < |a| ==> s[i] == a[i] && a[i] in a;
    }
  }

  /** Parsing what was printed gives the same pair back exactly for the printable ones. */
  lemma PrintParse(p: ShareFilter)
    ensures ParseOf(PrintOf(p)) == Success(Some(p)) <==> Printable(p)
  {
    if p.shareName != [] {
      var t := p.shareName + ([SLASH] + p.topicFilter);
      assert (PREFIX + t)[|PREFIX|..] == t;
      FirstSlashBehind(p.shareName, p.topicFilter);
      if SLASH !in p.shareName {
        assert t[..|p.shareName|] == p.shareName;
        assert t[|p.shareName| + 1..] == p.topicFilter;
      }
    }
  }

  /** A share name with a slash, a/b with the filter c: what is parsed is a with the filter b/c. */
  lemma SlashMovesOver()
    ensures var p := ShareFilter([0x61, SLASH, 0x62], [0x63]);
            ParseOf(PrintOf(p)) == Success(Some(ShareFilter([0x61], [0x62, SLASH, 0x63])))
  {
    var q := ShareFilter([0x61], [0x62, SLASH, 0x63]);
    PrintParse(q);
    hide ParseOf;
    assert [0x61] + ([SLASH] + [0x62, SLASH, 0x63]) == [0x61, SLASH, 0x62] + ([SLASH] + [0x63]);
  }

  /** A string is accepted exactly when it is the printed form of a printable pair. The empty
      string alone makes the assertion fail. */
  lemma AcceptedIffPrinted(s: seq<byte>)
    ensures Accepted(s) <==> exists p :: Printable(p) && PrintOf(p) == s
    ensures ParseOf(s) == Failure(Assertion) <==> s == []
    ensures ParseOf(s).Failure? ==> s == []
  {
    if Accepted(s) {
      ParsePrint(s);
      PrintParse(ParseOf(s).value.value);
    }
    if exists p :: Printable(p) && PrintOf(p) == s {
      var p :| Printable(p) && PrintOf(p) == s;
      PrintParse(p);
    }
  }

  // ---------- order ----------

  predicate Less(a: ShareFilter, b: ShareFilter) {
    if PropertyOrder.LexLess(false, a.shareName, b.shareName) then true
    else if PropertyOrder.LexLess(false, b.shareName, a.shareName) then false
    else PropertyOrder.LexLess(false, a.topicFilter, b.topicFilter)
  }

  /** Pairs are ordered by the share name, and then by the filter, at the first different byte. */
  lemma ByShareThenFilter(a: ShareFilter, b: ShareFilter)
    ensures Less(a, b) <==>
              || (exists k :: PropertyOrder.LessAt(false, a.shareName, b.shareName, k))
              || (a.shareName == b.shareName
                  && exists k :: PropertyOrder.LessAt(false, a.topicFilter, b.topicFilter, k))
  {
    PropertyOrder.LexIsFirstDifference(false, a.shareName, b.shareName);
    PropertyOrder.LexIsFirstDifference(false, a.topicFilter, b.topicFilter);
    PropertyOrder.LexTrichotomy(false, a.shareName, b.shareName);
    hide PropertyOrder.LexLess, PropertyOrder.LessAt;
  }

  /** < is a strict total order whose equivalence is equality. */
  lemma StrictTotalOrder(a: ShareFilter, b: ShareFilter, c: ShareFilter)
    ensures !(Less(a, b) && Less(b, a))
    ensures !Less(a, b) && !Less(b, a) <==> a == b
    ensures Less(a, b) && Less(b, c) ==> Less(a, c)
  {
    PropertyOrder.LexTrichotomy(false, a.shareName, b.shareName);
    PropertyOrder.LexTrichotomy(false, b.shareName, c.shareName);
    PropertyOrder.LexTrichotomy(false, a.shareName, c.shareName);
    PropertyOrder.LexTrichotomy(false, a.topicFilter, b.topicFilter);
    if Less(a, b) && Less(b, c) {
      if a.shareName == b.shareName == c.shareName {
        PropertyOrder.LexTransitive(false, a.topicFilter, b.topicFilter, c.topicFilter);
      } else if a.shareName != b.shareName && b.shareName != c.shareName {
        PropertyOrder.LexTransitive(false, a.shareName, b.shareName, c.shareName);
      }
    }
  }
}
