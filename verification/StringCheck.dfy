/** string_check.hpp: the length check, then the contents check. */
module StringCheck {
  import opened Bytes
  import opened Wrappers
  import Utf8

  function Utf8StringCheck(ok: Utf8Check, s: seq<byte>): Option<Error> {
    if |s| > 0xffff then Some(Utf8Length)
    else if !ok(s) then Some(Utf8Contents)
    else None
  }

  /** A string that fits its length field and passes the contents check. */
  predicate Passes(ok: Utf8Check, s: seq<byte>) {
    |s| <= 0xffff && ok(s)
  }

  /** What utf8string_check throws. */
  function Complaint(s: seq<byte>): Error {
    if |s| > 0xffff then Utf8Length else Utf8Contents
  }

  lemma CheckThrows(ok: Utf8Check, s: seq<byte>)
    ensures Utf8StringCheck(ok, s) == if Passes(ok, s) then None else Some(Complaint(s))
  {
  }

  /** The contents check of a build: with MQTT_USE_STR_CHECK the validator's verdict, without it
      everything passes. The properties of the messages hold for either. */
  function ContentsCheck(useStrCheck: bool): Utf8Check {
    (s: seq<byte>) => !useStrCheck || Utf8.Validate(s) == Utf8.WellFormed
  }

  /** With the macro a string passes exactly if it encodes scalar values none of which is the null
      character, a control character or one of the last two code points of a plane. */
  lemma CheckIsUnicode(s: seq<byte>)
    ensures ContentsCheck(true)(s) <==> exists cs :: Utf8.AllScalar(cs) && Utf8.NoneExcluded(cs) && Utf8.Encode(cs) == s
    ensures ContentsCheck(false)(s)
  {
    Utf8.ValidateIsUnicode(s);
  }
}
