/**
 * Header values as the `http` crate's `HeaderValue` holds them: byte strings
 * with no control byte other than horizontal tab, and the `to_str` view that
 * succeeds only on visible ASCII.
 */
module HeaderValues {
  import opened Wrappers

  type Byte = b: int | 0 <= b < 256

  const TAB: Byte := 0x09
  const SPACE: Byte := 0x20

  /** A byte a header value may hold: anything but 0x00-0x08, 0x0A-0x1F and 0x7F. */
  predicate IsValidByte(b: Byte)
  {
    (b >= 0x20 && b != 0x7F) || b == TAB
  }

  predicate IsValid(s: seq<Byte>)
  {
    forall i :: 0 <= i < |s| ==> IsValidByte(s[i])
  }

  type HeaderValue = s: seq<Byte> | IsValid(s) witness []

  /** `HeaderValue::from_bytes`: accepts exactly the valid byte strings, unchanged. */
  function FromBytes(s: seq<Byte>): (r: Option<HeaderValue>)
    ensures r.Some? <==> IsValid(s)
    ensures r.Some? ==> r.value == s
  {
    if IsValid(s) then Some(s) else None
  }

  /** A byte `to_str` accepts: printable ASCII or horizontal tab. */
  predicate IsVisibleAscii(b: Byte)
  {
    (0x20 <= b < 0x7F) || b == TAB
  }

  /** `HeaderValue::to_str`: the value as text when every byte is visible ASCII. */
  function ToStr(v: HeaderValue): (r: Option<string>)
    ensures r.Some? <==> forall i :: 0 <= i < |v| ==> IsVisibleAscii(v[i])
    ensures r.Some? ==> |r.value| == |v| && forall i :: 0 <= i < |v| ==> r.value[i] as int == v[i]
  {
    if forall i :: 0 <= i < |v| ==> IsVisibleAscii(v[i])
    then Some(seq(|v|, i requires 0 <= i < |v| => v[i] as char))
    else None
  }

  /** Text `to_str` could have produced: visible ASCII and tabs only. */
  predicate IsVisibleText(s: string)
  {
    forall i :: 0 <= i < |s| ==> (0x20 <= s[i] as int < 0x7F || s[i] == '\t')
  }

  lemma VisibleTextConcat(s: string, t: string)
    requires IsVisibleText(s) && IsVisibleText(t)
    ensures IsVisibleText(s + t)
  {
    assert forall i :: |s| <= i < |s + t| ==> (s + t)[i] == t[i - |s|];
  }

  /** The header value whose bytes are the characters of `s`, for writing values as literals. */
  function AsciiBytes(s: string): (b: HeaderValue)
    requires IsVisibleText(s)
    ensures |b| == |s| && forall i :: 0 <= i < |s| ==> b[i] == s[i] as int
  {
    seq(|s|, i requires 0 <= i < |s| => s[i] as int)
  }

  lemma AsciiBytesConcat(s: string, t: string)
    requires IsVisibleText(s) && IsVisibleText(t)
    ensures IsVisibleText(s + t)
    ensures AsciiBytes(s + t) == AsciiBytes(s) + AsciiBytes(t)
  {
    VisibleTextConcat(s, t);
  }

  /** Visible ASCII text survives the trip to bytes and back through `to_str`. */
  lemma ToStrOfAsciiBytes(s: string)
    requires IsVisibleText(s)
    ensures ToStr(AsciiBytes(s)) == Some(s)
  {
    var b := AsciiBytes(s);
    assert forall i :: 0 <= i < |b| ==> IsVisibleAscii(b[i]);
    var t := ToStr(b).value;
    forall i | 0 <= i < |s|
      ensures t[i] == s[i]
    {
      assert t[i] as int == s[i] as int;
    }
    assert t == s;
  }
}
