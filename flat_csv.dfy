/**
 * The comma-separated token view of a parameter list. The crate's own
 * `FlatCsv<Comma>` is not part of this model; it is taken to read the value as
 * text (a value that is not visible ASCII yields no tokens), split it at every
 * comma and trim each piece.
 */
module FlatCsv {
  import opened Wrappers
  import opened HeaderValues
  import opened Text

  function TrimAll(parts: seq<string>): (r: seq<string>)
    ensures |r| == |parts|
    ensures forall i :: 0 <= i < |parts| ==> r[i] == Trim(parts[i])
  {
    if parts == [] then [] else [Trim(parts[0])] + TrimAll(parts[1..])
  }

  /** The tokens of a parameter list, in order. */
  function Tokens(list: HeaderValue): (tokens: seq<string>)
    ensures ToStr(list).None? ==> tokens == []
    ensures ToStr(list).Some? ==> |tokens| == |Split(ToStr(list).value, ',')|
    ensures ToStr(list).Some? ==>
              forall i :: 0 <= i < |tokens| ==> tokens[i] == Trim(Split(ToStr(list).value, ',')[i])
    ensures forall i :: 0 <= i < |tokens| ==> ',' !in tokens[i] && IsTrimmed(tokens[i])
  {
    match ToStr(list)
    case None => []
    case Some(text) =>
      var parts := Split(text, ',');
      TrimmedPartsHaveNoComma(parts);
      TrimAll(parts)
  }

  lemma TrimmedPartsHaveNoComma(parts: seq<string>)
    requires forall i :: 0 <= i < |parts| ==> ',' !in parts[i]
    ensures forall i :: 0 <= i < |parts| ==> ',' !in TrimAll(parts)[i]
  {
    forall i | 0 <= i < |parts|
      ensures ',' !in TrimAll(parts)[i]
    {
      TrimKeepsAbsence(parts[i], ',');
    }
  }
}
