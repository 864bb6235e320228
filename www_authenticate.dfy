/**
 * The `WWW-Authenticate` header: a scheme token and a comma-separated list of
 * `key=value` parameters, split apart at the first space of the first raw
 * value. This follows the header's own simplified grammar, not the full
 * challenge grammar of section 4.1 of RFC 7235.
 */
module WwwAuthenticateHeader {
  import opened Wrappers
  import opened HeaderValues
  import opened Text
  import FlatCsv

  /** The stored scheme bytes and the raw parameter list. */
  datatype WwwAuthenticate = WwwAuthenticate(scheme: HeaderValue, params: HeaderValue)

  /** `Error::invalid()`, the one decoding error. */
  datatype DecodeError = Invalid

  /** The panic of `&val[1..0]`: a slice whose start lies past its end. */
  datatype Panic = SliceIndexOrder

  /** What one parameter token turns into. */
  datatype Item = Pair(key: string, value: string) | NoEquals | QuotePanic

  // ---------------------------------------------------------------------
  // Decoding and encoding

  /** Reads the first raw value only and splits it at its first space. */
  function Decode(values: seq<HeaderValue>): (r: Result<WwwAuthenticate, DecodeError>)
    ensures r.Err? <==> |values| == 0
  {
    if |values| == 0 then Err(Invalid)
    else
      var val := values[0];
      match Position(val, SPACE)
      case Some(ws) =>
        (match (FromBytes(val[..ws]), FromBytes(val[ws + 1..]))
         case (Some(scheme), Some(params)) => Ok(WwwAuthenticate(scheme, params))
         case _ => Err(Invalid))
      case None => Ok(WwwAuthenticate(val, []))
  }

  /** The two values appended to the caller's sink: the scheme, then the parameter list. */
  function Encode(h: WwwAuthenticate): (values: seq<HeaderValue>)
    ensures |values| == 2 && values[0] == h.scheme && values[1] == h.params
  {
    [h.scheme, h.params]
  }

  /** Values after the first one never change what Decode returns. */
  lemma DecodeReadsFirstValueOnly(v: HeaderValue, rest1: seq<HeaderValue>, rest2: seq<HeaderValue>)
    ensures Decode([v] + rest1) == Decode([v] + rest2)
  {
    assert ([v] + rest1)[0] == v == ([v] + rest2)[0];
  }

  /**
   * A value with a space: the scheme has no space and the scheme, one space
   * and the parameter list put back together give the value again.
   */
  lemma DecodeSplitsAtFirstSpace(v: HeaderValue, rest: seq<HeaderValue>)
    requires SPACE in v
    ensures Decode([v] + rest).Ok?
    ensures SPACE !in Decode([v] + rest).value.scheme
    ensures Decode([v] + rest).value.scheme + [SPACE] + Decode([v] + rest).value.params == v
  {
    assert ([v] + rest)[0] == v;
    var ws := Position(v, SPACE).value;
    assert v == v[..ws] + [SPACE] + v[ws + 1..];
  }

  /** A value without a space: all of it is the scheme and there are no parameters. */
  lemma DecodeWithoutSpace(v: HeaderValue, rest: seq<HeaderValue>)
    requires SPACE !in v
    ensures Decode([v] + rest) == Ok(WwwAuthenticate(v, []))
    ensures Len(Decode([v] + rest).value) == Ok(0)
  {
    assert ([v] + rest)[0] == v;
    EmptyListHasNoTokens();
  }

  /** Every decoded scheme is free of spaces. */
  lemma DecodedSchemeHasNoSpace(values: seq<HeaderValue>)
    requires |values| > 0
    ensures SPACE !in Decode(values).value.scheme
  {
    if SPACE in values[0] {
      assert values == [values[0]] + values[1..];
      DecodeSplitsAtFirstSpace(values[0], values[1..]);
    }
  }

  /** Encoding a decoded value gives back the two halves of the original value. */
  lemma EncodeAfterDecode(v: HeaderValue, rest: seq<HeaderValue>)
    ensures var e := Encode(Decode([v] + rest).value);
            |e| == 2 &&
            (if SPACE in v then e[0] + [SPACE] + e[1] == v else e[0] == v && e[1] == [])
  {
    if SPACE in v {
      DecodeSplitsAtFirstSpace(v, rest);
    } else {
      DecodeWithoutSpace(v, rest);
    }
  }

  /**
   * As written, Decode after Encode loses the parameters: Encode emits them as
   * a second value and Decode reads the first value only.
   */
  lemma DecodeAfterEncodeDropsParams(h: WwwAuthenticate)
    requires SPACE !in h.scheme
    ensures Decode(Encode(h)) == Ok(WwwAuthenticate(h.scheme, []))
    ensures h.params != [] ==> Decode(Encode(h)) != Ok(h)
  {
    assert Encode(h) == [h.scheme] + [h.params];
    DecodeWithoutSpace(h.scheme, [h.params]);
  }

  /** The evidently intended encoding: one value, scheme and parameters joined by a space. */
  function EncodeJoined(h: WwwAuthenticate): (values: seq<HeaderValue>)
    ensures |values| == 1
  {
    if h.params == [] then [h.scheme]
    else
      var joined := h.scheme + [SPACE] + h.params;
      assert forall i :: 0 <= i < |joined| ==> IsValidByte(joined[i]);
      [joined]
  }

  /** The joined encoding decodes back to the header it came from. */
  lemma DecodeEncodeJoined(h: WwwAuthenticate)
    requires SPACE !in h.scheme
    ensures Decode(EncodeJoined(h)) == Ok(h)
  {
    if h.params == [] {
      DecodeWithoutSpace(h.scheme, []);
      assert [h.scheme] + [] == [h.scheme];
    } else {
      var joined := h.scheme + [SPACE] + h.params;
      PositionAfterPrefix(h.scheme, SPACE, h.params);
      assert joined[..|h.scheme|] == h.scheme;
      assert joined[|h.scheme| + 1..] == h.params;
    }
  }

  // ---------------------------------------------------------------------
  // Accessors

  /** `scheme()`: the scheme as text, absent when it is not visible ASCII. */
  function Scheme(h: WwwAuthenticate): (r: Option<string>)
    ensures r.Some? <==> forall i :: 0 <= i < |h.scheme| ==> IsVisibleAscii(h.scheme[i])
    ensures r.Some? ==> |r.value| == |h.scheme| && forall i :: 0 <= i < |h.scheme| ==> r.value[i] as int == h.scheme[i]
  {
    ToStr(h.scheme)
  }

  predicate StartsWithQuote(s: string)
  {
    |s| > 0 && s[0] == '"'
  }

  /**
   * One token: split once at `=`, trim both sides, and drop one character at
   * each end of a value that starts with a quote.
   */
  function ParseItem(kv: string): (r: Item)
    ensures r.NoEquals? <==> '=' !in kv
  {
    match Position(kv, '=')
    case None => NoEquals
    case Some(i) => TrimmedPair(Trim(kv[..i]), Trim(kv[i + 1..]))
  }

  /** The pair of a trimmed key and value, with the quote strip applied to the value. */
  function TrimmedPair(key: string, val: string): (r: Item)
    ensures r.QuotePanic? <==> val == "\""
    ensures r.Pair? ==> r.key == key
  {
    if StartsWithQuote(val) then
      if |val| < 2 then QuotePanic else Pair(key, val[1..|val| - 1])
    else Pair(key, val)
  }

  /** `splitn(2, '=')`: the key and value come from either side of the first `=`. */
  lemma ParseItemSplitsOnce(kv: string, pre: string, post: string)
    requires kv == pre + "=" + post && '=' !in pre
    ensures ParseItem(kv) == TrimmedPair(Trim(pre), Trim(post))
  {
    PositionAfterPrefix(pre, '=', post);
    assert kv[..|pre|] == pre;
    assert kv[|pre| + 1..] == post;
  }

  /**
   * The quote strip: a value that starts with a quote loses exactly its first
   * and last characters, whatever the last one is; a lone quote panics; any
   * other value is kept whole.
   */
  lemma TrimmedPairStripsQuote(key: string, val: string)
    ensures TrimmedPair(key, val).QuotePanic? <==> val == "\""
    ensures TrimmedPair(key, val).Pair? ==> TrimmedPair(key, val).key == key
    ensures !StartsWithQuote(val) ==> TrimmedPair(key, val) == Pair(key, val)
    ensures StartsWithQuote(val) && |val| >= 2 ==>
              TrimmedPair(key, val).Pair? &&
              |TrimmedPair(key, val).value| == |val| - 2 &&
              [val[0]] + TrimmedPair(key, val).value + [val[|val| - 1]] == val
  {
    if StartsWithQuote(val) && |val| >= 2 {
      assert val == [val[0]] + val[1..|val| - 1] + [val[|val| - 1]];
    }
  }

  /**
   * The token `pre = post`, where `pre` holds no `=`: the key is `pre` trimmed
   * and holds no `=`, every later `=` stays in the value, and a quoted value
   * loses exactly its first and last characters whatever the last one is.
   */
  lemma ParseItemAtFirstEquals(kv: string, pre: string, post: string)
    requires kv == pre + "=" + post && '=' !in pre
    ensures ParseItem(kv).QuotePanic? <==> Trim(post) == "\""
    ensures ParseItem(kv).Pair? ==> ParseItem(kv).key == Trim(pre) && '=' !in ParseItem(kv).key
    ensures !StartsWithQuote(Trim(post)) ==> ParseItem(kv) == Pair(Trim(pre), Trim(post))
    ensures StartsWithQuote(Trim(post)) && |Trim(post)| >= 2 ==>
              ParseItem(kv).Pair? &&
              |ParseItem(kv).value| == |Trim(post)| - 2 &&
              [Trim(post)[0]] + ParseItem(kv).value + [Trim(post)[|Trim(post)| - 1]] == Trim(post)
  {
    var key, val := Trim(pre), Trim(post);
    ParseItemSplitsOnce(kv, pre, post);
    TrimmedPairStripsQuote(key, val);
  }

  /** A value wrapped in double quotes. */
  function Quoted(v: string): string
  {
    "\"" + v + "\""
  }

  /** The token `key="value"`. */
  function QuotedToken(p: (string, string)): string
  {
    p.0 + "=" + Quoted(p.1)
  }

  /** A token `key="value"` with a trimmed key gives back exactly that key and value. */
  lemma ParseQuotedPair(key: string, value: string)
    requires '=' !in key && IsTrimmed(key)
    ensures ParseItem(QuotedToken((key, value))) == Pair(key, value)
  {
    ParseItemSplitsOnce(QuotedToken((key, value)), key, Quoted(value));
    TrimOfTrimmed(key);
    QuotedIsTrimmed(value);
    StripQuoted(key, value);
  }

  lemma QuotedIsTrimmed(value: string)
    ensures Trim(Quoted(value)) == Quoted(value)
  {
    var q := Quoted(value);
    assert q[0] == '"' && q[|q| - 1] == '"';
    TrimOfTrimmed(q);
  }

  lemma StripQuoted(key: string, value: string)
    ensures TrimmedPair(key, Quoted(value)) == Pair(key, value)
  {
    var q := Quoted(value);
    assert q[1..|q| - 1] == value;
  }

  /** The items of the parameter list, one per token, in token order. */
  function ParseAll(tokens: seq<string>): (items: seq<Item>)
    ensures |items| == |tokens|
    ensures forall i :: 0 <= i < |tokens| ==> items[i] == ParseItem(tokens[i])
  {
    Map(ParseItem, tokens)
  }

  function Tokens(h: WwwAuthenticate): seq<string>
  {
    FlatCsv.Tokens(h.params)
  }

  function Items(h: WwwAuthenticate): seq<Item>
  {
    ParseAll(Tokens(h))
  }

  /** Runs the pairs out to the end, in order; the first panicking token aborts the run. */
  function Collect(items: seq<Item>): (r: Result<seq<(string, string)>, Panic>)
    ensures r.Err? <==> QuotePanic in items
    ensures r.Ok? ==> |r.value| <= |items|
    ensures r.Ok? ==> forall p :: p in r.value ==> Pair(p.0, p.1) in items
  {
    if items == [] then Ok([])
    else
      match items[0]
      case QuotePanic => Err(SliceIndexOrder)
      case NoEquals =>
        assert items == [items[0]] + items[1..];
        Collect(items[1..])
      case Pair(k, v) =>
        assert items == [items[0]] + items[1..];
        match Collect(items[1..])
        case Ok(rest) => Ok([(k, v)] + rest)
        case Err(e) => Err(e)
  }

  /** `iter()` driven to completion. */
  function Iter(h: WwwAuthenticate): (r: Result<seq<(string, string)>, Panic>)
    ensures r.Err? <==> QuotePanic in Items(h)
    ensures r.Ok? ==> |r.value| <= |Tokens(h)|
  {
    Collect(Items(h))
  }

  /** `len()`: how many pairs `iter()` yields. */
  function Len(h: WwwAuthenticate): (r: Result<nat, Panic>)
    ensures r.Err? <==> QuotePanic in Items(h)
    ensures r.Ok? ==> r.value <= |Tokens(h)|
  {
    match Iter(h)
    case Ok(pairs) => Ok(|pairs|)
    case Err(e) => Err(e)
  }

  /** `find` stops at the first item that is a panic or a pair with this key. */
  predicate Stops(item: Item, name: string)
  {
    item.QuotePanic? || (item.Pair? && item.key == name)
  }

  function Find(items: seq<Item>, name: string): (r: Result<Option<string>, Panic>)
    ensures r.Err? ==> QuotePanic in items
    ensures r.Ok? && r.value.Some? ==> Pair(name, r.value.value) in items
  {
    if items == [] then Ok(None)
    else
      match items[0]
      case QuotePanic => Err(SliceIndexOrder)
      case NoEquals => Find(items[1..], name)
      case Pair(k, v) => if k == name then Ok(Some(v)) else Find(items[1..], name)
  }

  /** `get(name)`: the value of the first pair whose key is exactly `name`. */
  function Get(h: WwwAuthenticate, name: string): (r: Result<Option<string>, Panic>)
    ensures r.Err? ==> QuotePanic in Items(h)
    ensures r.Ok? && r.value.Some? ==> Pair(name, r.value.value) in Items(h)
  {
    Find(Items(h), name)
  }

  // ---------------------------------------------------------------------
  // Properties of iteration, lookup and counting

  /** What one item contributes: a pair yields itself, an item without `=` nothing, a panic aborts. */
  lemma CollectOne(item: Item)
    ensures item.Pair? ==> Collect([item]) == Ok([(item.key, item.value)])
    ensures item.NoEquals? ==> Collect([item]) == Ok([])
    ensures item.QuotePanic? ==> Collect([item]) == Err(SliceIndexOrder)
  {
    assert [item][1..] == [];
    if item.Pair? {
      assert [(item.key, item.value)] + [] == [(item.key, item.value)];
    }
  }

  /**
   * Running out a concatenation: a panic in the first part wins, then one in
   * the second part; otherwise the pairs of both parts, in order.
   */
  lemma {:induction false} CollectAppend(a: seq<Item>, b: seq<Item>)
    ensures Collect(a + b) ==
              if Collect(a).Err? then Collect(a)
              else if Collect(b).Err? then Collect(b)
              else Ok(Collect(a).value + Collect(b).value)
  {
    if a == [] {
      assert a + b == b;
      if Collect(b).Ok? {
        assert [] + Collect(b).value == Collect(b).value;
      }
    } else {
      assert (a + b)[0] == a[0];
      assert (a + b)[1..] == a[1..] + b;
      CollectAppend(a[1..], b);
      if a[0].Pair? && Collect(a[1..]).Ok? && Collect(b).Ok? {
        var p := [(a[0].key, a[0].value)];
        assert p + (Collect(a[1..]).value + Collect(b).value) == (p + Collect(a[1..]).value) + Collect(b).value;
      }
    }
  }

  lemma ParseAllAppend(a: seq<string>, b: seq<string>)
    ensures ParseAll(a + b) == ParseAll(a) + ParseAll(b)
  {
    MapAppend(ParseItem, a, b);
  }

  /** A token without `=` anywhere in the list adds nothing to `iter()`. */
  lemma IterSkipsTokenWithoutEquals(h: WwwAuthenticate, before: seq<string>, t: string, after: seq<string>)
    requires Tokens(h) == before + [t] + after && '=' !in t
    ensures Iter(h) == Collect(ParseAll(before + after))
  {
    var a, b := ParseAll(before), ParseAll(after);
    ParseAllAppend(before + [t], after);
    ParseAllAppend(before, [t]);
    ParseAllAppend(before, after);
    assert ParseAll([t]) == [NoEquals];
    CollectOne(NoEquals);
    CollectAppend(a, [NoEquals]);
    CollectAppend(a + [NoEquals], b);
    CollectAppend(a, b);
    if Collect(a).Ok? {
      assert Collect(a).value + [] == Collect(a).value;
    }
  }

  /** An empty parameter list is one empty token, which yields no pair. */
  lemma EmptyListHasNoTokens()
    ensures FlatCsv.Tokens([]) == [""]
    ensures Iter(WwwAuthenticate([], [])) == Ok([])
  {
    assert ToStr([]) == Some("");
    assert Split("", ',') == [""];
    assert Trim("") == "";
    assert FlatCsv.TrimAll([""]) == [""];
    assert ParseAll([""]) == [NoEquals];
    CollectOne(NoEquals);
  }

  function CountWithEquals(tokens: seq<string>): nat
  {
    if tokens == [] then 0
    else (if '=' in tokens[0] then 1 else 0) + CountWithEquals(tokens[1..])
  }

  lemma {:induction false} CollectCountsEquals(tokens: seq<string>)
    requires Collect(ParseAll(tokens)).Ok?
    ensures |Collect(ParseAll(tokens)).value| == CountWithEquals(tokens)
  {
    if tokens != [] {
      var items := ParseAll(tokens);
      assert items[1..] == ParseAll(tokens[1..]);
      CollectCountsEquals(tokens[1..]);
    }
  }

  lemma {:induction false} CountWithEqualsBound(tokens: seq<string>)
    ensures CountWithEquals(tokens) <= |tokens|
  {
    if tokens != [] {
      CountWithEqualsBound(tokens[1..]);
    }
  }

  /**
   * `len()` counts the tokens that hold an `=`, at most all of them; it
   * panics exactly when some token's trimmed value is a lone quote.
   */
  lemma LenCountsTokensWithEquals(h: WwwAuthenticate)
    ensures Len(h).Err? <==> exists i :: 0 <= i < |Tokens(h)| && ParseItem(Tokens(h)[i]).QuotePanic?
    ensures Len(h).Ok? ==> Len(h).value == CountWithEquals(Tokens(h)) <= |Tokens(h)|
  {
    var tokens := Tokens(h);
    PanicItemIsPanicToken(tokens);
    if Collect(ParseAll(tokens)).Ok? {
      CollectCountsEquals(tokens);
      CountWithEqualsBound(tokens);
    }
  }

  lemma PanicItemIsPanicToken(tokens: seq<string>)
    ensures QuotePanic in ParseAll(tokens) <==> exists i :: 0 <= i < |tokens| && ParseItem(tokens[i]).QuotePanic?
  {
    var items := ParseAll(tokens);
    if QuotePanic in items {
      var i :| 0 <= i < |items| && items[i] == QuotePanic;
      assert ParseItem(tokens[i]).QuotePanic?;
    } else {
      forall i | 0 <= i < |tokens|
        ensures !ParseItem(tokens[i]).QuotePanic?
      {
        assert items[i] != QuotePanic;
      }
    }
  }

  /** No item before index `i` stops the search for `name`. */
  predicate NoStopBefore(items: seq<Item>, name: string, i: nat)
    requires i <= |items|
  {
    forall j :: 0 <= j < i ==> !Stops(items[j], name)
  }

  lemma {:induction false} FindFirstMatch(items: seq<Item>, name: string, i: nat)
    requires i < |items| && items[i].Pair? && items[i].key == name
    requires NoStopBefore(items, name, i)
    ensures Find(items, name) == Ok(Some(items[i].value))
  {
    if i > 0 {
      assert !Stops(items[0], name);
      FindFirstMatch(items[1..], name, i - 1);
    }
  }

  lemma {:induction false} FindFoundIsFirstMatch(items: seq<Item>, name: string, v: string)
    requires Find(items, name) == Ok(Some(v))
    ensures exists i :: 0 <= i < |items| && items[i] == Pair(name, v) && NoStopBefore(items, name, i)
  {
    if items[0] == Pair(name, v) {
      assert NoStopBefore(items, name, 0);
    } else {
      FindFoundIsFirstMatch(items[1..], name, v);
      var i :| 0 <= i < |items[1..]| && items[1..][i] == Pair(name, v) && NoStopBefore(items[1..], name, i);
      assert items[i + 1] == Pair(name, v);
      assert NoStopBefore(items, name, i + 1);
    }
  }

  lemma {:induction false} FindAbsent(items: seq<Item>, name: string)
    ensures Find(items, name) == Ok(None) <==> NoStopBefore(items, name, |items|)
  {
    if items != [] {
      FindAbsent(items[1..], name);
      if NoStopBefore(items[1..], name, |items| - 1) {
        assert forall j :: 1 <= j < |items| ==> items[j] == items[1..][j - 1];
      }
    }
  }

  /** `get` returns the value of the first pair with this exact key, when nothing panics before it. */
  lemma GetFirstMatch(h: WwwAuthenticate, name: string, i: nat)
    requires i < |Items(h)| && Items(h)[i].Pair? && Items(h)[i].key == name
    requires NoStopBefore(Items(h), name, i)
    ensures Get(h, name) == Ok(Some(Items(h)[i].value))
  {
    FindFirstMatch(Items(h), name, i);
  }

  /** Whatever `get` finds is the first pair with that key. */
  lemma GetFoundIsFirstMatch(h: WwwAuthenticate, name: string, v: string)
    requires Get(h, name) == Ok(Some(v))
    ensures exists i :: 0 <= i < |Items(h)| && Items(h)[i] == Pair(name, v) && NoStopBefore(Items(h), name, i)
  {
    FindFoundIsFirstMatch(Items(h), name, v);
  }

  /** `get` reports absence exactly when no token is a pair with this key or a panic. */
  lemma GetAbsent(h: WwwAuthenticate, name: string)
    ensures Get(h, name) == Ok(None) <==> NoStopBefore(Items(h), name, |Items(h)|)
  {
    FindAbsent(Items(h), name);
  }

  // ---------------------------------------------------------------------
  // Parameter lists built from key/value pairs

  function QuotedTokens(pairs: seq<(string, string)>): (tokens: seq<string>)
    ensures |tokens| == |pairs|
    ensures forall i :: 0 <= i < |pairs| ==> tokens[i] == QuotedToken(pairs[i])
  {
    seq(|pairs|, i requires 0 <= i < |pairs| => QuotedToken(pairs[i]))
  }

  /** A list built from visible text is visible text. */
  lemma {:induction false} QuotedListIsVisible(pairs: seq<(string, string)>)
    requires forall i :: 0 <= i < |pairs| ==> IsVisibleText(pairs[i].0) && IsVisibleText(pairs[i].1)
    ensures IsVisibleText(Join(QuotedTokens(pairs), ','))
  {
    if pairs != [] {
      var t := QuotedToken(pairs[0]);
      assert IsVisibleText("=") && IsVisibleText("\"");
      VisibleTextConcat("\"", pairs[0].1);
      VisibleTextConcat("\"" + pairs[0].1, "\"");
      VisibleTextConcat(pairs[0].0, "=");
      VisibleTextConcat(pairs[0].0 + "=", Quoted(pairs[0].1));
      if |pairs| > 1 {
        assert QuotedTokens(pairs)[1..] == QuotedTokens(pairs[1..]);
        QuotedListIsVisible(pairs[1..]);
        VisibleTextConcat(t, ",");
        VisibleTextConcat(t + ",", Join(QuotedTokens(pairs[1..]), ','));
      }
    }
  }

  /** Keys without `=`, `,` or surrounding whitespace, and values without `,`. */
  predicate IsPlainList(pairs: seq<(string, string)>)
  {
    forall i :: 0 <= i < |pairs| ==>
      '=' !in pairs[i].0 && ',' !in pairs[i].0 && IsTrimmed(pairs[i].0) && ',' !in pairs[i].1
  }

  function AsItems(pairs: seq<(string, string)>): (items: seq<Item>)
    ensures |items| == |pairs|
    ensures forall i :: 0 <= i < |pairs| ==> items[i] == Pair(pairs[i].0, pairs[i].1)
  {
    seq(|pairs|, i requires 0 <= i < |pairs| => Pair(pairs[i].0, pairs[i].1))
  }

  lemma {:induction false} CollectOfPairs(pairs: seq<(string, string)>)
    ensures Collect(AsItems(pairs)) == Ok(pairs)
  {
    if pairs != [] {
      assert AsItems(pairs)[1..] == AsItems(pairs[1..]);
      CollectOfPairs(pairs[1..]);
      assert pairs == [(pairs[0].0, pairs[0].1)] + pairs[1..];
    }
  }

  /** One `key="value"` token of a plain list: comma-free, already trimmed, and parsed back to its pair. */
  lemma QuotedTokenParses(k: string, v: string)
    requires '=' !in k && ',' !in k && IsTrimmed(k) && ',' !in v
    ensures ',' !in QuotedToken((k, v))
    ensures Trim(QuotedToken((k, v))) == QuotedToken((k, v))
    ensures ParseItem(QuotedToken((k, v))) == Pair(k, v)
  {
    QuotedTokenHasNoComma(k, v);
    QuotedTokenIsTrimmed(k, v);
    ParseQuotedPair(k, v);
  }

  lemma QuotedTokenHasNoComma(k: string, v: string)
    requires ',' !in k && ',' !in v
    ensures ',' !in QuotedToken((k, v))
  {
    assert ',' !in Quoted(v) by {
      assert Quoted(v) == ['"'] + v + ['"'];
    }
    assert QuotedToken((k, v)) == k + ['='] + Quoted(v);
  }

  lemma QuotedTokenIsTrimmed(k: string, v: string)
    requires IsTrimmed(k)
    ensures Trim(QuotedToken((k, v))) == QuotedToken((k, v))
  {
    var t := QuotedToken((k, v));
    assert t[|t| - 1] == '"';
    assert t[0] == if |k| > 0 then k[0] else '=';
    TrimOfTrimmed(t);
  }

  lemma TokensOfQuotedList(h: WwwAuthenticate, pairs: seq<(string, string)>)
    requires |pairs| >= 1 && IsPlainList(pairs)
    requires ToStr(h.params) == Some(Join(QuotedTokens(pairs), ','))
    ensures Tokens(h) == QuotedTokens(pairs)
  {
    var tokens := QuotedTokens(pairs);
    forall i | 0 <= i < |tokens|
      ensures ',' !in tokens[i] && Trim(tokens[i]) == tokens[i]
    {
      QuotedTokenParses(pairs[i].0, pairs[i].1);
    }
    SplitJoin(tokens, ',');
  }

  /**
   * A parameter list written as `k1="v1",k2="v2",...` from plain pairs is read
   * back by `iter()` as exactly those pairs, in order.
   */
  lemma IterOfQuotedList(h: WwwAuthenticate, pairs: seq<(string, string)>)
    requires |pairs| >= 1 && IsPlainList(pairs)
    requires ToStr(h.params) == Some(Join(QuotedTokens(pairs), ','))
    ensures Items(h) == AsItems(pairs)
    ensures Iter(h) == Ok(pairs)
  {
    TokensOfQuotedList(h, pairs);
    var tokens := QuotedTokens(pairs);
    forall i | 0 <= i < |tokens|
      ensures ParseItem(tokens[i]) == Pair(pairs[i].0, pairs[i].1)
    {
      QuotedTokenParses(pairs[i].0, pairs[i].1);
    }
    assert Items(h) == AsItems(pairs);
    CollectOfPairs(pairs);
  }

  /**
   * End to end: the value `scheme k1="v1",k2="v2",...`, built from a scheme
   * without spaces and plain visible pairs, decodes to that scheme and
   * iterates to exactly those pairs.
   */
  lemma DecodeQuotedChallenge(scheme: string, pairs: seq<(string, string)>)
    requires IsVisibleText(scheme) && ' ' !in scheme
    requires |pairs| >= 1 && IsPlainList(pairs)
    requires forall i :: 0 <= i < |pairs| ==> IsVisibleText(pairs[i].0) && IsVisibleText(pairs[i].1)
    ensures IsVisibleText(scheme + " " + Join(QuotedTokens(pairs), ','))
    ensures Decode([AsciiBytes(scheme + " " + Join(QuotedTokens(pairs), ','))]).Ok?
    ensures var h := Decode([AsciiBytes(scheme + " " + Join(QuotedTokens(pairs), ','))]).value;
            Scheme(h) == Some(scheme) && Iter(h) == Ok(pairs) &&
            ToStr(h.params) == Some(Join(QuotedTokens(pairs), ','))
  {
    var list := Join(QuotedTokens(pairs), ',');
    QuotedListIsVisible(pairs);
    assert IsVisibleText(" ");
    AsciiBytesConcat(scheme, " ");
    AsciiBytesConcat(scheme + " ", list);
    ToStrOfAsciiBytes(scheme);
    ToStrOfAsciiBytes(list);
    var h := WwwAuthenticate(AsciiBytes(scheme), AsciiBytes(list));
    assert SPACE !in h.scheme by {
      assert forall i :: 0 <= i < |scheme| ==> h.scheme[i] == scheme[i] as int;
    }
    assert |list| > 0 by {
      assert QuotedTokens(pairs)[0] == QuotedToken(pairs[0]);
      assert |Join(QuotedTokens(pairs), ',')| >= |QuotedTokens(pairs)[0]|;
    }
    assert AsciiBytes(" ") == [SPACE];
    assert EncodeJoined(h) == [AsciiBytes(scheme + " " + list)];
    DecodeEncodeJoined(h);
    IterOfQuotedList(h, pairs);
  }

  /** In such a list `get` finds the value of the first pair with the key. */
  lemma GetFromQuotedList(h: WwwAuthenticate, pairs: seq<(string, string)>, i: nat)
    requires |pairs| >= 1 && IsPlainList(pairs)
    requires ToStr(h.params) == Some(Join(QuotedTokens(pairs), ','))
    requires i < |pairs| && forall j :: 0 <= j < i ==> pairs[j].0 != pairs[i].0
    ensures Get(h, pairs[i].0) == Ok(Some(pairs[i].1))
  {
    IterOfQuotedList(h, pairs);
    var items := Items(h);
    assert forall j :: 0 <= j < i ==> items[j] == Pair(pairs[j].0, pairs[j].1);
    assert NoStopBefore(items, pairs[i].0, i);
    GetFirstMatch(h, pairs[i].0, i);
  }

  /** In such a list `get` reports absence for a key that is not there. */
  lemma GetMissingFromQuotedList(h: WwwAuthenticate, pairs: seq<(string, string)>, name: string)
    requires |pairs| >= 1 && IsPlainList(pairs)
    requires ToStr(h.params) == Some(Join(QuotedTokens(pairs), ','))
    requires forall i :: 0 <= i < |pairs| ==> pairs[i].0 != name
    ensures Get(h, name) == Ok(None)
  {
    IterOfQuotedList(h, pairs);
    var items := Items(h);
    assert forall j :: 0 <= j < |items| ==> items[j] == Pair(pairs[j].0, pairs[j].1);
    assert NoStopBefore(items, name, |items|);
    GetAbsent(h, name);
  }
}
