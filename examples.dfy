/** The header's own test scenarios, stated over the model. */
module WwwAuthenticateExamples {
  import opened Wrappers
  import opened HeaderValues
  import opened Text
  import opened WwwAuthenticateHeader

  /** No value at all: decoding fails. */
  lemma DecodeNothingFails()
    ensures Decode([]) == Err(Invalid)
  {
  }

  /** `Basic` alone: the scheme is `Basic` and there are no parameters. */
  lemma DecodeBasic()
    ensures IsVisibleText("Basic")
    ensures Decode([AsciiBytes("Basic")]) == Ok(WwwAuthenticate(AsciiBytes("Basic"), []))
    ensures Scheme(Decode([AsciiBytes("Basic")]).value) == Some("Basic")
    ensures Len(Decode([AsciiBytes("Basic")]).value) == Ok(0)
  {
    ToStrOfAsciiBytes("Basic");
    var h := AsciiBytes("Basic");
    assert SPACE !in h;
    DecodeWithoutSpace(h, []);
    assert [h] + [] == [h];
  }

  const Realm := "https://auth.docker.io/token"
  const Service := "registry.docker.io"
  const Scope := "repository:library/redis:pull"

  /** The parameters of the registry challenge, in order. */
  const RegistryPairs := [("realm", Realm), ("service", Service), ("scope", Scope)]

  /** The registry challenge of the header's own test, as one raw value. */
  const Challenge :=
    "Bearer" + " " + "realm" + "=\"" + Realm + "\"," + "service" + "=\"" + Service + "\"," + "scope" + "=\"" + Scope + "\""

  /** A key or value of the registry challenge is plain visible text. */
  predicate IsPlainKey(k: string)
  {
    '=' !in k && ',' !in k && IsTrimmed(k) && IsVisibleText(k)
  }

  predicate IsPlainValue(v: string)
  {
    ',' !in v && IsVisibleText(v)
  }

  lemma KeysArePlain() ensures IsPlainKey("realm") && IsPlainKey("service") && IsPlainKey("scope") {}
  lemma RealmHasNoComma() ensures ',' !in Realm {}
  lemma RealmIsVisible() ensures IsVisibleText(Realm) {}
  lemma ServiceHasNoComma() ensures ',' !in Service {}
  lemma ServiceIsVisible() ensures IsVisibleText(Service) {}
  lemma ScopeHasNoComma() ensures ',' !in Scope {}
  lemma ScopeIsVisible() ensures IsVisibleText(Scope) {}

  lemma RegistryPairsArePlain()
    ensures IsPlainList(RegistryPairs)
    ensures forall i :: 0 <= i < |RegistryPairs| ==>
              IsVisibleText(RegistryPairs[i].0) && IsVisibleText(RegistryPairs[i].1)
  {
    KeysArePlain();
    RealmHasNoComma();
    RealmIsVisible();
    ServiceHasNoComma();
    ServiceIsVisible();
    ScopeHasNoComma();
    ScopeIsVisible();
  }

  /** The challenge is the scheme `Bearer`, a space and the quoted list of the registry pairs. */
  lemma ChallengeIsQuotedList()
    ensures Challenge == "Bearer" + " " + Join(QuotedTokens(RegistryPairs), ',')
  {
    SpelledOut("Bearer", "realm", Realm, "service", Service, "scope", Scope);
  }

  /** A three-pair challenge written out character group by character group. */
  lemma SpelledOut(scheme: string, k1: string, v1: string, k2: string, v2: string, k3: string, v3: string)
    ensures scheme + " " + Join(QuotedTokens([(k1, v1), (k2, v2), (k3, v3)]), ',') ==
            scheme + " " + k1 + "=\"" + v1 + "\"," + k2 + "=\"" + v2 + "\"," + k3 + "=\"" + v3 + "\""
  {
    var t := QuotedTokens([(k1, v1), (k2, v2), (k3, v3)]);
    JoinThree(t, ',');
    assert t[0] == k1 + "=\"" + v1 + "\"";
    assert t[1] == k2 + "=\"" + v2 + "\"";
    assert t[2] == k3 + "=\"" + v3 + "\"";
    assert "\"" + [','] == "\",";
  }

  /** The registry challenge decodes to scheme `Bearer` and iterates to its three pairs. */
  lemma DecodeChallenge()
    ensures IsVisibleText(Challenge)
    ensures Decode([AsciiBytes(Challenge)]).Ok?
    ensures Scheme(Decode([AsciiBytes(Challenge)]).value) == Some("Bearer")
    ensures Iter(Decode([AsciiBytes(Challenge)]).value) == Ok(RegistryPairs)
    ensures ToStr(Decode([AsciiBytes(Challenge)]).value.params) == Some(Join(QuotedTokens(RegistryPairs), ','))
  {
    RegistryPairsArePlain();
    ChallengeIsQuotedList();
    assert IsVisibleText("Bearer") && ' ' !in "Bearer";
    DecodeQuotedChallenge("Bearer", RegistryPairs);
  }

  /** Its lookups: `realm` is found unquoted, `bar` is absent, and there are three pairs. */
  lemma LookupsInChallenge()
    ensures IsVisibleText(Challenge) && Decode([AsciiBytes(Challenge)]).Ok?
    ensures Get(Decode([AsciiBytes(Challenge)]).value, "realm") == Ok(Some("https://auth.docker.io/token"))
    ensures Get(Decode([AsciiBytes(Challenge)]).value, "bar") == Ok(None)
    ensures Len(Decode([AsciiBytes(Challenge)]).value) == Ok(3)
  {
    DecodeChallenge();
    var h := Decode([AsciiBytes(Challenge)]).value;
    RealmLookup(h);
    BarLookup(h);
  }

  lemma RealmLookup(h: WwwAuthenticate)
    requires ToStr(h.params) == Some(Join(QuotedTokens(RegistryPairs), ','))
    ensures Get(h, "realm") == Ok(Some(Realm))
  {
    RegistryPairsArePlain();
    assert RegistryPairs[0] == ("realm", Realm);
    GetFromQuotedList(h, RegistryPairs, 0);
  }

  lemma BarLookup(h: WwwAuthenticate)
    requires ToStr(h.params) == Some(Join(QuotedTokens(RegistryPairs), ','))
    ensures Get(h, "bar") == Ok(None)
  {
    RegistryPairsArePlain();
    assert RegistryPairs[0].0 != "bar" && RegistryPairs[1].0 != "bar" && RegistryPairs[2].0 != "bar";
    GetMissingFromQuotedList(h, RegistryPairs, "bar");
  }
}
