/** The example's own scheme (example/src/custom_auth.rs), written against the second
    revision's trait: the credential token is a `slug:token` pair taken as it stands,
    with no Base64 or UTF-8 layer. */
module CustomAuth {
  import opened Results
  import opened ParseMod
  import Http
  import Text

  /** The scheme name, `KIND`. */
  const Kind: string := "Custom"

  datatype CustomAuth = CustomAuth(slug: string, token: string)

  const PairMessage: string := "Invalid Key-Value Pair Format Error"

  /** `CustomAuth::parse`: a credential without exactly one colon is malformed; a blank
      slug or token is reported as `HeaderMissing`; otherwise the trimmed text before
      and after the colon. */
  function Parse(kind: string, credential: string): (r: Result<CustomAuth, ParseError>)
    ensures Text.Count(credential, ':') != 1 <==> r == Err(CredentialMalformed(PairMessage))
    ensures Text.Count(credential, ':') == 1 ==>
      ':' in credential &&
      var (before, after) := Text.Halves(credential, ':');
      if Text.AllWhitespace(before) || Text.AllWhitespace(after) then r == Err(HeaderMissing)
      else r == Ok(CustomAuth(Text.Trim(before), Text.Trim(after)))
    ensures r.Ok? ==> r.value.slug != [] && Text.IsTrimmed(r.value.slug) && ':' !in r.value.slug
    ensures r.Ok? ==> r.value.token != [] && Text.IsTrimmed(r.value.token) && ':' !in r.value.token
  {
    var components := Text.Split(credential, ':');
    if |components| != 2 then Err(CredentialMalformed(PairMessage))
    else
      Text.SplitOnce(credential, ':');
      var slug, token := Text.Trim(components[0]), Text.Trim(components[1]);
      if |slug| == 0 || |token| == 0 then Err(HeaderMissing)
      else Ok(CustomAuth(slug, token))
  }

  /** The scheme as a value of the `Authorization` trait. */
  const Scheme: Authorization<CustomAuth> := Authorization(Kind, Parse)

  /** Round trip: a slug and a token without colons or surrounding whitespace, joined by
      a colon, are read back unchanged. */
  lemma ParsePair(kind: string, slug: string, token: string)
    requires slug != [] && Text.IsTrimmed(slug) && ':' !in slug
    requires token != [] && Text.IsTrimmed(token) && ':' !in token
    ensures Parse(kind, slug + [':'] + token) == Ok(CustomAuth(slug, token))
  {
    Text.SplitPair(slug, token, ':');
    Text.TrimIdentity(slug);
    Text.TrimIdentity(token);
  }

  /** A blank slug or token is reported as a missing header. */
  lemma ParseBlankHalf(kind: string, slug: string, token: string)
    requires ':' !in slug && ':' !in token
    requires Text.AllWhitespace(slug) || Text.AllWhitespace(token)
    ensures Parse(kind, slug + [':'] + token) == Err(HeaderMissing)
  {
    Text.SplitPair(slug, token, ':');
  }

  /** Through the dispatcher, the parser's `HeaderMissing` for a blank slug or token is
      answered with 400, although a header that is really missing is answered with 401. */
  lemma BlankHalfIsBadRequest(slug: string, token: string)
    requires Text.IsToken(slug + [':'] + token)
    requires ':' !in slug && ':' !in token
    requires slug == [] || token == []
    ensures FromRequest(Scheme, Some(Kind + " " + (slug + [':'] + token)))
      == Http.Failure(Http.BadRequest, HeaderMissing)
    ensures FromRequest(Scheme, None) == Http.Failure(Http.Unauthorized, HeaderMissing)
  {
    SchemeRefusesBlankHalf(slug, token);
    KindIsToken();
    RefusedToken(Scheme, slug + [':'] + token, HeaderMissing);
  }

  /** The scheme's parser, as the dispatcher calls it, refuses a blank slug or token. */
  lemma SchemeRefusesBlankHalf(slug: string, token: string)
    requires ':' !in slug && ':' !in token
    requires slug == [] || token == []
    ensures Scheme.parse(Scheme.kind, slug + [':'] + token) == Err(HeaderMissing)
  {
    assert Text.AllWhitespace(slug) || Text.AllWhitespace(token);
    ParseBlankHalf(Kind, slug, token);
  }

  /** The scheme name is a single header token. */
  lemma KindIsToken()
    ensures Text.IsToken(Kind)
  {
    assert Kind == ['C', 'u', 's', 't', 'o', 'm'];
  }
}
