/** The second revision's Bearer scheme (src/parse/oauth.rs), after section 2.1 of
    RFC 6750 but accepting any whitespace-free token. Its parser takes the scheme token
    and the credential only, and its errors are the two variants it names itself. */
module ParseOAuth {
  import opened Results
  import Text
  import Utf8

  datatype ParseError = UTFParseError | EmptyError

  /** The scheme name, `KIND`. */
  const Kind: string := "Bearer"

  datatype OAuth = OAuth(token: string)

  /** `OAuth::parse`: the bytes of a string are always UTF-8, so the only failure is a
      blank credential; the token is the trimmed credential, non-empty and without
      surrounding whitespace. */
  function Parse(kind: string, credential: string): (r: Result<OAuth, ParseError>)
    ensures r != Err(UTFParseError)
    ensures r == Err(EmptyError) <==> Text.AllWhitespace(credential)
    ensures r.Ok? ==> r.value.token == Text.Trim(credential)
    ensures r.Ok? ==> r.value.token != [] && Text.IsTrimmed(r.value.token)
  {
    Utf8.DecodeEncode(credential);
    match Utf8.Decode(Utf8.Encode(credential))
    case None => Err(UTFParseError)
    case Some(decodedText) =>
      var tokenStr := Text.Trim(decodedText);
      if |tokenStr| == 0 then Err(EmptyError)
      else Ok(OAuth(tokenStr))
  }

  /** A non-empty token without surrounding whitespace is read back unchanged, so the
      parser is idempotent on its own results. */
  lemma ParseToken(kind: string, token: string)
    requires token != [] && Text.IsTrimmed(token)
    ensures Parse(kind, token) == Ok(OAuth(token))
  {
    Text.TrimIdentity(token);
  }
}
