/** The latest revision's Bearer scheme (src/oauth.rs), after section 2.1 of RFC 6750
    but accepting any whitespace-free token: the token is the trimmed credential, and a
    blank credential is reported as a missing header. */
module OAuth {
  import opened Results
  import opened AuthError
  import Text
  import Utf8

  /** The scheme name, `KIND`. */
  const Kind: string := "Bearer"

  datatype OAuth = OAuth(token: string)

  const Utf8Prefix: string := "UTF8 Parse Error: "

  /** `OAuth::parse`: the bytes of a string are always UTF-8, so the `Unprocessable`
      branch cannot be taken; a blank credential is `HeaderMissing`; otherwise the token is
      the trimmed credential. */
  function Parse(kind: string, credential: string): (r: Result<OAuth, Error>)
    ensures r.Err? ==> r.error == HeaderMissing
    ensures r.Err? <==> Text.AllWhitespace(credential)
    ensures r.Ok? ==> r.value.token == Text.Trim(credential)
  {
    Utf8.DecodeEncode(credential);
    match Utf8.Decode(Utf8.Encode(credential))
    case None => Err(Unprocessable(Utf8Prefix))
    case Some(decodedText) =>
      var tokenStr := Text.Trim(decodedText);
      if |tokenStr| == 0 then Err(HeaderMissing)
      else Ok(OAuth(tokenStr))
  }

  /** Parsing is idempotent: a token it returns parses to itself. */
  lemma ParseIdempotent(kind: string, credential: string)
    requires Parse(kind, credential).Ok?
    ensures var token := Parse(kind, credential).value.token;
      Parse(kind, token) == Ok(OAuth(token))
  {
    Text.TrimIdempotent(credential);
  }
}
