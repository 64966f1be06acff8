/** The first revision of the extractor (src/parse.rs): one enum of credentials for
    both the Basic scheme (RFC 7617) and the Bearer scheme (RFC 6750), one enum of
    errors, and a single `parse` that dispatches on the scheme token. */
module Parse {
  import opened Results
  import opened Http
  import Text
  import Base64
  import Utf8
  import BasicPayload

  datatype ParseError =
    | NotExists
    | EmptyError
    | UnknownKind
    | InvalidHeader
    | UTFParseError
    | Base64DecodeError
    | NonColonPairError

  /** The two scheme tokens `parse` recognises. */
  const BasicScheme: string := "Basic"
  const BearerScheme: string := "Bearer"

  datatype AuthorizationCredential =
    | BasicCredential(username: string, password: string)
    | BearerToken(token: string)

  /** `basic_credentials_parse`: Base64, then UTF-8, then `split(":")` into exactly two
      pieces, then both trimmed pieces non-empty. Each outcome is the reference reading
      of the payload under this revision's error names. */
  function BasicCredentialsParse(credentials: string): (r: Result<AuthorizationCredential, ParseError>)
    ensures match BasicPayload.Classify(credentials)
      case BadBase64 => r == Err(Base64DecodeError)
      case BadUtf8 => r == Err(UTFParseError)
      case NotOnePair => r == Err(NonColonPairError)
      case EmptyHalf => r == Err(EmptyError)
      case UserPass(u, p) => r == Ok(BasicCredential(u, p))
    ensures r != Err(InvalidHeader) && r != Err(UnknownKind) && r != Err(NotExists)
  {
    match Base64.Decode(credentials)
    case None => Err(Base64DecodeError)
    case Some(payload) =>
      match Utf8.Decode(payload)
      case None => Err(UTFParseError)
      case Some(text) =>
        var components := Text.Split(text, ':');
        if |components| != 2 then Err(NonColonPairError)
        else
          Text.SplitOnce(text, ':');
          var username, password := Text.Trim(components[0]), Text.Trim(components[1]);
          if |username| == 0 || |password| == 0 then Err(EmptyError)
          else Ok(BasicCredential(username, password))
  }

  /** `bearer_token_parse`: the bytes of a string are always UTF-8, so the only failure
      is a blank token; otherwise the token is the trimmed credential. */
  function BearerTokenParse(credentials: string): (r: Result<AuthorizationCredential, ParseError>)
    ensures r != Err(UTFParseError)
    ensures r != Err(InvalidHeader) && r != Err(UnknownKind) && r != Err(NotExists)
    ensures r == Err(EmptyError) <==> Text.AllWhitespace(credentials)
    ensures r.Ok? ==> r.value.BearerToken? && r.value.token != [] && Text.IsTrimmed(r.value.token)
    ensures r.Ok? ==> r.value.token == Text.Trim(credentials)
    ensures !Text.AllWhitespace(credentials) ==> r == Ok(BearerToken(Text.Trim(credentials)))
  {
    Utf8.DecodeEncode(credentials);
    match Utf8.Decode(Utf8.Encode(credentials))
    case None => Err(UTFParseError)
    case Some(decodedText) =>
      var token := Text.Trim(decodedText);
      if |token| == 0 then Err(EmptyError)
      else Ok(BearerToken(token))
  }

  /** `parse`: a header that is not exactly two whitespace-separated tokens is invalid
      and no scheme parser runs; otherwise the scheme token selects the parser by exact,
      case-sensitive comparison, and any other scheme is unknown. */
  function Parse(header: string): (r: Result<AuthorizationCredential, ParseError>)
    ensures var sections := Text.SplitWhitespace(header);
      && (r == Err(InvalidHeader) <==> |sections| != 2)
      && (r == Err(UnknownKind) <==> |sections| == 2 && sections[0] != BasicScheme && sections[0] != BearerScheme)
      && (|sections| == 2 && sections[0] == BasicScheme ==> r == BasicCredentialsParse(sections[1]))
      && (|sections| == 2 && sections[0] == BearerScheme ==> r == BearerTokenParse(sections[1]))
    ensures r != Err(NotExists)
  {
    var headerSections := Text.SplitWhitespace(header);
    if |headerSections| != 2 then Err(InvalidHeader)
    else
      var (kind, credentials) := (headerSections[0], headerSections[1]);
      if kind == BasicScheme then BasicCredentialsParse(credentials)
      else if kind == BearerScheme then BearerTokenParse(credentials)
      else Err(UnknownKind)
  }

  /** `from_request`: a missing header fails with 401 and `NotExists`; every parse error
      fails with 400 and is passed on unchanged; a credential succeeds. The status is 401
      exactly when the header is missing, and the extractor never forwards. */
  function FromRequest(header: Option<string>): (o: Outcome<AuthorizationCredential, ParseError>)
    ensures header.None? <==> o == Failure(Unauthorized, NotExists)
    ensures header.Some? ==> match Parse(header.value)
      case Ok(c) => o == Success(c)
      case Err(e) => o == Failure(BadRequest, e)
    ensures o.Failure? ==> (o.status == Unauthorized <==> o.error == NotExists)
    ensures !o.Forward?
  {
    match header
    case None => Failure(Unauthorized, NotExists)
    case Some(authorizationHeader) =>
      match Parse(authorizationHeader)
      case Ok(credentials) => Success(credentials)
      case Err(err) => Failure(BadRequest, err)
  }

  /** A well-formed Bearer header always yields its token: through `parse`, the
      `EmptyError` and `UTFParseError` branches of the Bearer parser cannot be reached. */
  lemma BearerThroughParse(header: string)
    requires var sections := Text.SplitWhitespace(header); |sections| == 2 && sections[0] == BearerScheme
    ensures Parse(header) == Ok(BearerToken(Text.SplitWhitespace(header)[1]))
  {
    var token := Text.SplitWhitespace(header)[1];
    assert Parse(header) == BearerTokenParse(token);
    BearerTokenParseToken(token);
  }

  /** A single token is its own Bearer token. */
  lemma BearerTokenParseToken(token: string)
    requires Text.IsToken(token)
    ensures BearerTokenParse(token) == Ok(BearerToken(token))
  {
    Text.TrimIdentity(token);
    assert !Text.AllWhitespace(token) by {
      assert !Text.IsWhitespace(token[0]);
    }
  }

  /** Both scheme names are single header tokens. */
  lemma SchemesAreTokens()
    ensures Text.IsToken(BasicScheme) && Text.IsToken(BearerScheme)
  {
    assert BasicScheme == ['B', 'a', 's', 'i', 'c'];
    assert BearerScheme == ['B', 'e', 'a', 'r', 'e', 'r'];
  }

  /** A scheme token, one space and a credential token: the scheme selects the parser. */
  lemma ParseHeader(kind: string, credential: string)
    requires Text.IsToken(kind) && Text.IsToken(credential)
    ensures kind == BasicScheme ==> Parse(kind + " " + credential) == BasicCredentialsParse(credential)
    ensures kind == BearerScheme ==> Parse(kind + " " + credential) == BearerTokenParse(credential)
  {
    Text.SplitWhitespacePair(kind, credential);
  }

  /** Round trip of the Basic scheme: the header a client builds from a user-id and a
      password without colons or surrounding whitespace yields exactly those. */
  lemma BasicRoundTrip(userId: string, password: string)
    requires BasicPayload.IsCredentialPart(userId) && BasicPayload.IsCredentialPart(password)
    ensures FromRequest(Some(BasicScheme + " " + BasicPayload.Encode(userId, password)))
      == Success(BasicCredential(userId, password))
  {
    var payload := BasicPayload.Encode(userId, password);
    SchemesAreTokens();
    BasicPayload.PayloadIsToken(userId, password);
    ParseHeader(BasicScheme, payload);
    BasicCredentialsParseEncode(userId, password);
  }

  /** The Basic parser reads a client's payload back as the user-id and password. */
  lemma BasicCredentialsParseEncode(userId: string, password: string)
    requires BasicPayload.IsCredentialPart(userId) && BasicPayload.IsCredentialPart(password)
    ensures BasicCredentialsParse(BasicPayload.Encode(userId, password)) == Ok(BasicCredential(userId, password))
  {
    Text.TrimIdentity(userId);
    Text.TrimIdentity(password);
    BasicPayload.ClassifyEncode(userId, password);
  }

  /** Round trip of the Bearer scheme: any token is read back unchanged. */
  lemma BearerRoundTrip(token: string)
    requires Text.IsToken(token)
    ensures FromRequest(Some(BearerScheme + " " + token)) == Success(BearerToken(token))
  {
    SchemesAreTokens();
    ParseHeader(BearerScheme, token);
    BearerTokenParseToken(token);
  }
}
