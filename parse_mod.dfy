/** The second revision's dispatcher (src/parse/mod.rs): a scheme is a value of the
    `Authorization` trait, that is its `KIND` and its `parse`, and the extractor for
    `Credential<T>` checks the header's shape and scheme before it calls the scheme's
    parser. The request argument of `parse` is used by no parser and is left out. */
module ParseMod {
  import opened Results
  import opened Http
  import Text

  /** `IncompatibleKind` and `HeaderMissing` are meant for the dispatcher itself: a scheme
      parser that returns them gets a 400 response, like every error but `Unauthorized`. */
  datatype ParseError =
    | Unauthorized
    | IncompatibleKind
    | HeaderMissing
    | HeaderMalformed
    | CredentialMalformed(message: string)

  /** The `Authorization` trait: the scheme name and the parser of a
      `(kind, credential)` pair. */
  datatype Authorization<T> = Authorization(kind: string, parse: (string, string) -> Result<T, ParseError>)

  /** The credential a guard hands to a route: a wrapper around the scheme's value. */
  datatype Credential<T> = Credential(inner: T) {
    /** `Deref`: the wrapped value, the one the wrapper was built from. */
    function Deref(): (r: T)
      ensures Credential(r) == this
    {
      inner
    }
  }

  /** The status a parser error is answered with: 401 for `Unauthorized` only. */
  function ParserErrorStatus(e: ParseError): (s: Status)
    ensures s == Status.Unauthorized <==> e == ParseError.Unauthorized
  {
    if e == ParseError.Unauthorized then Status.Unauthorized else BadRequest
  }

  /** `from_request` for `Credential<T>`: a missing header is 401 `HeaderMissing`; a header
      that is not two whitespace-separated tokens is 400 `HeaderMalformed`; a scheme token
      other than the scheme's `KIND` is 401 `IncompatibleKind`; otherwise the scheme's
      parser decides, called with the scheme token and the credential token. */
  function FromRequest<T>(auth: Authorization<T>, header: Option<string>): (o: Outcome<Credential<T>, ParseError>)
    ensures header.None? ==> o == Failure(Status.Unauthorized, HeaderMissing)
    ensures header.Some? ==> var sections := Text.SplitWhitespace(header.value);
      && (|sections| != 2 ==> o == Failure(BadRequest, HeaderMalformed))
      && (|sections| == 2 && sections[0] != auth.kind ==> o == Failure(Status.Unauthorized, IncompatibleKind))
      && (|sections| == 2 && sections[0] == auth.kind ==>
            match auth.parse(auth.kind, sections[1])
            case Ok(v) => o == Success(Credential(v))
            case Err(e) => o == Failure(ParserErrorStatus(e), e))
    ensures !o.Forward?
  {
    match header
    case None => Failure(Status.Unauthorized, HeaderMissing)
    case Some(authorizationHeader) =>
      var headerSections := Text.SplitWhitespace(authorizationHeader);
      if |headerSections| != 2 then Failure(BadRequest, HeaderMalformed)
      else
        var (kind, credential) := (headerSections[0], headerSections[1]);
        if auth.kind != kind then Failure(Status.Unauthorized, IncompatibleKind)
        else
          match auth.parse(kind, credential)
          case Err(err) =>
            if err == ParseError.Unauthorized then Failure(Status.Unauthorized, ParseError.Unauthorized)
            else Failure(BadRequest, err)
          case Ok(credentials) => Success(Credential(credentials))
  }

  /** The scheme's parser is consulted only for a two-token header whose scheme token is
      the scheme's `KIND`: for any other header, any parser gives the same outcome. */
  lemma ParserNotConsulted<T>(auth: Authorization<T>, other: (string, string) -> Result<T, ParseError>, header: Option<string>)
    requires header.Some? ==> var sections := Text.SplitWhitespace(header.value);
      |sections| != 2 || sections[0] != auth.kind
    ensures FromRequest(auth, header) == FromRequest(Authorization(auth.kind, other), header)
  {
  }

  /** Two parsers that agree on the scheme's own kind and the credential token give the
      same outcome: the parser sees nothing but that pair. */
  lemma ParserSeesKindAndCredential<T>(auth: Authorization<T>, other: (string, string) -> Result<T, ParseError>, header: string)
    requires var sections := Text.SplitWhitespace(header);
      |sections| == 2 ==> auth.parse(auth.kind, sections[1]) == other(auth.kind, sections[1])
    ensures FromRequest(auth, Some(header)) == FromRequest(Authorization(auth.kind, other), Some(header))
  {
  }

  /** A failure is answered with 401 exactly for a missing header, a foreign scheme and a
      parser's `Unauthorized`; a parser's `HeaderMissing` or `IncompatibleKind` is a 400. */
  lemma FailureStatus<T>(auth: Authorization<T>, header: Option<string>)
    requires FromRequest(auth, header).Failure?
    ensures var o := FromRequest(auth, header);
      o.status == Status.Unauthorized <==>
        || header.None?
        || (o.error == IncompatibleKind && Text.SplitWhitespace(header.value)[0] != auth.kind)
        || o.error == ParseError.Unauthorized
  {
  }

  /** Dereferencing a successful credential gives back exactly the parser's value. */
  lemma SuccessDeref<T>(auth: Authorization<T>, header: string)
    requires var sections := Text.SplitWhitespace(header);
      |sections| == 2 && sections[0] == auth.kind && auth.parse(auth.kind, sections[1]).Ok?
    ensures var o := FromRequest(auth, Some(header));
      o.Success? && o.value.Deref() == auth.parse(auth.kind, Text.SplitWhitespace(header)[1]).value
  {
  }

  /** A header made of the scheme's `KIND` and a credential the parser accepts succeeds
      with the parser's value. */
  lemma AcceptedCredential<T>(auth: Authorization<T>, header: string, credential: string, v: T)
    requires Text.SplitWhitespace(header) == [auth.kind, credential]
    requires auth.parse(auth.kind, credential) == Ok(v)
    ensures FromRequest(auth, Some(header)) == Success(Credential(v))
  {
  }

  /** A header made of the scheme's `KIND` and a credential the parser refuses fails with
      the parser's error. */
  lemma RefusedCredential<T>(auth: Authorization<T>, header: string, credential: string, e: ParseError)
    requires Text.SplitWhitespace(header) == [auth.kind, credential]
    requires auth.parse(auth.kind, credential) == Err(e)
    ensures FromRequest(auth, Some(header)) == Failure(ParserErrorStatus(e), e)
  {
  }

  /** The header a client builds from the scheme's `KIND` and an accepted credential token
      succeeds with the parser's value. */
  lemma AcceptedToken<T>(auth: Authorization<T>, credential: string, v: T)
    requires Text.IsToken(auth.kind) && Text.IsToken(credential)
    requires auth.parse(auth.kind, credential) == Ok(v)
    ensures FromRequest(auth, Some(auth.kind + " " + credential)) == Success(Credential(v))
  {
    Text.SplitWhitespacePair(auth.kind, credential);
    AcceptedCredential(auth, auth.kind + " " + credential, credential, v);
  }

  /** The header a client builds from the scheme's `KIND` and a refused credential token
      fails with the parser's error. */
  lemma RefusedToken<T>(auth: Authorization<T>, credential: string, e: ParseError)
    requires Text.IsToken(auth.kind) && Text.IsToken(credential)
    requires auth.parse(auth.kind, credential) == Err(e)
    ensures FromRequest(auth, Some(auth.kind + " " + credential)) == Failure(ParserErrorStatus(e), e)
  {
    Text.SplitWhitespacePair(auth.kind, credential);
    RefusedCredential(auth, auth.kind + " " + credential, credential, e);
  }
}
