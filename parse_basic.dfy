/** The second revision's Basic scheme (src/parse/basic.rs): the payload of section 2 of
    RFC 7617 read as Base64, then UTF-8, then split at its one colon, each failure a
    `CredentialMalformed` with a fixed message. */
module ParseBasic {
  import opened Results
  import opened ParseMod
  import Http
  import Text
  import Base64
  import Utf8
  import BasicPayload

  /** The scheme name, `KIND`. */
  const Kind: string := "Basic"

  datatype Basic = Basic(username: string, password: string)

  const Base64Message: string := "Base64 Decode Error"
  const Utf8Message: string := "UTF8 Parse Error"
  const PairMessage: string := "Non-Colon Pair Given"
  const EmptyMessage: string := "No Credentials Given"

  /** `Basic::parse`: the scheme token is ignored; each outcome is the reference reading
      of the credential, with its own message for each way the credential can fail. */
  function Parse(kind: string, credential: string): (r: Result<Basic, ParseError>)
    ensures match BasicPayload.Classify(credential)
      case BadBase64 => r == Err(CredentialMalformed(Base64Message))
      case BadUtf8 => r == Err(CredentialMalformed(Utf8Message))
      case NotOnePair => r == Err(CredentialMalformed(PairMessage))
      case EmptyHalf => r == Err(CredentialMalformed(EmptyMessage))
      case UserPass(u, p) => r == Ok(Basic(u, p))
  {
    match Base64.Decode(credential)
    case None => Err(CredentialMalformed(Base64Message))
    case Some(decodedPayload) =>
      match Utf8.Decode(decodedPayload)
      case None => Err(CredentialMalformed(Utf8Message))
      case Some(decodedText) =>
        var components := Text.Split(decodedText, ':');
        if |components| != 2 then Err(CredentialMalformed(PairMessage))
        else
          Text.SplitOnce(decodedText, ':');
          var username, password := Text.Trim(components[0]), Text.Trim(components[1]);
          if |username| == 0 || |password| == 0 then Err(CredentialMalformed(EmptyMessage))
          else Ok(Basic(username, password))
  }

  /** The scheme as a value of the `Authorization` trait. */
  const Scheme: Authorization<Basic> := Authorization(Kind, Parse)

  /** Round trip: parsing a client's payload for a user-id and a password without colons
      or surrounding whitespace gives exactly those. */
  lemma ParseEncode(kind: string, userId: string, password: string)
    requires BasicPayload.IsCredentialPart(userId) && BasicPayload.IsCredentialPart(password)
    ensures Parse(kind, BasicPayload.Encode(userId, password)) == Ok(Basic(userId, password))
  {
    Text.TrimIdentity(userId);
    Text.TrimIdentity(password);
    BasicPayload.ClassifyEncode(userId, password);
  }

  /** Round trip through the dispatcher: the header a client builds is answered with the
      credential it carries. */
  lemma FromRequestEncode(userId: string, password: string)
    requires BasicPayload.IsCredentialPart(userId) && BasicPayload.IsCredentialPart(password)
    ensures FromRequest(Scheme, Some(Kind + " " + BasicPayload.Encode(userId, password)))
      == Http.Success(Credential(Basic(userId, password)))
  {
    var payload := BasicPayload.Encode(userId, password);
    assert Text.SplitWhitespace(Kind + " " + payload) == [Kind, payload] by {
      BasicPayload.PayloadIsToken(userId, password);
      Text.SplitWhitespacePair(Kind, payload);
    }
    ParseEncode(Kind, userId, password);
    AcceptedCredential(Scheme, Kind + " " + payload, payload, Basic(userId, password));
  }

  /** Through the dispatcher, a request succeeds exactly when its header is a Basic header
      whose credential reads as a pair, and the credential it hands out is that pair. */
  lemma FromRequestClassify(header: Option<string>)
    ensures var o := FromRequest(Scheme, header);
      o.Success? <==>
        && header.Some?
        && |Text.SplitWhitespace(header.value)| == 2
        && Text.SplitWhitespace(header.value)[0] == Kind
        && BasicPayload.Classify(Text.SplitWhitespace(header.value)[1]).UserPass?
    ensures var o := FromRequest(Scheme, header);
      o.Success? ==> var v := BasicPayload.Classify(Text.SplitWhitespace(header.value)[1]);
        o.value == Credential(Basic(v.username, v.password))
  {
    if header.Some? {
      var sections := Text.SplitWhitespace(header.value);
      if |sections| == 2 && sections[0] == Kind {
        assert sections == [Kind, sections[1]];
        if BasicPayload.Classify(sections[1]).UserPass? {
          AcceptedThroughDispatcher(header.value, sections[1]);
        } else {
          RefusedThroughDispatcher(header.value, sections[1]);
        }
      } else {
        assert FromRequest(Scheme, header).Failure?;
      }
    }
  }

  /** A Basic header whose credential reads as a pair hands out that pair. */
  lemma AcceptedThroughDispatcher(header: string, credential: string)
    requires Text.SplitWhitespace(header) == [Kind, credential]
    requires BasicPayload.Classify(credential).UserPass?
    ensures var v := BasicPayload.Classify(credential);
      FromRequest(Scheme, Some(header)) == Http.Success(Credential(Basic(v.username, v.password)))
  {
    var v := BasicPayload.Classify(credential);
    var b := Basic(v.username, v.password);
    assert Scheme.parse(Scheme.kind, credential) == Ok(b) by {
      ParseAccepted(credential);
    }
    AcceptedCredential(Scheme, header, credential, b);
  }

  /** A credential that reads as a pair is accepted as that pair, whatever the scheme token. */
  lemma ParseAccepted(credential: string)
    requires BasicPayload.Classify(credential).UserPass?
    ensures var v := BasicPayload.Classify(credential);
      Parse(Kind, credential) == Ok(Basic(v.username, v.password))
  {
  }

  /** A Basic header whose credential does not read fails. */
  lemma RefusedThroughDispatcher(header: string, credential: string)
    requires Text.SplitWhitespace(header) == [Kind, credential]
    requires !BasicPayload.Classify(credential).UserPass?
    ensures FromRequest(Scheme, Some(header)).Failure?
  {
    var e := ParseRefused(credential);
    RefusedCredential(Scheme, header, credential, e);
  }

  /** A credential that does not read is refused as malformed, whatever the scheme token. */
  lemma ParseRefused(credential: string) returns (e: ParseError)
    requires !BasicPayload.Classify(credential).UserPass?
    ensures Parse(Kind, credential) == Err(e) && e.CredentialMalformed?
    ensures Scheme.parse(Scheme.kind, credential) == Err(e)
  {
    e := Parse(Kind, credential).error;
  }

  /** A Basic header whose credential does not read is answered with 400 and the
      parser's message, never with 401. */
  lemma MalformedIsBadRequest(header: string)
    requires var sections := Text.SplitWhitespace(header);
      |sections| == 2 && sections[0] == Kind && !BasicPayload.Classify(sections[1]).UserPass?
    ensures var o := FromRequest(Scheme, Some(header));
      o.Failure? && o.status == Http.BadRequest && o.error.CredentialMalformed?
  {
    var sections := Text.SplitWhitespace(header);
    var credential := sections[1];
    assert sections == [Kind, credential];
    var e := ParseRefused(credential);
    RefusedCredential(Scheme, header, credential, e);
  }
}
