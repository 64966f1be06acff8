/** The latest revision's Basic scheme (src/basic.rs): the same reading of the payload of
    section 2 of RFC 7617, with the standard Base64 engine (alphabet and padding of
    section 4 of RFC 4648), and every failure an `Unprocessable` error with a message. */
module Basic {
  import opened Results
  import opened AuthError
  import Text
  import Base64
  import Utf8
  import BasicPayload

  /** The scheme name, `KIND`. */
  const Kind: string := "Basic"

  datatype Basic = Basic(username: string, password: string)

  /** The messages of the Base64 and UTF-8 failures start with these; what the libraries
      append to them is not modelled. */
  const Base64Prefix: string := "Base64 Decode Error: "
  const Utf8Prefix: string := "UTF8 Parse Error: "
  const PairMessage: string := "Non-Colon Pair Given"
  const EmptyMessage: string := "No Credentials Given"

  predicate StartsWith(s: string, prefix: string) {
    |prefix| <= |s| && s[..|prefix|] == prefix
  }

  /** `Basic::parse`: the scheme token is ignored; every failure is `Unprocessable`, and
      its message tells which step of the reference reading refused the credential; on
      success the user-id and password are the trimmed halves, non-empty, without
      surrounding whitespace and without a colon. */
  function Parse(kind: string, credential: string): (r: Result<Basic, Error>)
    ensures r.Err? ==> r.error.Unprocessable?
    ensures match BasicPayload.Classify(credential)
      case BadBase64 => r.Err? && StartsWith(r.error.message, Base64Prefix)
      case BadUtf8 => r.Err? && StartsWith(r.error.message, Utf8Prefix)
      case NotOnePair => r == Err(Unprocessable(PairMessage))
      case EmptyHalf => r == Err(Unprocessable(EmptyMessage))
      case UserPass(u, p) => r == Ok(Basic(u, p))
    ensures r.Ok? ==>
      BasicPayload.IsCredentialPart(r.value.username) && BasicPayload.IsCredentialPart(r.value.password)
  {
    match Base64.Decode(credential)
    case None => Err(Unprocessable(Base64Prefix))
    case Some(decodedPayload) =>
      match Utf8.Decode(decodedPayload)
      case None => Err(Unprocessable(Utf8Prefix))
      case Some(decodedText) =>
        var components := Text.Split(decodedText, ':');
        if |components| != 2 then Err(Unprocessable(PairMessage))
        else
          Text.SplitOnce(decodedText, ':');
          var username, password := Text.Trim(components[0]), Text.Trim(components[1]);
          if |username| == 0 || |password| == 0 then Err(Unprocessable(EmptyMessage))
          else Ok(Basic(username, password))
  }

  /** The four failure messages tell the steps apart: no two of them are alike. */
  lemma MessagesDistinct(m: string)
    ensures !(StartsWith(m, Base64Prefix) && StartsWith(m, Utf8Prefix))
    ensures !StartsWith(PairMessage, Base64Prefix) && !StartsWith(PairMessage, Utf8Prefix)
    ensures !StartsWith(EmptyMessage, Base64Prefix) && !StartsWith(EmptyMessage, Utf8Prefix)
    ensures PairMessage != EmptyMessage
  {
    assert StartsWith(m, Base64Prefix) ==> m[0] == 'B';
    assert PairMessage[0] == 'N' && EmptyMessage[0] == 'N';
    assert PairMessage[1] == 'o' && EmptyMessage[1] == 'o';
    assert PairMessage[2] == 'n' && EmptyMessage[2] == ' ';
  }

  /** Round trip: a client's payload for a user-id and a password without colons or
      surrounding whitespace reads back as exactly those. */
  lemma ParseEncode(kind: string, userId: string, password: string)
    requires BasicPayload.IsCredentialPart(userId) && BasicPayload.IsCredentialPart(password)
    ensures Parse(kind, BasicPayload.Encode(userId, password)) == Ok(Basic(userId, password))
  {
    Text.TrimIdentity(userId);
    Text.TrimIdentity(password);
    BasicPayload.ClassifyEncode(userId, password);
  }

  /** The demonstration payload reads as user `root` with password `p2ssw0rd`. */
  lemma ParseDemonstration(kind: string)
    ensures Parse(kind, BasicPayload.DemoPayload) == Ok(Basic(BasicPayload.DemoUser, BasicPayload.DemoPassword))
  {
    BasicPayload.DemonstrationPayload();
  }
}
