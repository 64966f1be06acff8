/** The `user-pass` payload of the Basic scheme (section 2 of RFC 7617): the user-id, a
    colon and the password, encoded as UTF-8 and then as Base64. `Encode` is what a
    client sends. `Classify` is the reading that every revision of the Basic parser is
    proved to follow. It accepts only part of what RFC 7617 allows: exactly one colon (so
    no colon in the password), and both halves trimmed and non-empty. It finds the colon
    by counting and indexing rather than by splitting, and each verdict names one way a
    payload can fail. */
module BasicPayload {
  import opened Results
  import Text
  import Base64
  import Utf8
  import Bytes

  /** How a Basic payload reads: the first failing step, or the credentials. */
  datatype Verdict =
    | BadBase64
    | BadUtf8
    | NotOnePair
    | EmptyHalf
    | UserPass(username: string, password: string)

  /** What a Basic parser hands out as a user-id or a password: non-empty, without
      surrounding whitespace and without a colon. */
  predicate IsCredentialPart(s: string) {
    s != [] && Text.IsTrimmed(s) && ':' !in s
  }

  /** The payload a client sends for a user-id and a password. */
  function Encode(userId: string, password: string): string {
    Base64.Encode(Utf8.Encode(userId + [':'] + password))
  }

  /** The reference reading of a payload: Base64, then UTF-8, then exactly one colon,
      then both trimmed halves non-empty. */
  function Classify(credential: string): (v: Verdict)
    ensures v.UserPass? ==> IsCredentialPart(v.username) && IsCredentialPart(v.password)
  {
    match Base64.Decode(credential)
    case None => BadBase64
    case Some(bytes) =>
      match Utf8.Decode(bytes)
      case None => BadUtf8
      case Some(text) =>
        if Text.Count(text, ':') != 1 then NotOnePair
        else
          Text.HalvesOfOne(text, ':');
          var (before, after) := Text.Halves(text, ':');
          var username, password := Text.Trim(before), Text.Trim(after);
          if username == [] || password == [] then EmptyHalf
          else UserPass(username, password)
  }

  /** Any text survives the Base64 and UTF-8 layers unchanged. */
  lemma DecodeLayers(text: string)
    ensures Base64.Decode(Base64.Encode(Utf8.Encode(text))) == Some(Utf8.Encode(text))
    ensures Utf8.Decode(Utf8.Encode(text)) == Some(text)
  {
    Base64.DecodeEncode(Utf8.Encode(text));
    Utf8.DecodeEncode(text);
  }

  /** The halves of a user-id and password joined by their one colon. */
  lemma HalvesOfPair(userId: string, password: string)
    requires ':' !in userId && ':' !in password
    ensures var text := userId + [':'] + password;
      Text.Count(text, ':') == 1 && Text.Halves(text, ':') == (userId, password)
  {
    var text := userId + [':'] + password;
    Text.SplitPair(userId, password, ':');
    Text.SplitOnce(text, ':');
  }

  /** Round trip: a client's payload reads back as the trimmed user-id and password,
      provided neither holds a colon and neither is blank. */
  lemma ClassifyEncode(userId: string, password: string)
    requires ':' !in userId && ':' !in password
    requires Text.Trim(userId) != [] && Text.Trim(password) != []
    ensures Classify(Encode(userId, password)) == UserPass(Text.Trim(userId), Text.Trim(password))
  {
    DecodeLayers(userId + [':'] + password);
    HalvesOfPair(userId, password);
  }

  /** A payload whose user-id or password is blank is refused as empty. */
  lemma ClassifyEncodeBlank(userId: string, password: string)
    requires ':' !in userId && ':' !in password
    requires Text.AllWhitespace(userId) || Text.AllWhitespace(password)
    ensures Classify(Encode(userId, password)) == EmptyHalf
  {
    DecodeLayers(userId + [':'] + password);
    HalvesOfPair(userId, password);
  }

  /** Text with no colon or with several colons is refused, whatever else it holds. */
  lemma ClassifyNotOnePair(text: string)
    requires Text.Count(text, ':') != 1
    ensures Classify(Base64.Encode(Utf8.Encode(text))) == NotOnePair
  {
    DecodeLayers(text);
  }

  /** A password holding a colon, which RFC 7617 allows, is refused: the text then has
      more than one colon. */
  lemma ClassifyColonInPassword(userId: string, password: string)
    requires ':' in password
    ensures Classify(Encode(userId, password)) == NotOnePair
  {
    Text.CountAppend(userId + [':'], password, ':');
    Text.CountAppend(userId, [':'], ':');
    Text.CountZero(password, ':');
    assert Text.Count([':'], ':') == 1 by {
      assert [':'][1..] == [];
    }
    ClassifyNotOnePair(userId + [':'] + password);
  }

  /** Re-encoding accepted credentials gives a payload that reads the same way. */
  lemma ClassifyStable(credential: string)
    requires Classify(credential).UserPass?
    ensures var v := Classify(credential); Classify(Encode(v.username, v.password)) == v
  {
    var v := Classify(credential);
    Text.TrimIdentity(v.username);
    Text.TrimIdentity(v.password);
    ClassifyEncode(v.username, v.password);
  }

  /** No Base64 character is whitespace. */
  lemma EncodingCharNotWhitespace(c: char)
    requires Base64.IsEncodingChar(c)
    ensures !Text.IsWhitespace(c)
  {
  }

  /** Base64 text of at least one byte is a single header token: `split_whitespace`
      keeps it in one piece. */
  lemma EncodedIsToken(b: seq<Bytes.Byte>)
    requires b != []
    ensures Text.IsToken(Base64.Encode(b))
  {
    var s := Base64.Encode(b);
    Base64.EncodedChars(b);
    forall i | 0 <= i < |s|
      ensures !Text.IsWhitespace(s[i])
    {
      EncodingCharNotWhitespace(s[i]);
    }
  }

  /** A client's Basic payload is a single header token. */
  lemma PayloadIsToken(userId: string, password: string)
    ensures Text.IsToken(Encode(userId, password))
  {
    EncodedIsToken(Utf8.Encode(userId + [':'] + password));
  }

  /** The administrator guard's default user-id and password, and the payload that
      carries them. */
  const DemoUser: string := "root"
  const DemoPassword: string := "p2ssw0rd"
  const DemoPayload: string := "cm9vdDpwMnNzdzByZA=="

  /** The demonstration user-id and password are credentials a Basic parser can hand out. */
  lemma DemonstrationParts()
    ensures IsCredentialPart(DemoUser) && IsCredentialPart(DemoPassword)
  {
    assert DemoUser == ['r', 'o', 'o', 't'];
    assert DemoPassword == ['p', '2', 's', 's', 'w', '0', 'r', 'd'];
  }

  /** The UTF-8 bytes of `root:p2ssw0rd`. */
  const DemoBytes: seq<Bytes.Byte> := [114, 111, 111, 116, 58, 112, 50, 115, 115, 119, 48, 114, 100]

  /** The bytes of the demonstration credentials. */
  lemma DemonstrationBytes()
    ensures Utf8.Encode(DemoUser + [':'] + DemoPassword) == DemoBytes
  {
    var text := DemoUser + [':'] + DemoPassword;
    assert forall i :: 0 <= i < |text| ==> text[i] as int < 0x80;
    Utf8.EncodeAscii(text);
  }

  /** The four characters of each complete group of the demonstration bytes. */
  lemma DemonstrationGroups()
    ensures Base64.EncodeGroup(114, 111, 111) == "cm9v"
    ensures Base64.EncodeGroup(116, 58, 112) == "dDpw"
    ensures Base64.EncodeGroup(50, 115, 115) == "MnNz"
    ensures Base64.EncodeGroup(119, 48, 114) == "dzBy"
    ensures Base64.Encode([100]) == "ZA=="
  {
  }

  /** The Base64 text of the demonstration bytes, one group at a time. */
  lemma DemonstrationBase64()
    ensures Base64.Encode(DemoBytes) == DemoPayload
  {
    DemonstrationGroups();
    var b := DemoBytes;
    assert b[12..] == [100];
    Base64.EncodeCons(b[9..12], b[12..]);
    assert b[9..] == b[9..12] + b[12..];
    Base64.EncodeCons(b[6..9], b[9..]);
    assert b[6..] == b[6..9] + b[9..];
    Base64.EncodeCons(b[3..6], b[6..]);
    assert b[3..] == b[3..6] + b[6..];
    Base64.EncodeCons(b[..3], b[3..]);
    assert b == b[..3] + b[3..];
    DemonstrationPieces();
  }

  /** The demonstration payload, group by group. */
  lemma DemonstrationPieces()
    ensures DemoPayload == "cm9v" + ("dDpw" + ("MnNz" + ("dzBy" + "ZA==")))
  {
  }

  /** The demonstration credentials of the administrator guard: the payload is what a
      client sends for them, and it reads back as them. */
  lemma DemonstrationPayload()
    ensures Encode(DemoUser, DemoPassword) == DemoPayload
    ensures Classify(DemoPayload) == UserPass(DemoUser, DemoPassword)
  {
    DemonstrationBytes();
    DemonstrationBase64();
    DemonstrationParts();
    Text.TrimIdentity(DemoUser);
    Text.TrimIdentity(DemoPassword);
    ClassifyEncode(DemoUser, DemoPassword);
  }
}
