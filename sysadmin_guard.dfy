/** The example's administrator guard (example/src/sysadmin_guard.rs): it runs the Basic
    extractor of the second revision and admits the request only when the credentials are
    the expected user-id and password. The two environment variables that may override
    the expected pair are parameters here. */
module SysAdminGuard {
  import opened Results
  import opened Http
  import Text
  import ParseMod
  import ParseBasic
  import BasicPayload

  /** The identity of an admitted administrator: the user-id the client gave. */
  datatype SysAdmin = SysAdmin(username: string)

  /** The decision on the Basic extractor's outcome: its failure is passed on with the
      same status and without its error, a forward stays a forward, and a credential is
      admitted exactly when both the user-id and the password are the expected ones. */
  function Decide(inner: Outcome<ParseMod.Credential<ParseBasic.Basic>, ParseMod.ParseError>,
                  username: string, password: string): (o: Outcome<SysAdmin, ()>)
    ensures inner.Failure? ==> o == Failure(inner.status, ())
    ensures inner.Forward? <==> o.Forward?
    ensures inner.Success? ==>
      var provided := inner.value.Deref();
      && (o.Success? <==> provided.username == username && provided.password == password)
      && (o.Success? ==> o.value == SysAdmin(provided.username))
      && (!o.Success? ==> o == Failure(Unauthorized, ()))
  {
    match inner
    case Failure(status, _) => Failure(status, ())
    case Forward => Forward
    case Success(providedAuth) =>
      if providedAuth.Deref().username == username && providedAuth.Deref().password == password
      then Success(SysAdmin(providedAuth.Deref().username))
      else Failure(Unauthorized, ())
  }

  /** `SysAdmin::from_request`, with the values of the two environment variables as
      parameters. A request is admitted exactly when its header is a Basic header whose
      credential reads as the expected pair, and the identity is the expected user-id. */
  function FromRequest(header: Option<string>, usernameVar: Option<string>, passwordVar: Option<string>): (o: Outcome<SysAdmin, ()>)
    ensures var (username, password) := (usernameVar.UnwrapOr(BasicPayload.DemoUser), passwordVar.UnwrapOr(BasicPayload.DemoPassword));
      o.Success? <==>
        && header.Some?
        && |Text.SplitWhitespace(header.value)| == 2
        && Text.SplitWhitespace(header.value)[0] == ParseBasic.Kind
        && BasicPayload.Classify(Text.SplitWhitespace(header.value)[1]) == BasicPayload.UserPass(username, password)
    ensures o.Success? ==> o.value == SysAdmin(usernameVar.UnwrapOr(BasicPayload.DemoUser))
    ensures header.None? ==> o == Failure(Unauthorized, ())
    ensures !o.Forward?
  {
    ParseBasic.FromRequestClassify(header);
    var providedAuth := ParseMod.FromRequest(ParseBasic.Scheme, header);
    var username := usernameVar.UnwrapOr(BasicPayload.DemoUser);
    var password := passwordVar.UnwrapOr(BasicPayload.DemoPassword);
    Decide(providedAuth, username, password)
  }

  /** With neither variable set, the demonstration header admits user `root`. */
  lemma DefaultsAdmitDemonstration()
    ensures FromRequest(Some(ParseBasic.Kind + " " + BasicPayload.DemoPayload), None, None)
      == Success(SysAdmin(BasicPayload.DemoUser))
  {
    var (user, password) := (BasicPayload.DemoUser, BasicPayload.DemoPassword);
    var header := ParseBasic.Kind + " " + BasicPayload.Encode(user, password);
    BasicPayload.DemonstrationParts();
    ExpectedPairAdmitted(user, password);
    assert FromRequest(Some(header), None, None) == FromRequest(Some(header), Some(user), Some(password));
    BasicPayload.DemonstrationPayload();
  }

  /** Whatever pair the environment sets, the header a client builds from that pair is
      admitted, provided the pair has no colons and no surrounding whitespace. */
  lemma ExpectedPairAdmitted(username: string, password: string)
    requires BasicPayload.IsCredentialPart(username) && BasicPayload.IsCredentialPart(password)
    ensures FromRequest(Some(ParseBasic.Kind + " " + BasicPayload.Encode(username, password)), Some(username), Some(password))
      == Success(SysAdmin(username))
  {
    ParseBasic.FromRequestEncode(username, password);
  }
}
