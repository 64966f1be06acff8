/** The first formatter of the credentials challenge (src/response.rs): a request for
    authorization names one of the two built-in schemes and a realm, and is answered with
    401 and a `WWW-Authenticate` header. */
module Response {
  import Http
  import Challenge
  import opened Results

  datatype AuthorizationKind = Basic | Bearer

  datatype RequestAuthorization = RequestAuthorization(kind: AuthorizationKind, realm: string)

  /** `RequestAuthorization::basic` */
  function NewBasic(realm: string): (r: RequestAuthorization)
    ensures r.kind == Basic && r.realm == realm
  {
    RequestAuthorization(Basic, realm)
  }

  /** `RequestAuthorization::bearer` */
  function NewBearer(realm: string): (r: RequestAuthorization)
    ensures r.kind == Bearer && r.realm == realm
  {
    RequestAuthorization(Bearer, realm)
  }

  /** The scheme name of a kind: one word, and a different one for each kind. */
  function SchemeName(kind: AuthorizationKind): (s: string)
    ensures ' ' !in s
    ensures s == "Basic" <==> kind == Basic
    ensures s == "Bearer" <==> kind == Bearer
  {
    match kind
    case Basic => "Basic"
    case Bearer => "Bearer"
  }

  /** `respond_to`: always 401 "Unauthorized", with one `WWW-Authenticate` header whose
      value is the challenge for the kind's scheme and the realm. */
  function RespondTo(request: RequestAuthorization): (response: Http.Response)
    ensures response.code == 401 && response.reason == "Unauthorized"
    ensures |response.headers| == 1 && response.headers[0].0 == "WWW-Authenticate"
    ensures response.headers[0].1 == Challenge.Value(SchemeName(request.kind), request.realm)
  {
    Http.Response(401, "Unauthorized",
      [("WWW-Authenticate", Challenge.Value(SchemeName(request.kind), request.realm))])
  }

  /** The header carries the whole request: reading it back gives the kind's scheme and
      the realm unchanged, so different requests get different responses. */
  lemma RespondToRead(request: RequestAuthorization)
    ensures Challenge.Read(RespondTo(request).headers[0].1) == Some((SchemeName(request.kind), request.realm))
  {
    Challenge.ReadValue(SchemeName(request.kind), request.realm);
  }

  /** Different requests for authorization get different responses. */
  lemma RespondToInjective(a: RequestAuthorization, b: RequestAuthorization)
    requires RespondTo(a) == RespondTo(b)
    ensures a == b
  {
    RespondToRead(a);
    RespondToRead(b);
  }
}
