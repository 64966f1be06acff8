/** The second formatter of the credentials challenge (src/respond.rs): the scheme is the
    `KIND` of any scheme of the second revision's trait, and the type parameter of the
    source enters only through that name. */
module Respond {
  import Http
  import Challenge
  import opened Results
  import Response
  import ParseBasic
  import ParseOAuth
  import Basic
  import OAuth

  /** `request_authorization`: always 401 "Unauthorized", with one `WWW-Authenticate`
      header whose value is the challenge for the scheme's `KIND` and the realm. */
  function RequestAuthorization(kind: string, realm: string): (response: Http.Response)
    ensures response.code == 401 && response.reason == "Unauthorized"
    ensures |response.headers| == 1 && response.headers[0].0 == "WWW-Authenticate"
    ensures response.headers[0].1 == Challenge.Value(kind, realm)
  {
    Http.Response(401, "Unauthorized", [("WWW-Authenticate", Challenge.Value(kind, realm))])
  }

  /** For a `KIND` without spaces the header carries the scheme and the realm unchanged. */
  lemma RequestAuthorizationRead(kind: string, realm: string)
    requires ' ' !in kind
    ensures Challenge.Read(RequestAuthorization(kind, realm).headers[0].1) == Some((kind, realm))
  {
    Challenge.ReadValue(kind, realm);
  }

  /** For the crate's Basic and Bearer schemes, of either revision, both formatters give
      the same response. */
  lemma AgreesWithResponse(realm: string)
    ensures RequestAuthorization(ParseBasic.Kind, realm) == Response.RespondTo(Response.NewBasic(realm))
    ensures RequestAuthorization(Basic.Kind, realm) == Response.RespondTo(Response.NewBasic(realm))
    ensures RequestAuthorization(ParseOAuth.Kind, realm) == Response.RespondTo(Response.NewBearer(realm))
    ensures RequestAuthorization(OAuth.Kind, realm) == Response.RespondTo(Response.NewBearer(realm))
  {
  }
}
