# rocket-authorization, modelled in Dafny

This project models the `Authorization` header extractors of the Rust crate
rocket-authorization. It also models the two formatters of the `WWW-Authenticate`
challenge and the example administrator guard. An extractor splits the header into a
scheme token and a credential token and checks the scheme. A scheme parser then turns the
credential into a typed value or a typed error, and the extractor maps the error to
401 or 400. Basic credentials use the `user-pass` layout of section 2 of RFC 7617:
Base64 with the standard alphabet and padding (section 4 of RFC 4648), then UTF-8
(RFC 3629), then `user-id:password`. The parsers accept only part of what that section
allows. The text must hold exactly one colon, so a password with a colon is refused.
Both halves are trimmed, and a blank half is refused. A Bearer credential (section 2.1
of RFC 6750) is accepted as any whitespace-free token, not only a `b64token`.

The source tree holds three revisions side by side. Each source file is its own module:

- `Parse`: the first revision (src/parse.rs). One enum of credentials, one enum of errors,
  and one `parse` for both schemes.
- `ParseMod`, `ParseBasic`, `ParseOAuth`, `CustomAuth`: the second revision
  (src/parse/mod.rs, src/parse/basic.rs, src/parse/oauth.rs, example/src/custom_auth.rs).
  The `Authorization` trait becomes a datatype that holds the scheme's `KIND` and its
  parser. `ParseMod.FromRequest` is the generic extractor for `Credential<T>`.
- `Basic`, `OAuth`, `AuthError`: the latest scheme parsers (src/basic.rs, src/oauth.rs).
  Their error enum is not part of this model. `AuthError.Error` declares only the two
  variants they use.
- `Challenge`, `Response`, `Respond`: the challenge value (section 4.1 of RFC 7235) and
  the formatters of src/response.rs and src/respond.rs.
- `SysAdminGuard`: the guard of example/src/sysadmin_guard.rs.

Shared modules:

- `Text` models `trim`, `split` on a character and `split_whitespace`. Whitespace is the
  Unicode White_Space property.
- `Base64` and `Utf8` give encoders and decoders, proved inverse in both directions.
- `BasicPayload.Classify` is the reading of a Basic payload shared by all three
  revisions, narrower than RFC 7617 as said above. It finds the colon
  by counting and indexing. Each revision's Basic parser finds it with `split` as the
  source does, and is proved to agree with `Classify` on every input.
- `Results` and `Http` hold the result, status, outcome and response types.

Two statuses are easy to misread; the model follows the code:

- The doc comment on `HeaderMissing` says it responds with 401 Unauthorized
  (src/parse/mod.rs:17-18). The second revision's extractor answers a `HeaderMissing`
  returned by a scheme parser with 400 (src/parse/mod.rs:63-67), as the note on the enum
  warns (src/parse/mod.rs:9-10). `CustomAuth.BlankHalfIsBadRequest` proves it.
- The administrator guard keeps the inner failure's own status
  (example/src/sysadmin_guard.rs:12), which is 400 for a malformed header.
  `SysAdminGuard.Decide` states this.

## Model

| member | source | states |
|---|---|---|
| Text.Trim | src/parse.rs:30 | `trim` gives the empty string exactly when the input is all whitespace. Its result has no whitespace at either end and is the slice of the input between a whitespace prefix and a whitespace suffix. |
| Text.TrimCharacterised | src/parse.rs:30 | `trim` returns a string exactly when that string has no whitespace at either end and sits between a whitespace prefix and a whitespace suffix of the input, so the result is unique. |
| Text.TrimUnique | src/oauth.rs:16 | A string without whitespace at its ends, with whitespace runs put around it, trims back to itself. |
| Text.TrimIdempotent | src/oauth.rs:16 | Trimming twice gives the same result as trimming once. |
| Text.Split | src/parse.rs:25-26 | `split(":")` gives one more piece than there are colons, so two pieces means exactly one colon. No piece holds a colon. |
| Text.SplitJoin | src/parse.rs:25 | Joining the pieces of a split with the separator gives back the input. |
| Text.SplitOnce | src/parse.rs:25-30 | With exactly one colon, the two pieces are the text before and after it. |
| Text.SplitWhitespace | src/parse.rs:54 | Every token of `split_whitespace` is non-empty and free of whitespace. |
| Text.SplitWhitespaceSeparated | src/parse.rs:54 | Every string is its `split_whitespace` tokens interleaved with whitespace runs, and the runs between two tokens are non-empty. |
| Text.SplitWhitespaceInterleave | src/parse/mod.rs:52-57 | Tokens interleaved with such whitespace runs split back into exactly those tokens. |
| Text.SplitWhitespaceCharacterised | src/parse.rs:54-55 | `split_whitespace` yields a list of tokens exactly when the string is those tokens interleaved with whitespace runs, non-empty between tokens; so two sections means two tokens with whitespace around and between them. |
| Text.SplitWhitespacePair | src/parse/mod.rs:52-57 | Two tokens joined by a space split back into exactly those two tokens. |
| Base64.Decode | src/basic.rs:16-18 | Decodable text is a whole number of four-character groups, and only the empty text decodes to no bytes. |
| Base64.DecodeEncode | src/basic.rs:16-18 | Decoding the encoding of any bytes gives those bytes back. |
| Base64.EncodeDecode | src/parse.rs:22 | Text the decoder accepts is the encoding of the bytes it returns, so each byte string has exactly one accepted text. |
| Utf8.DecodeEncode | src/parse.rs:42-43 | The bytes of any string are valid UTF-8 and decode to that string, so `String::from_utf8` of a `&str` cannot fail. |
| Utf8.EncodeDecode | src/parse.rs:23 | Valid UTF-8 is the encoding of the text it decodes to. |
| BasicPayload.Classify | src/parse.rs:21-39 | Accepted credentials are non-empty, have no surrounding whitespace and hold no colon. |
| BasicPayload.ClassifyEncode | src/parse/basic.rs:14-38 | A client's payload for a user-id and a password without colons reads back as their trimmed forms when neither is blank. |
| BasicPayload.ClassifyEncodeBlank | src/parse.rs:30-33 | A payload whose user-id or password is blank is refused as empty. |
| BasicPayload.ClassifyColonInPassword | src/parse.rs:25-27 | A password holding a colon, which RFC 7617 allows, is refused as not one pair, whatever the user-id. |
| BasicPayload.ClassifyNotOnePair | src/parse.rs:25-28 | Decoded text with no colon or with several colons is refused as not one pair. |
| BasicPayload.ClassifyStable | src/basic.rs:28-36 | Re-encoding accepted credentials gives a payload that reads the same. |
| BasicPayload.PayloadIsToken | src/parse/mod.rs:52 | A Basic payload holds no whitespace and is non-empty, so it is a single header token. |
| BasicPayload.DemonstrationPayload | example/src/sysadmin_guard.rs:18-20 | `cm9vdDpwMnNzdzByZA==` is the payload for `root` and `p2ssw0rd`, and it reads back as that pair. |
| Parse.BasicCredentialsParse | src/parse.rs:21-39 | The outcomes, in order: invalid Base64 is `Base64DecodeError`; invalid UTF-8 is `UTFParseError`; a colon count other than one is `NonColonPairError`; a blank half is `EmptyError`; otherwise `BasicCredential` of the trimmed halves. |
| Parse.BearerTokenParse | src/parse.rs:41-51 | Never `UTFParseError`. `EmptyError` exactly for an all-whitespace credential. Every other credential is accepted, and its token is the trimmed credential, non-empty and trimmed. |
| Parse.Parse | src/parse.rs:53-64 | `InvalidHeader` exactly when the header is not two tokens. `UnknownKind` exactly when the scheme is neither `Basic` nor `Bearer`, compared case-sensitively. Otherwise the scheme's parser runs on the second token. |
| Parse.FromRequest | src/parse.rs:70-82 | A missing header is 401 `NotExists`. Every parse error is 400 and passed on unchanged. A credential succeeds. The status is 401 exactly when the header is missing, and the extractor never forwards. |
| Parse.BearerThroughParse | src/parse.rs:54-61 | Through `parse`, a Bearer header always yields its token, so the Bearer parser's error branches are unreachable there. |
| Parse.BasicRoundTrip | src/parse.rs:53-60 | `Basic` followed by the encoding of a colon-free, trimmed, non-empty user-id and password extracts exactly that pair. |
| Parse.BearerRoundTrip | src/parse.rs:41-61 | `Bearer` followed by any token extracts exactly that token. |
| Parse.ParseHeader | src/parse.rs:53-61 | A header of a scheme token, one space and a credential token goes to the Basic parser when the scheme is `Basic` and to the Bearer parser when it is `Bearer`. |
| Parse.BearerTokenParseToken | src/parse.rs:41-51 | A single token is accepted as a Bearer token unchanged. |
| Parse.BasicCredentialsParseEncode | src/parse.rs:21-39 | The Basic parser reads a client's payload for a colon-free, trimmed, non-empty pair back as that pair. |
| ParseMod.Credential.Deref | src/parse/mod.rs:34-40 | Dereferencing gives the value the wrapper was built from. |
| ParseMod.ParserErrorStatus | src/parse/mod.rs:63-67 | A parser error is answered with 401 exactly when it is `Unauthorized`. |
| ParseMod.FromRequest | src/parse/mod.rs:46-72 | Missing header: 401 `HeaderMissing`. Not two tokens: 400 `HeaderMalformed`, before any scheme check. Foreign scheme: 401 `IncompatibleKind`. Otherwise the parser gets `KIND` and the credential token: success is wrapped, `Unauthorized` is 401, any other error is 400. It never forwards. |
| ParseMod.ParserNotConsulted | src/parse/mod.rs:59-61 | For a header that is not two tokens or has a foreign scheme, replacing the parser changes nothing. The parser is never called there. |
| ParseMod.ParserSeesKindAndCredential | src/parse/mod.rs:57-63 | Two parsers that agree on (`KIND`, credential token) give the same outcome. |
| ParseMod.FailureStatus | src/parse/mod.rs:49-67 | A failure is 401 exactly for a missing header, a foreign scheme or a parser's `Unauthorized`. A parser's `HeaderMissing` or `IncompatibleKind` is 400. |
| ParseMod.SuccessDeref | src/parse/mod.rs:68 | On success, dereferencing the credential gives exactly the parser's value. |
| ParseMod.AcceptedCredential | src/parse/mod.rs:57-68 | A header of `KIND` and an accepted credential succeeds with the parser's value. |
| ParseMod.RefusedCredential | src/parse/mod.rs:63-67 | A header of `KIND` and a refused credential fails with the parser's error and its status. |
| ParseMod.AcceptedToken | src/parse/mod.rs:52-68 | The header `KIND credential`, built from two tokens, succeeds with the parser's value when the parser accepts the credential. |
| ParseMod.RefusedToken | src/parse/mod.rs:52-67 | The header `KIND credential`, built from two tokens, fails with the parser's error and its status when the parser refuses the credential. |
| ParseBasic.Parse | src/parse/basic.rs:13-39 | Each failure is `CredentialMalformed`, with the message for its step: `Base64 Decode Error`, `UTF8 Parse Error`, `Non-Colon Pair Given` or `No Credentials Given`. Success gives `Basic` of the trimmed halves. Every outcome agrees with `BasicPayload.Classify`. |
| ParseBasic.ParseEncode | src/parse/basic.rs:14-38 | Parsing a client's payload for a colon-free, trimmed, non-empty pair gives exactly that pair. |
| ParseBasic.FromRequestEncode | src/parse/basic.rs:10-39 | Through the extractor, the header `Basic <payload>` for such a pair succeeds with that pair. |
| ParseBasic.MalformedIsBadRequest | src/parse/basic.rs:14-33 | A Basic header whose credential does not read fails with 400 and `CredentialMalformed`, never with 401. |
| ParseBasic.FromRequestClassify | src/parse/basic.rs:13-39 | Through the extractor, a request succeeds exactly when its header is `Basic` and a credential that reads as a pair, and the credential it hands out is that pair. |
| ParseBasic.ParseAccepted | src/parse/basic.rs:35-38 | A credential that reads as a pair is accepted as that pair. |
| ParseBasic.ParseRefused | src/parse/basic.rs:14-33 | A credential that does not read is refused with `CredentialMalformed`. |
| ParseOAuth.Parse | src/parse/oauth.rs:10-22 | Never `UTFParseError`. `EmptyError` exactly for a blank credential. Otherwise the token is the trimmed credential, non-empty and trimmed. |
| ParseOAuth.ParseToken | src/parse/oauth.rs:14-21 | A non-empty trimmed token parses to itself. |
| Basic.Parse | src/basic.rs:15-37 | Every failure is `Unprocessable`. Base64 and UTF-8 failures have messages starting with `Base64 Decode Error: ` and `UTF8 Parse Error: `. Pair and blank failures have their fixed messages. Success gives colon-free, trimmed, non-empty halves. Every outcome agrees with `BasicPayload.Classify`. |
| Basic.MessagesDistinct | src/basic.rs:16-31 | The four failure messages are told apart: no message starts with both prefixes, and the fixed messages start with neither. |
| Basic.ParseEncode | src/basic.rs:15-37 | Parsing a client's payload for a colon-free, trimmed, non-empty pair gives exactly that pair. |
| Basic.ParseDemonstration | src/basic.rs:15-36 | `cm9vdDpwMnNzdzByZA==` parses to user-id `root` and password `p2ssw0rd`. |
| OAuth.Parse | src/oauth.rs:12-24 | The only error is `HeaderMissing`, exactly for a blank credential, so the `Unprocessable` branch is unreachable. Otherwise the token is the trimmed credential. |
| OAuth.ParseIdempotent | src/oauth.rs:16-23 | A token the parser returns parses to itself. |
| CustomAuth.Parse | example/src/custom_auth.rs:12-29 | No Base64 step. A colon count other than one is `CredentialMalformed("Invalid Key-Value Pair Format Error")`. A blank slug or token is `HeaderMissing`. Otherwise the trimmed halves, each non-empty, trimmed and colon-free. |
| CustomAuth.ParsePair | example/src/custom_auth.rs:13-28 | `slug:token` with colon-free, trimmed, non-empty halves parses to exactly those halves. |
| CustomAuth.ParseBlankHalf | example/src/custom_auth.rs:20-23 | A blank slug or token is reported as `HeaderMissing`. |
| CustomAuth.BlankHalfIsBadRequest | example/src/custom_auth.rs:20-23 | Through the extractor, that `HeaderMissing` is answered with 400, while a missing header is answered with 401. |
| Challenge.ValueFormat | src/response.rs:39-46 | The challenge is the format string `{} realm="{}", charset="UTF-8"` with the scheme and the realm filled in verbatim. |
| Challenge.ReadValue | src/respond.rs:9-13 | The challenge of a scheme without spaces reads back as that scheme and exactly the realm, whatever characters the realm holds. |
| Challenge.ReadSound | src/response.rs:39-46 | Whatever the reader accepts is the challenge of the scheme and realm it returns. |
| Challenge.ValueInjective | src/respond.rs:9-13 | Different schemes or realms give different challenges. |
| Response.NewBasic | src/response.rs:19-24 | `basic(realm)` has kind `Basic` and keeps the realm unchanged. |
| Response.NewBearer | src/response.rs:25-30 | `bearer(realm)` has kind `Bearer` and keeps the realm unchanged. |
| Response.SchemeName | src/response.rs:41-44 | Kind `Basic` gives `Basic` and kind `Bearer` gives `Bearer`, in both directions. Neither name has a space. |
| Response.RespondTo | src/response.rs:34-49 | Always 401 `Unauthorized`, with one `WWW-Authenticate` header whose value is the challenge for the kind's scheme and the realm. |
| Response.RespondToRead | src/response.rs:39-46 | The header value reads back as the kind's scheme and the realm. |
| Response.RespondToInjective | src/response.rs:33-49 | Different requests for authorization get different responses. |
| Respond.RequestAuthorization | src/respond.rs:4-16 | Always 401 `Unauthorized`, with one `WWW-Authenticate` header whose value is the challenge for `KIND` and the realm. |
| Respond.RequestAuthorizationRead | src/respond.rs:9-13 | For a `KIND` without spaces, the header value reads back as `KIND` and the realm. |
| Respond.AgreesWithResponse | src/respond.rs:4-16 | For the Basic and Bearer schemes of either revision, it gives the same response as `respond_to` of src/response.rs. |
| SysAdminGuard.Decide | example/src/sysadmin_guard.rs:10-26 | An inner failure is passed on with the same status and the error dropped. A forward stays a forward. A credential is admitted exactly when both user-id and password match, with the provided user-id as identity. Any mismatch is 401. |
| SysAdminGuard.FromRequest | example/src/sysadmin_guard.rs:9-27 | Admitted exactly when the header is `Basic` with a credential that reads as the expected pair. The expected pair defaults to `root`/`p2ssw0rd` when the variables are unset. A missing header is 401, and the guard never forwards. |
| SysAdminGuard.DefaultsAdmitDemonstration | example/src/sysadmin_guard.rs:18-20 | With neither variable set, `Basic cm9vdDpwMnNzdzByZA==` admits `root`. |
| SysAdminGuard.ExpectedPairAdmitted | example/src/sysadmin_guard.rs:22-23 | For any colon-free, trimmed, non-empty expected pair, the header a client builds from it is admitted. |

## Left out

- The web framework's plumbing is not modelled: `Request`, `FromRequest`, the outcome machinery, the response builder and `async`. A header lookup is an `Option<string>`, an outcome is `Http.Outcome`, and a response is `Http.Response`.
- The `request` argument of the trait's `parse` is omitted, because no parser shown reads it.
- Only the first `Authorization` header matters, because `get_one` returns the first. The model takes that header as its input.
- Basic.Parse: the message after the `Base64 Decode Error: ` or `UTF8 Parse Error: ` prefix is not modelled. It comes from the libraries' error display, which is not visible. The model's message is the prefix alone, and the contract promises only the prefix.
- Base64 is decoded strictly: whole groups of four, padding only at the end, and zero discarded bits. The exact leniency of the `base64` crate versions behind `base64::decode` and the STANDARD engine is not visible, so any leniency is not modelled.
- Lengths in bytes (`len() == 0`, `is_empty()`) are modelled as emptiness of the character string. These are the same test.
- The environment reads in example/src/sysadmin_guard.rs:18-19 are I/O. Their results are the parameters `usernameVar` and `passwordVar`.
- The latest revision's error enum and its status mapping are not part of this model, and no extractor of that revision is shown. `AuthError.Error` declares only `HeaderMissing` and `Unprocessable`.
- src/parse/oauth.rs does not fit the trait of src/parse/mod.rs: its parser takes two arguments and its error variants are its own. `ParseOAuth` models it as written and is not plugged into `ParseMod.FromRequest`.
- Respond.RequestAuthorization takes the scheme's `KIND` directly, because the source's type parameter is used only for that constant.
- The payload of a forward is the unit value and is dropped.
- The administrator guard imports `Basic` and `Credential` and implements the two-lifetime, synchronous `FromRequest`, which matches none of the revisions shown exactly. `SysAdminGuard` is built on the second revision's extractor, `ParseMod.FromRequest` with `ParseBasic.Scheme`, whose `Credential<Basic>` it names.
- The parsers do not check RFC 7617's or RFC 6750's character sets. They accept any Basic halves without a colon and any Bearer token without whitespace, as the source does. A password with a colon and a blank or padded half, which RFC 7617 permits, are refused or trimmed, as the source does (`BasicPayload.ClassifyColonInPassword`, `BasicPayload.ClassifyEncodeBlank`).
- example/src/main.rs (server launch and routes) and src/lib.rs (module declarations) are not part of this model.
