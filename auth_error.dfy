/** The error of the latest revision's scheme parsers. Its definition is not part of this
    model: only the two variants that src/basic.rs and src/oauth.rs use are declared, and
    no status is attached to them. */
module AuthError {
  datatype Error = HeaderMissing | Unprocessable(message: string)
}
