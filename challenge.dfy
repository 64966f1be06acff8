/** The value of the `WWW-Authenticate` header that asks a client for credentials
    (section 4.1 of RFC 7235): the scheme, a space, then the realm and charset parameters.
    Both formatters of the crate build it with the same format string, and the realm is
    inserted verbatim, without escaping. */
module Challenge {
  import opened Results
  import Text

  /** The fixed text before and after the realm. */
  const RealmKey: string := "realm=\""
  const CharsetClose: string := "\", charset=\"UTF-8\""

  /** The parameters after the scheme. */
  function Parameters(realm: string): string {
    RealmKey + realm + CharsetClose
  }

  /** The challenge for a scheme and a realm. */
  function Value(scheme: string, realm: string): string {
    scheme + [' '] + Parameters(realm)
  }

  /** The challenge is the format string of both formatters with the scheme and the realm
      filled in. */
  lemma ValueFormat(scheme: string, realm: string)
    ensures Value(scheme, realm) == scheme + " realm=\"" + realm + "\", charset=\"UTF-8\""
  {
    assert [' '] + RealmKey == " realm=\"";
  }

  /** `s` starts with `open` and ends with `close`, without overlap. */
  predicate Enclosed(s: string, open: string, close: string) {
    |s| >= |open| + |close| && s[..|open|] == open && s[|s| - |close|..] == close
  }

  /** What lies between `open` and `close`. */
  function Inside(s: string, open: string, close: string): string
    requires Enclosed(s, open, close)
  {
    s[|open|..|s| - |close|]
  }

  lemma EnclosedParts(s: string, open: string, close: string)
    requires Enclosed(s, open, close)
    ensures s == open + Inside(s, open, close) + close
  {
    assert s == s[..|open|] + s[|open|..|s| - |close|] + s[|s| - |close|..];
  }

  /** Reading a challenge back: the scheme runs up to the first space and the realm is
      what lies between the fixed texts after it. */
  function Read(v: string): Option<(string, string)> {
    if ' ' !in v then None
    else
      var (scheme, tail) := Text.Halves(v, ' ');
      if Enclosed(tail, RealmKey, CharsetClose)
      then Some((scheme, Inside(tail, RealmKey, CharsetClose)))
      else None
  }

  /** Whatever `Read` accepts is the challenge of the scheme and realm it returns, and
      that scheme has no space. */
  lemma ReadSound(v: string)
    requires Read(v).Some?
    ensures Value(Read(v).value.0, Read(v).value.1) == v && ' ' !in Read(v).value.0
  {
    var (scheme, tail) := Text.Halves(v, ' ');
    EnclosedParts(tail, RealmKey, CharsetClose);
  }

  /** Round trip: the challenge of a scheme without spaces reads back as that scheme and
      exactly the realm that went in, whatever characters the realm holds. */
  lemma ReadValue(scheme: string, realm: string)
    requires ' ' !in scheme
    ensures Read(Value(scheme, realm)) == Some((scheme, realm))
  {
    var v := Value(scheme, realm);
    var tail := Parameters(realm);
    Text.IndexOfAfter(scheme, tail, ' ');
    assert v[..|scheme|] == scheme;
    assert v[|scheme| + 1..] == tail;
    assert tail[..|RealmKey|] == RealmKey;
    assert tail[|tail| - |CharsetClose|..] == CharsetClose;
    assert tail[|RealmKey|..|tail| - |CharsetClose|] == realm;
  }

  /** Different schemes or realms give different challenges. */
  lemma ValueInjective(scheme1: string, realm1: string, scheme2: string, realm2: string)
    requires ' ' !in scheme1 && ' ' !in scheme2
    requires Value(scheme1, realm1) == Value(scheme2, realm2)
    ensures scheme1 == scheme2 && realm1 == realm2
  {
    ReadValue(scheme1, realm1);
    ReadValue(scheme2, realm2);
  }
}
