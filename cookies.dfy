/**
 * Reading the two authentication cookies of the streaming API out of the
 * browser's cookie jar and formatting them as a `Cookie` header value.
 */
module Cookies {
  import opened Types

  datatype Cookie = Cookie(name: string, value: string)

  const AuthorizationName := "Authorization_Api"
  const SignatureName := "Signature_Api"

  /** `jar[i]` is named `name` and no later cookie is. */
  predicate LastNamedAt(jar: seq<Cookie>, name: string, i: int) {
    0 <= i < |jar| && jar[i].name == name &&
    forall j :: i < j < |jar| ==> jar[j].name != name
  }

  /** Where the last cookie named `name` sits in the jar, if any does. */
  function LastNamedIndex(jar: seq<Cookie>, name: string): (r: Option<nat>)
    ensures r.None? <==> forall i :: 0 <= i < |jar| ==> jar[i].name != name
    ensures r.Some? ==> LastNamedAt(jar, name, r.value)
    decreases |jar|
  {
    if |jar| == 0 then None
    else if jar[|jar| - 1].name == name then Some(|jar| - 1)
    else LastNamedIndex(jar[..|jar| - 1], name)
  }

  /** The cookie a scan that keeps overwriting its candidate ends with: the last one named `name`. */
  function LastNamed(jar: seq<Cookie>, name: string): (r: Option<Cookie>)
    ensures r.None? <==> forall i :: 0 <= i < |jar| ==> jar[i].name != name
    ensures r.Some? ==> exists i :: LastNamedAt(jar, name, i) && jar[i] == r.value
  {
    match LastNamedIndex(jar, name)
    case None => None
    case Some(i) => Some(jar[i])
  }

  /** The inner `extract()`: one pass over the jar, each match overwriting the previous one. */
  method ScanJar(jar: seq<Cookie>) returns (authz: Option<Cookie>, sig: Option<Cookie>)
    ensures authz == LastNamed(jar, AuthorizationName)
    ensures sig == LastNamed(jar, SignatureName)
  {
    authz, sig := None, None;
    var i := 0;
    while i < |jar|
      invariant 0 <= i <= |jar|
      invariant authz == LastNamed(jar[..i], AuthorizationName)
      invariant sig == LastNamed(jar[..i], SignatureName)
    {
      assert jar[..i + 1][..i] == jar[..i];
      if jar[i].name == AuthorizationName {
        authz := Some(jar[i]);
      }
      if jar[i].name == SignatureName {
        sig := Some(jar[i]);
      }
      i := i + 1;
    }
    assert jar[..|jar|] == jar;
  }

  /** `'Authorization=%s Signature=%s' % (authz.value, sig.value)` */
  function CookieHeader(authz: Cookie, sig: Cookie): string {
    "Authorization=" + authz.value + " Signature=" + sig.value
  }

  /**
   * The header one read of the jar yields: both cookies are needed, and the
   * header carries the values of the last cookie of each name.
   */
  function HeaderOf(jar: seq<Cookie>): (r: Option<string>)
    ensures r.Some? <==> (exists i :: 0 <= i < |jar| && jar[i].name == AuthorizationName) &&
                         (exists i :: 0 <= i < |jar| && jar[i].name == SignatureName)
    ensures r.Some? ==> exists i, j :: LastNamedAt(jar, AuthorizationName, i) && LastNamedAt(jar, SignatureName, j) &&
                                      r.value == CookieHeader(jar[i], jar[j])
  {
    match (LastNamed(jar, AuthorizationName), LastNamed(jar, SignatureName))
    case (Some(a), Some(s)) => Some(CookieHeader(a, s))
    case _ => None
  }

  /**
   * `extractCookies`: the jar is read up to three times (the browser may
   * still be setting the cookies; the pauses between reads are not
   * modelled), and the first read that holds both cookies gives the header.
   */
  method ExtractCookies(first: seq<Cookie>, second: seq<Cookie>, third: seq<Cookie>)
    returns (header: Option<string>)
    ensures header.None? <==> HeaderOf(first).None? && HeaderOf(second).None? && HeaderOf(third).None?
    ensures HeaderOf(first).Some? ==> header == HeaderOf(first)
    ensures HeaderOf(first).None? && HeaderOf(second).Some? ==> header == HeaderOf(second)
    ensures HeaderOf(first).None? && HeaderOf(second).None? ==> header == HeaderOf(third)
  {
    var authz, sig := ScanJar(first);
    if authz.None? || sig.None? {
      authz, sig := ScanJar(second);
    }
    if authz.None? || sig.None? {
      authz, sig := ScanJar(third);
    }
    if authz.None? || sig.None? {
      return None;
    }
    return Some(CookieHeader(authz.value, sig.value));
  }
}
