/**
 * The parts of the WHATWG Fetch and URL Standards that the service worker
 * looks at: a response's status and type (section 2.2.6, "Responses", of the
 * Fetch Standard), a request's URL and mode, and the `protocol` getter of the
 * URL Standard.
 */
module Fetch {

  datatype Option<T> = None | Some(value: T)

  /** A response's type. */
  datatype ResponseType = Basic | Cors | Default | Error | Opaque | OpaqueRedirect

  /** A response as a record; headers and the body stream are not modelled. */
  datatype Response = Response(status: int, statusText: string, kind: ResponseType, body: string)

  /** A request's mode. */
  datatype RequestMode = Navigate | SameOrigin | NoCors | CorsMode

  datatype Request = Request(url: string, mode: RequestMode)

  /** What `fetch(request)` settles with: a response, or a rejection. */
  datatype NetworkOutcome = Fetched(response: Response) | Rejected

  // ---------------------------------------------------------------------------
  // `new URL(url).protocol`

  predicate IsAsciiAlpha(c: char)
  {
    'a' <= c <= 'z' || 'A' <= c <= 'Z'
  }

  /** A character the URL Standard's scheme state accepts after the first one. */
  predicate IsSchemeChar(c: char)
  {
    IsAsciiAlpha(c) || '0' <= c <= '9' || c == '+' || c == '-' || c == '.'
  }

  function ToAsciiLower(s: string): (r: string)
    ensures |r| == |s|
    ensures forall i :: 0 <= i < |s| ==>
              r[i] == (if 'A' <= s[i] <= 'Z' then (s[i] as int + 32) as char else s[i])
  {
    if s == [] then []
    else [if 'A' <= s[0] <= 'Z' then (s[0] as int + 32) as char else s[0]] + ToAsciiLower(s[1..])
  }

  /** `url` starts with a scheme of length `k`: a letter, then scheme characters, then ':'. */
  predicate SchemeOfLength(url: string, k: nat)
  {
    && 0 < k < |url|
    && url[k] == ':'
    && IsAsciiAlpha(url[0])
    && forall j :: 0 < j < k ==> IsSchemeChar(url[j])
  }

  /** The index of the first character at or after `i` that cannot continue a scheme. */
  function SchemeEnd(url: string, i: nat): (k: nat)
    requires i <= |url|
    ensures i <= k <= |url|
    ensures forall j :: i <= j < k ==> IsSchemeChar(url[j])
    ensures k < |url| ==> !IsSchemeChar(url[k])
    decreases |url| - i
  {
    if i == |url| || !IsSchemeChar(url[i]) then i else SchemeEnd(url, i + 1)
  }

  /**
   * The `protocol` of `new URL(url)`: the lower-cased scheme followed by ':',
   * or None where the constructor throws because `url` has no scheme.
   */
  function Protocol(url: string): (r: Option<string>)
    ensures r.Some? <==> exists k: nat :: SchemeOfLength(url, k)
    ensures forall k: nat :: SchemeOfLength(url, k) ==> r == Some(ToAsciiLower(url[..k]) + ":")
  {
    if url == [] || !IsAsciiAlpha(url[0]) then None
    else
      var k := SchemeEnd(url, 1);
      assert forall k': nat :: SchemeOfLength(url, k') ==> k' == k;
      if k < |url| && url[k] == ':' then
        assert SchemeOfLength(url, k);
        Some(ToAsciiLower(url[..k]) + ":")
      else None
  }
}
