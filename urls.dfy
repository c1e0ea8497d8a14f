/**
 * URL checks and composition: `isValidUrl` over an abstract URL parser,
 * and the absolute `short_url` built from the configured or inbound origin.
 */
module Urls {

  /** What `new URL(url)` yields: the parsed URL's `protocol`, or a thrown error. */
  datatype UrlParse = Parsed(protocol: string) | ParseFailure

  /** The WHATWG URL parser, taken as a parameter: it is not modelled. */
  type UrlParser = string -> UrlParse

  /**
   * `isValidUrl(url)`: true only for a URL the parser accepts whose protocol
   * is `http:` or `https:`; a parse failure gives false, never an error.
   */
  function IsValidUrl(parse: UrlParser, url: string): (b: bool)
    ensures b ==> parse(url).Parsed? && parse(url).protocol in {"http:", "https:"}
    ensures parse(url).Parsed? && parse(url).protocol in {"http:", "https:"} ==> b
    ensures parse(url).ParseFailure? ==> !b
  {
    match parse(url)
    case ParseFailure => false
    case Parsed(protocol) => protocol == "http:" || protocol == "https:"
  }

  /**
   * Where short URLs point: the `BASE_URL` setting (empty when unset) and,
   * as its fallback, the inbound request's protocol and `Host` header.
   */
  datatype Origin = Origin(baseUrlSetting: string, protocol: string, host: string)

  /** The base of short URLs: the setting when it is non-empty, else protocol `://` host. */
  function OriginBase(o: Origin): string {
    if o.baseUrlSetting != "" then o.baseUrlSetting else o.protocol + "://" + o.host
  }

  /** `s.replace(/\/$/, "")`: removes one trailing `/`, if there is one. */
  function DropTrailingSlash(s: string): (r: string)
    ensures r == s || r + "/" == s
    ensures r + "/" == s <==> |s| > 0 && s[|s| - 1] == '/'
  {
    if |s| > 0 && s[|s| - 1] == '/' then s[..|s| - 1] else s
  }

  /** `${base}/${code}`, with one trailing `/` of the base removed first. */
  function ShortUrl(base: string, code: string): string {
    DropTrailingSlash(base) + "/" + code
  }

  /**
   * A short URL ends in `/` and the code, and what precedes that `/` is the
   * base with at most one trailing `/` removed.
   */
  lemma ShortUrlShape(base: string, code: string)
    ensures var u := ShortUrl(base, code);
      |u| > |code| && u[|u| - |code|..] == code && u[|u| - |code| - 1] == '/' &&
      (u[..|u| - |code| - 1] == base || u[..|u| - |code| - 1] + "/" == base)
  {
    var u := ShortUrl(base, code);
    var b := DropTrailingSlash(base);
    assert u == b + "/" + code;
    assert u[..|u| - |code| - 1] == b;
    assert u[|u| - |code|..] == code;
  }
}
