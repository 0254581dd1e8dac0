/**
 * What the navigation core sees of `url::Url` (the WHATWG URL Standard
 * parser): a parse that may fail and, on success, yields a scheme and an
 * optional host; and the serialisation of a parsed URL. The parser itself is
 * not part of this model: every operation that parses takes it as the
 * parameter `p`.
 */
module Urls {
  import opened Wrappers

  /** A parsed host: a domain name, or an IP address (for which `Url::domain` is `None`). */
  datatype Host = DomainName(name: string) | Address(text: string)

  /**
   * A parsed URL: its scheme, its host, its port as `Url::port` reports it
   * (`None` when absent or equal to the scheme's default port), and everything
   * else (credentials, path, query, fragment) as one opaque part.
   */
  datatype Url = Url(scheme: string, host: Option<Host>, port: Option<nat>, rest: string)

  /** `Url::parse` and `Url::to_string`. */
  datatype UrlParser = UrlParser(parse: string -> Option<Url>, serialize: Url -> string)

  /** `Url::domain`. */
  function Domain(u: Url): Option<string> {
    match u.host
    case Some(DomainName(name)) => Some(name)
    case _ => None
  }

  /** `Url::host_str`. */
  function HostStr(u: Url): Option<string> {
    match u.host
    case Some(DomainName(name)) => Some(name)
    case Some(Address(text)) => Some(text)
    case None => None
  }

  /**
   * `Url::set_scheme("https")` on a URL whose scheme is "http" (both special
   * schemes, so it succeeds): an explicit port 443 becomes the new default
   * port and is dropped; host, other ports and the rest are kept.
   */
  function WithHttps(u: Url): (r: Url)
    ensures r.scheme == "https" && r.host == u.host && r.rest == u.rest
    ensures r.port == (if u.port == Some(443) then None else u.port)
  {
    u.(scheme := "https", port := if u.port == Some(443) then None else u.port)
  }

  /**
   * The one property of the parser the upgrade lemmas rely on: serialising an
   * http URL whose scheme was switched to https, and parsing the text again,
   * gives that URL back.
   */
  ghost predicate UpgradeReparses(p: UrlParser) {
    forall s :: p.parse(s).Some? && p.parse(s).value.scheme == "http" ==>
      p.parse(p.serialize(WithHttps(p.parse(s).value))) == Some(WithHttps(p.parse(s).value))
  }
}
