/**
 * `SecurityManager`: the request gate of the navigation pipeline. Every
 * decision is a function of a fixed configuration, two fixed lists and the
 * URL text; the security-event log it writes is not modelled.
 */
module Security {
  import opened Wrappers
  import opened Strings
  import opened Urls
  import opened Config

  /** The per-check security snapshot. `ads_blocked` is a `u32`; it is only ever 0. */
  datatype SecurityLevel = SecurityLevel(
    isSecure: bool,
    certificateValid: bool,
    mixedContent: bool,
    trackingBlocked: bool,
    adsBlocked: nat)

  /** The error `Url::parse` reports, passed on by `check_url_security`. */
  datatype UrlError = ParseError

  datatype SecurityManager = SecurityManager(
    config: BrowserConfig,
    blockedDomains: seq<string>,
    trackingPatterns: seq<string>)

  const BlockedDomains: seq<string> := [
    "doubleclick.net", "googleadservices.com", "googlesyndication.com",
    "google-analytics.com", "facebook.com", "connect.facebook.net",
    "scorecardresearch.com", "outbrain.com", "taboola.com"]

  /** Written as regular expressions, but only their number matters (see `IsTrackingRequest`). */
  const TrackingPatterns: seq<string> := [
    @".*\.ads\..*", @".*\.analytics\..*", @".*\.tracker\..*", @".*\.telemetry\..*"]

  /** `get_content_security_policy`: the same policy for every site. */
  const ContentSecurityPolicy := "default-src 'self'; script-src 'self' 'unsafe-inline'; style-src 'self' 'unsafe-inline';"

  /** `SecurityManager::new`: the lists are loaded once and never change. */
  function NewSecurityManager(config: BrowserConfig): SecurityManager {
    SecurityManager(config, BlockedDomains, TrackingPatterns)
  }

  /** A block-list entry covers `domain`: the same name, or a parent of it at a dot boundary. */
  predicate Covers(blocked: string, domain: string) {
    domain == blocked || EndsWith(domain, "." + blocked)
  }

  /** Some entry of `domains` covers `domain`. */
  ghost predicate Listed(domains: seq<string>, domain: string) {
    exists i :: 0 <= i < |domains| && Covers(domains[i], domain)
  }

  /** `iter().any(..)` over the block list, one entry at a time. */
  function AnyCovers(domains: seq<string>, domain: string): (r: bool)
    ensures r <==> Listed(domains, domain)
  {
    if domains == [] then false
    else if Covers(domains[0], domain) then true
    else
      var r := AnyCovers(domains[1..], domain);
      assert Listed(domains[1..], domain) <==> Listed(domains, domain) by {
        if Listed(domains, domain) {
          var i :| 0 <= i < |domains| && Covers(domains[i], domain);
          assert i > 0 && domains[1..][i - 1] == domains[i];
        }
        if Listed(domains[1..], domain) {
          var i :| 0 <= i < |domains[1..]| && Covers(domains[1..][i], domain);
          assert domains[i + 1] == domains[1..][i];
        }
      }
      r
  }

  /** `is_domain_blocked`. */
  function IsDomainBlocked(m: SecurityManager, domain: string): (r: bool)
    ensures r <==> Listed(m.blockedDomains, domain)
  {
    AnyCovers(m.blockedDomains, domain)
  }

  /** The substring heuristic every tracking pattern stands for. */
  predicate HasTrackerMarker(url: string) {
    Contains(url, "analytics") || Contains(url, "tracker") || Contains(url, "telemetry") || Contains(url, "/ads/")
  }

  /** `iter().any(..)` over the tracking patterns with a closure that ignores the pattern. */
  function AnyPatternMatches(patterns: seq<string>, url: string): (r: bool)
    ensures r <==> patterns != [] && HasTrackerMarker(url)
  {
    if patterns == [] then false
    else if HasTrackerMarker(url) then true
    else AnyPatternMatches(patterns[1..], url)
  }

  /** `is_tracking_request`. */
  function IsTrackingRequest(m: SecurityManager, url: string): (r: bool)
    ensures r <==> m.trackingPatterns != [] && HasTrackerMarker(url)
  {
    AnyPatternMatches(m.trackingPatterns, url)
  }

  /** The domain of the request, when `url` parses and its host is a domain name. */
  function RequestDomain(p: UrlParser, url: string): Option<string> {
    match p.parse(url)
    case Some(u) => Domain(u)
    case None => None
  }

  /** Which branch of `should_block_request` answers: the security event it logs, if any. */
  datatype Verdict = Allow | AdBlocked | TrackerBlocked

  /**
   * The decision of `should_block_request`, branch by branch: both switches
   * off allows at once; a URL that does not parse or has no domain is allowed
   * (fails open); the block list is consulted before the tracker heuristic.
   */
  function BlockVerdict(m: SecurityManager, p: UrlParser, url: string): (v: Verdict)
    ensures v == AdBlocked <==>
      m.config.privacy.adBlocking && RequestDomain(p, url).Some?
      && Listed(m.blockedDomains, RequestDomain(p, url).value)
    ensures v == TrackerBlocked <==>
      m.config.privacy.trackingProtection && RequestDomain(p, url).Some?
      && !(m.config.privacy.adBlocking && Listed(m.blockedDomains, RequestDomain(p, url).value))
      && m.trackingPatterns != [] && HasTrackerMarker(url)
  {
    var privacy := m.config.privacy;
    if !privacy.adBlocking && !privacy.trackingProtection then Allow
    else match p.parse(url)
      case None => Allow
      case Some(u) =>
        match Domain(u)
        case None => Allow
        case Some(domain) =>
          if privacy.adBlocking && IsDomainBlocked(m, domain) then AdBlocked
          else if privacy.trackingProtection && IsTrackingRequest(m, url) then TrackerBlocked
          else Allow
  }

  /** `should_block_request`. */
  predicate ShouldBlockRequest(m: SecurityManager, p: UrlParser, url: string)
    ensures !m.config.privacy.adBlocking && !m.config.privacy.trackingProtection ==> !ShouldBlockRequest(m, p, url)
    ensures RequestDomain(p, url).None? ==> !ShouldBlockRequest(m, p, url)
    ensures ShouldBlockRequest(m, p, url) <==>
      RequestDomain(p, url).Some?
      && ((m.config.privacy.adBlocking && Listed(m.blockedDomains, RequestDomain(p, url).value))
          || (m.config.privacy.trackingProtection && m.trackingPatterns != [] && HasTrackerMarker(url)))
  {
    BlockVerdict(m, p, url) != Allow
  }

  /** A block-list entry also blocks every subdomain of what it blocks. */
  lemma SubdomainOfBlockedIsBlocked(m: SecurityManager, domain: string, prefix: string)
    requires IsDomainBlocked(m, domain)
    ensures IsDomainBlocked(m, prefix + "." + domain)
  {
    var i :| 0 <= i < |m.blockedDomains| && Covers(m.blockedDomains[i], domain);
    var b := m.blockedDomains[i];
    if domain == b {
      assert prefix + "." + domain == prefix + ("." + b);
      assert EndsWith("." + b, "." + b);
      EndsWithAfterPrefix(prefix, "." + b, "." + b);
    } else {
      EndsWithAfterPrefix(prefix + ".", domain, "." + b);
    }
    assert Covers(b, prefix + "." + domain);
  }

  /** Suffix matching stops at a dot: a subdomain is blocked, a name merely ending in the same letters is not. */
  lemma DefaultListMatchesAtDotBoundary(config: BrowserConfig)
    ensures IsDomainBlocked(NewSecurityManager(config), "doubleclick.net")
    ensures IsDomainBlocked(NewSecurityManager(config), "x.doubleclick.net")
    ensures !IsDomainBlocked(NewSecurityManager(config), "notdoubleclick.net")
  {
    var m := NewSecurityManager(config);
    assert Covers(BlockedDomains[0], "doubleclick.net");
    SubdomainOfBlockedIsBlocked(m, "doubleclick.net", "x");
    assert "x" + "." + "doubleclick.net" == "x.doubleclick.net";
    var d := "notdoubleclick.net";
    forall i | 0 <= i < |BlockedDomains| ensures !Covers(BlockedDomains[i], d) {
      NotCoveredWithoutDot(BlockedDomains[i], d);
    }
  }

  /** An entry does not cover a different name unless a dot stands right before it. */
  lemma NotCoveredWithoutDot(blocked: string, domain: string)
    requires domain != blocked
    requires |blocked| < |domain| ==> domain[|domain| - |blocked| - 1] != '.'
    ensures !Covers(blocked, domain)
  {
  }

  /** A tracking URL stays one whatever text surrounds it. */
  lemma TrackerMarkerInContext(pre: string, url: string, post: string)
    requires HasTrackerMarker(url)
    ensures HasTrackerMarker(pre + url + post)
  {
    if Contains(url, "analytics") {
      ContainsInContext(pre, url, post, "analytics");
    } else if Contains(url, "tracker") {
      ContainsInContext(pre, url, post, "tracker");
    } else if Contains(url, "telemetry") {
      ContainsInContext(pre, url, post, "telemetry");
    } else {
      ContainsInContext(pre, url, post, "/ads/");
    }
  }

  /** `suggest_https_upgrade`: the https form of a plain http URL, when upgrading is switched on. */
  function SuggestHttpsUpgrade(m: SecurityManager, p: UrlParser, url: string): (r: Option<string>)
    ensures r.Some? <==>
      m.config.privacy.httpsUpgrade && p.parse(url).Some? && p.parse(url).value.scheme == "http"
  {
    if m.config.privacy.httpsUpgrade then
      match p.parse(url)
      case Some(u) => if u.scheme == "http" then Some(p.serialize(WithHttps(u))) else None
      case None => None
    else None
  }

  /**
   * The suggested URL is the same URL under the https scheme: same host, same
   * port (an explicit 443, now the default, is dropped), same everything else.
   */
  lemma UpgradeKeepsAllButScheme(m: SecurityManager, p: UrlParser, url: string)
    requires UpgradeReparses(p)
    requires SuggestHttpsUpgrade(m, p, url).Some?
    ensures var u := p.parse(url).value;
      p.parse(SuggestHttpsUpgrade(m, p, url).value) == Some(Url("https", u.host, if u.port == Some(443) then None else u.port, u.rest))
  {
  }

  /** Following a suggestion never leads to a second one. */
  lemma UpgradeIsIdempotent(m: SecurityManager, p: UrlParser, url: string)
    requires UpgradeReparses(p)
    requires SuggestHttpsUpgrade(m, p, url).Some?
    ensures SuggestHttpsUpgrade(m, p, SuggestHttpsUpgrade(m, p, url).value).None?
  {
    UpgradeKeepsAllButScheme(m, p, url);
  }

  /** `check_url_security`: only the scheme is inspected; the other fields are fixed placeholders. */
  function CheckUrlSecurity(m: SecurityManager, p: UrlParser, url: string): (r: Result<SecurityLevel, UrlError>)
    ensures r.Failure? <==> p.parse(url).None?
    ensures r.Success? ==>
      && (r.value.isSecure <==> p.parse(url).value.scheme == "https")
      && r.value.certificateValid && !r.value.mixedContent
      && !r.value.trackingBlocked && r.value.adsBlocked == 0
  {
    match p.parse(url)
    case None => Failure(ParseError)
    case Some(u) => Success(SecurityLevel(u.scheme == "https", true, false, false, 0))
  }

  /** An insecure http page gets a suggestion when upgrading is on, and the suggested page checks as secure. */
  lemma InsecureHttpGetsSecureSuggestion(m: SecurityManager, p: UrlParser, url: string)
    requires UpgradeReparses(p) && m.config.privacy.httpsUpgrade
    requires p.parse(url).Some? && p.parse(url).value.scheme == "http"
    ensures CheckUrlSecurity(m, p, url).Success? && !CheckUrlSecurity(m, p, url).value.isSecure
    ensures SuggestHttpsUpgrade(m, p, url).Some?
    ensures var s := SuggestHttpsUpgrade(m, p, url).value;
      CheckUrlSecurity(m, p, s).Success? && CheckUrlSecurity(m, p, s).value.isSecure
  {
    UpgradeKeepsAllButScheme(m, p, url);
  }
}
