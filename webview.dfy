/**
 * `WebViewManager`: the navigation coordinator. Raw input is classified
 * (`ProcessUrl`), gated (`ShouldBlockRequest`), upgraded
 * (`SuggestHttpsUpgrade`) and only then applied to the tab store.
 */
module WebView {
  import opened Wrappers
  import opened Strings
  import opened UrlEncoding
  import opened Urls
  import opened Config
  import opened Security
  import opened Tabs

  datatype NavigationRequest = NavigationRequest(url: string, tabId: Option<TabId>, isNewTab: bool)

  /** The error `navigate` returns for a request the gate refuses. */
  datatype NavigationError = BlockedBySecurityPolicy

  /** The text placed in front of the encoded query by `create_search_url`. */
  function SearchPrefix(config: BrowserConfig): string {
    config.searchEngine.fourgetInstance + "/web?s="
  }

  /** `create_search_url`: the search endpoint with the query percent-encoded after `s=`. */
  function CreateSearchUrl(config: BrowserConfig, query: string): (r: string)
    ensures StartsWith(r, SearchPrefix(config))
    ensures PercentDecode(r[|SearchPrefix(config)|..]) == Some(Utf8Bytes(query))
    ensures forall k :: |SearchPrefix(config)| <= k < |r| ==> IsQuerySafe(r[k])
  {
    var r := SearchPrefix(config) + Encode(query);
    assert r[|SearchPrefix(config)|..] == Encode(query);
    DecodeEncode(Utf8Bytes(query));
    EncodedIsQuerySafe(Utf8Bytes(query));
    r
  }

  /** The address tried for input that looks like a bare domain. */
  function DomainCandidate(trimmed: string): (r: string)
    ensures StartsWith(r, "http://") || StartsWith(r, "https://")
    ensures EndsWith(r, trimmed)
  {
    if StartsWith(trimmed, "http://") || StartsWith(trimmed, "https://") then trimmed
    else "https://" + trimmed
  }

  /** Input that may be a bare domain: it has a dot and no space (only ' ' is tested, not other whitespace). */
  predicate LooksLikeDomain(trimmed: string) {
    '.' in trimmed && ' ' !in trimmed
  }

  /**
   * `process_url`: the trimmed input when it parses as a URL; else, for
   * domain-like input, the candidate address when that parses; else a search.
   * It never fails, whatever the input, the empty string included.
   */
  function ProcessUrl(p: UrlParser, config: BrowserConfig, input: string): (r: string)
    ensures p.parse(r).Some? || r == CreateSearchUrl(config, Trim(input))
    ensures r == Trim(input) || r == "https://" + Trim(input) || r == CreateSearchUrl(config, Trim(input))
    ensures (var t := Trim(input); p.parse(t).None? && !(LooksLikeDomain(t) && p.parse(DomainCandidate(t)).Some?))
      ==> r == CreateSearchUrl(config, Trim(input))
  {
    var trimmed := Trim(input);
    if p.parse(trimmed).Some? then trimmed
    else if LooksLikeDomain(trimmed) && p.parse(DomainCandidate(trimmed)).Some? then DomainCandidate(trimmed)
    else CreateSearchUrl(config, trimmed)
  }

  /** Input that already parses, once trimmed, is taken as it is. */
  lemma ProcessUrlKeepsUrls(p: UrlParser, config: BrowserConfig, input: string)
    requires p.parse(Trim(input)).Some?
    ensures ProcessUrl(p, config, input) == Trim(input)
  {
  }

  /** A bare domain that does not parse alone is tried, and taken, with "https://" in front. */
  lemma ProcessUrlPrependsHttps(p: UrlParser, config: BrowserConfig, input: string)
    requires var t := Trim(input);
      && p.parse(t).None? && LooksLikeDomain(t)
      && !StartsWith(t, "http://") && !StartsWith(t, "https://")
      && p.parse("https://" + t).Some?
    ensures ProcessUrl(p, config, input) == "https://" + Trim(input)
  {
  }

  /**
   * Whatever is not taken as an address becomes a search, and the search
   * carries the trimmed input exactly: decoding the query gives back its bytes.
   */
  lemma ProcessUrlSearchCarriesQuery(p: UrlParser, config: BrowserConfig, input: string)
    requires var t := Trim(input); p.parse(t).None? && !(LooksLikeDomain(t) && p.parse(DomainCandidate(t)).Some?)
    ensures var r := ProcessUrl(p, config, input);
      r == CreateSearchUrl(config, Trim(input))
      && StartsWith(r, SearchPrefix(config))
      && PercentDecode(r[|SearchPrefix(config)|..]) == Some(Utf8Bytes(Trim(input)))
  {
  }

  /** Input with a space, or without a dot, that does not parse is always a search. */
  lemma TextInputIsSearched(p: UrlParser, config: BrowserConfig, input: string)
    requires p.parse(Trim(input)).None? && !LooksLikeDomain(Trim(input))
    ensures ProcessUrl(p, config, input) == CreateSearchUrl(config, Trim(input))
  {
  }

  /** Empty (or blank) input does not fail: it is a search for the empty query. */
  lemma BlankInputIsEmptySearch(p: UrlParser, config: BrowserConfig, input: string)
    requires forall k :: 0 <= k < |input| ==> IsWhitespace(input[k])
    requires p.parse("").None?
    ensures ProcessUrl(p, config, input) == SearchPrefix(config)
  {
    assert Trim(input) == [];
    assert Encode([]) == [];
  }

  /** A search address has no whitespace at either end when the instance does not start with any. */
  lemma SearchUrlIsTrimmed(config: BrowserConfig, query: string)
    requires var instance := config.searchEngine.fourgetInstance; instance == [] || !IsWhitespace(instance[0])
    ensures Trim(CreateSearchUrl(config, query)) == CreateSearchUrl(config, query)
  {
    var r := CreateSearchUrl(config, query);
    var prefix := SearchPrefix(config);
    assert r[..|prefix|] == prefix;
    assert r[0] == prefix[0];
    if |r| == |prefix| {
      assert r[|r| - 1] == prefix[|prefix| - 1] == '=';
    } else {
      assert IsQuerySafe(r[|r| - 1]);
    }
    TrimOfTrimmed(r);
  }

  /** A bare domain with "https://" in front has no whitespace at either end. */
  lemma DomainCandidateIsTrimmed(input: string)
    requires LooksLikeDomain(Trim(input))
    ensures Trim(DomainCandidate(Trim(input))) == DomainCandidate(Trim(input))
  {
    var t := Trim(input);
    if StartsWith(t, "http://") || StartsWith(t, "https://") {
      TrimIdempotent(input);
    } else {
      assert t != [] by { assert '.' in t; }
      var r := "https://" + t;
      assert r[|r| - 1] == t[|t| - 1];
      TrimOfTrimmed(r);
    }
  }

  /** What `process_url` returns has no whitespace at either end. */
  lemma ProcessUrlIsTrimmed(p: UrlParser, config: BrowserConfig, input: string)
    requires var instance := config.searchEngine.fourgetInstance; instance == [] || !IsWhitespace(instance[0])
    ensures Trim(ProcessUrl(p, config, input)) == ProcessUrl(p, config, input)
  {
    var t := Trim(input);
    if p.parse(t).Some? {
      TrimIdempotent(input);
    } else if LooksLikeDomain(t) && p.parse(DomainCandidate(t)).Some? {
      DomainCandidateIsTrimmed(input);
    } else {
      SearchUrlIsTrimmed(config, t);
    }
  }

  /**
   * Classifying an address a second time gives the same address: what
   * `process_url` returns as a URL is already trimmed and already parses.
   */
  lemma ProcessUrlIdempotentOnAddresses(p: UrlParser, config: BrowserConfig, input: string)
    requires var instance := config.searchEngine.fourgetInstance; instance == [] || !IsWhitespace(instance[0])
    requires p.parse(ProcessUrl(p, config, input)).Some?
    ensures ProcessUrl(p, config, ProcessUrl(p, config, input)) == ProcessUrl(p, config, input)
  {
    ProcessUrlIsTrimmed(p, config, input);
  }

  /** The URL `navigate` stores: the https suggestion when there is one, else the classified URL. */
  function FinalUrl(m: SecurityManager, p: UrlParser, url: string): (r: string)
    ensures !m.config.privacy.httpsUpgrade || p.parse(url).None? ==> r == url
    ensures p.parse(url).Some? && p.parse(url).value.scheme != "http" ==> r == url
  {
    SuggestHttpsUpgrade(m, p, url).GetOr(url)
  }

  /** With upgrading switched on, a navigation never stores a plain http address. */
  lemma FinalUrlIsNeverPlainHttp(m: SecurityManager, p: UrlParser, url: string)
    requires UpgradeReparses(p) && m.config.privacy.httpsUpgrade
    ensures p.parse(FinalUrl(m, p, url)).Some? ==> p.parse(FinalUrl(m, p, url)).value.scheme != "http"
  {
    if SuggestHttpsUpgrade(m, p, url).Some? {
      UpgradeKeepsAllButScheme(m, p, url);
    }
  }

  /** The four setter calls of `update_tab_info`, taken together. */
  lemma CompletionUpdates(t0: map<TabId, Tab>, t1: map<TabId, Tab>, t2: map<TabId, Tab>, t3: map<TabId, Tab>,
                          t4: map<TabId, Tab>, id: TabId, title: string, url: string,
                          canGoBack: bool, canGoForward: bool, now: Timestamp)
    requires t1 == if id in t0 then t0[id := t0[id].(title := title)] else t0
    requires t2 == if id in t1 then t1[id := t1[id].(url := url, lastAccessed := now)] else t1
    requires t3 == if id in t2 then t2[id := t2[id].(canGoBack := canGoBack, canGoForward := canGoForward)] else t2
    requires t4 == if id in t3 then t3[id := t3[id].(isLoading := false)] else t3
    ensures t4 == if id in t0
      then t0[id := t0[id].(title := title, url := url, lastAccessed := now,
             canGoBack := canGoBack, canGoForward := canGoForward, isLoading := false)]
      else t0
  {
    if id in t0 {
      var done := t0[id].(title := title, url := url, lastAccessed := now,
        canGoBack := canGoBack, canGoForward := canGoForward, isLoading := false);
      assert t4[id] == done;
      assert t4.Keys == t0.Keys;
      assert t4 == t0[id := done];
    }
  }

  class WebViewManager {
    const tabManager: TabManager
    const securityManager: SecurityManager
    const config: BrowserConfig

    ghost predicate Valid()
      reads this, tabManager
    {
      tabManager.Valid()
    }

    /** `WebViewManager::new`: an empty store and a gate built from the same configuration. */
    constructor(config: BrowserConfig)
      ensures Valid() && fresh(tabManager) && this.config == config
      ensures securityManager == NewSecurityManager(config)
      ensures tabManager.tabs == map[] && tabManager.tabOrder == [] && tabManager.activeTabId == None
    {
      this.config := config;
      securityManager := NewSecurityManager(config);
      tabManager := new TabManager();
    }

    /**
     * The last step of `navigate`, once the request has passed the gate: open
     * a tab at `final`, or point the given tab at it and mark it loading.
     */
    method OpenOrRetarget(request: NavigationRequest, final: string, freshId: TabId, now: Timestamp)
      returns (id: TabId)
      requires Valid() && freshId !in tabManager.tabs
      modifies tabManager
      ensures Valid()
      ensures request.isNewTab || request.tabId.None? ==>
        && id == freshId
        && tabManager.tabs == old(tabManager.tabs)[freshId := FreshTab(freshId, final, None, now)]
        && tabManager.tabOrder == old(tabManager.tabOrder) + [freshId]
        && tabManager.activeTabId == (if old(tabManager.activeTabId).None? then Some(freshId) else old(tabManager.activeTabId))
      ensures !request.isNewTab && request.tabId.Some? ==>
        && id == request.tabId.value
        && tabManager.tabs == (if id in old(tabManager.tabs)
             then old(tabManager.tabs)[id := old(tabManager.tabs)[id].(url := final, lastAccessed := now, isLoading := true)]
             else old(tabManager.tabs))
        && tabManager.tabOrder == old(tabManager.tabOrder)
        && tabManager.activeTabId == old(tabManager.activeTabId)
    {
      if request.isNewTab || request.tabId.None? {
        id := tabManager.CreateTab(freshId, final, None, now);
      } else {
        id := request.tabId.value;
        ghost var t0 := tabManager.tabs;
        tabManager.UpdateTabUrl(id, final, now);
        ghost var t1 := tabManager.tabs;
        tabManager.SetTabLoading(id, true);
        if id in t0 {
          assert tabManager.tabs == t1[id := t1[id].(isLoading := true)];
          assert t1 == t0[id := t0[id].(url := final, lastAccessed := now)];
        }
      }
    }

    /**
     * `navigate`: classify, gate, upgrade, then either open a tab for the
     * final URL or point the given tab at it and mark it loading. A blocked
     * request changes nothing. `freshId` is the id a new tab would get.
     */
    method Navigate(p: UrlParser, request: NavigationRequest, freshId: TabId, now: Timestamp)
      returns (r: Result<TabId, NavigationError>)
      requires Valid() && freshId !in tabManager.tabs
      modifies tabManager
      ensures Valid()
      ensures var url := ProcessUrl(p, config, request.url);
        ShouldBlockRequest(securityManager, p, url) ==>
          r == Failure(BlockedBySecurityPolicy) && unchanged(tabManager)
      ensures var url := ProcessUrl(p, config, request.url);
        var final := FinalUrl(securityManager, p, url);
        !ShouldBlockRequest(securityManager, p, url) && (request.isNewTab || request.tabId.None?) ==>
          && r == Success(freshId)
          && tabManager.tabs == old(tabManager.tabs)[freshId := FreshTab(freshId, final, None, now)]
          && tabManager.tabOrder == old(tabManager.tabOrder) + [freshId]
          && tabManager.activeTabId == (if old(tabManager.activeTabId).None? then Some(freshId) else old(tabManager.activeTabId))
      ensures var url := ProcessUrl(p, config, request.url);
        var final := FinalUrl(securityManager, p, url);
        !ShouldBlockRequest(securityManager, p, url) && !request.isNewTab && request.tabId.Some? ==>
          var id := request.tabId.value;
          && r == Success(id)
          && tabManager.tabs == (if id in old(tabManager.tabs)
               then old(tabManager.tabs)[id := old(tabManager.tabs)[id].(url := final, lastAccessed := now, isLoading := true)]
               else old(tabManager.tabs))
          && tabManager.tabOrder == old(tabManager.tabOrder)
          && tabManager.activeTabId == old(tabManager.activeTabId)
    {
      var url := ProcessUrl(p, config, request.url);
      if ShouldBlockRequest(securityManager, p, url) {
        return Failure(BlockedBySecurityPolicy);
      }
      var final := FinalUrl(securityManager, p, url);
      var id := OpenOrRetarget(request, final, freshId, now);
      r := Success(id);
    }

    /** `create_new_tab`: a new tab at the given URL, or at the home page when none is given. */
    method CreateNewTab(url: Option<string>, freshId: TabId, now: Timestamp) returns (id: TabId)
      requires Valid() && freshId !in tabManager.tabs
      modifies tabManager
      ensures Valid() && id == freshId
      ensures tabManager.tabs == old(tabManager.tabs)[id := FreshTab(id, url.GetOr(HomeUrl), None, now)]
      ensures tabManager.tabOrder == old(tabManager.tabOrder) + [id]
      ensures tabManager.activeTabId == if old(tabManager.activeTabId).None? then Some(id) else old(tabManager.activeTabId)
    {
      var defaultUrl := url.GetOr(HomeUrl);
      id := tabManager.CreateTab(freshId, defaultUrl, None, now);
    }

    /** `close_tab`: the store's close, under the same rule. */
    method CloseTab(id: TabId) returns (closed: bool)
      requires Valid()
      modifies tabManager
      ensures Valid()
      ensures closed <==> id in old(tabManager.tabOrder)
      ensures !closed ==> (tabManager.tabs == old(tabManager.tabs)
        && tabManager.tabOrder == old(tabManager.tabOrder) && tabManager.activeTabId == old(tabManager.activeTabId))
      ensures closed ==>
        var i := IndexOf(old(tabManager.tabOrder), id);
        && tabManager.tabOrder == RemoveAt(old(tabManager.tabOrder), i)
        && tabManager.tabs == old(tabManager.tabs) - {id}
        && tabManager.activeTabId == if old(tabManager.activeTabId) == Some(id)
             then TieBreak(tabManager.tabOrder, i) else old(tabManager.activeTabId)
    {
      closed := tabManager.CloseTab(id);
    }

    /** `set_active_tab`: the store's activation. */
    method SetActiveTab(id: TabId, now: Timestamp) returns (ok: bool)
      requires Valid()
      modifies tabManager
      ensures Valid() && tabManager.tabOrder == old(tabManager.tabOrder)
      ensures ok <==> id in old(tabManager.tabs)
      ensures ok ==> (tabManager.activeTabId == Some(id)
        && tabManager.tabs == old(tabManager.tabs)[id := old(tabManager.tabs)[id].(lastAccessed := now)])
      ensures !ok ==> tabManager.tabs == old(tabManager.tabs) && tabManager.activeTabId == old(tabManager.activeTabId)
    {
      ok := tabManager.SetActiveTab(id, now);
    }

    /**
     * `update_tab_info`: the render layer reports a finished navigation:
     * title, url and both history flags are written and loading is cleared.
     */
    method UpdateTabInfo(id: TabId, title: string, url: string, canGoBack: bool, canGoForward: bool, now: Timestamp)
      requires Valid()
      modifies tabManager
      ensures Valid()
      ensures tabManager.tabOrder == old(tabManager.tabOrder) && tabManager.activeTabId == old(tabManager.activeTabId)
      ensures tabManager.tabs == if id in old(tabManager.tabs)
        then old(tabManager.tabs)[id := old(tabManager.tabs)[id].(title := title, url := url, lastAccessed := now,
               canGoBack := canGoBack, canGoForward := canGoForward, isLoading := false)]
        else old(tabManager.tabs)
    {
      ghost var t0 := tabManager.tabs;
      tabManager.UpdateTabTitle(id, title);
      ghost var t1 := tabManager.tabs;
      tabManager.UpdateTabUrl(id, url, now);
      ghost var t2 := tabManager.tabs;
      tabManager.SetTabNavigationState(id, canGoBack, canGoForward);
      ghost var t3 := tabManager.tabs;
      tabManager.SetTabLoading(id, false);
      CompletionUpdates(t0, t1, t2, t3, tabManager.tabs, id, title, url, canGoBack, canGoForward, now);
    }

    /** `go_back`: only logs the intent; there is no history to move through. */
    method GoBack(id: TabId)
      requires Valid()
      ensures unchanged(tabManager)
    {
    }

    /** `go_forward`: only logs the intent. */
    method GoForward(id: TabId)
      requires Valid()
      ensures unchanged(tabManager)
    {
    }

    /** `reload`: only logs the intent. */
    method Reload(id: TabId)
      requires Valid()
      ensures unchanged(tabManager)
    {
    }
  }
}
