# bagel browser core, modelled in Dafny

Bagel is a small privacy-minded desktop browser shell. This project models its
core in Dafny and proves properties of that model. The core has four parts:

- **The tab store (`TabManager`).** A map from tab id to tab record, an
  ordered list of ids, and the id of the active tab. Tabs are created,
  closed with a neighbour tie-break, activated, updated, pinned and
  reordered.
- **The security gate (`SecurityManager`).** It keeps a fixed list of ad
  domains, matched at a dot boundary. It holds a list of tracking patterns,
  but only the list's non-emptiness matters, because a fixed marker test
  decides. It blocks requests, suggests http to https upgrades and
  reports a security level.
- **The navigation coordinator (`WebViewManager`).** It classifies raw
  address-bar input as an address, a bare domain or a search on the
  configured 4get instance. It gates the result, upgrades it, and applies
  it to the tab store.
- **The window (`BagelApp`).** It keeps its own list of tabs, an active
  index and an address bar, and `update` reacts to UI messages.

Modules follow the program's structure:

| Module | Contents |
|---|---|
| `Wrappers` | Option and Result |
| `Strings` | Whitespace, `trim`, `contains`, `starts_with`, `ends_with` |
| `UrlEncoding` | UTF-8, percent-encoding as `urlencoding::encode` does it, and a reference decoder |
| `Urls` | An abstract URL parser, passed in as a parameter |
| `Config` | The configuration and its defaults |
| `Security` | The security gate |
| `Tabs` | The tab store, as a class |
| `WebView` | The coordinator, as a class over the store |
| `Window` | The window, as a class |

The store, the coordinator and the window update their state in place.
Their methods are proved against the new state they produce, and the store
keeps a stated invariant (`Valid`). The invariant says:

- the map holds exactly the ids of the order;
- each id appears once;
- each tab sits under its own id;
- there is an active tab exactly when the store is not empty.

The gate and the input classifier are pure functions, with lemmas relating
them to reference definitions.

Three inputs are parameters:

- **The URL parser (`url::Url`).** The parser is a `UrlParser` value, a pair
  of `parse` and `serialize` functions. One law is assumed where it is
  needed: `UpgradeReparses`. It says that serialising an http URL with its
  scheme switched to https and parsing the result gives back that URL.
- **Tab ids.** Ids (`Uuid::new_v4`) are passed in by the caller. They must
  be fresh.
- **The clock.** The time (`Utc::now`) is passed in as `now`.

## Model

| member | source | states |
|---|---|---|
| Strings.Contains | src/browser/security.rs:105-114 | `str::contains`: true exactly when the pattern occurs at some offset of the text |
| Strings.LeadingWhitespace | src/browser/webview.rs:75 | the count is the longest all-whitespace prefix; the next character, if any, is not whitespace |
| Strings.TrailingWhitespace | src/browser/webview.rs:75 | the same for the longest all-whitespace suffix |
| Strings.StripBothEnds | src/browser/webview.rs:75 | stripping the leading run and then the trailing run of what remains leaves whitespace-free ends |
| Strings.Trim | src/browser/webview.rs:75 | `str::trim`: the result is the text between the leading and trailing whitespace runs, with no whitespace at either end |
| Strings.TrimOfTrimmed | src/browser/webview.rs:75 | text with no whitespace at either end is left as it is |
| Strings.TrimIdempotent | src/browser/webview.rs:75 | trimming twice is trimming once |
| Strings.ContainsInContext | src/browser/security.rs:109-112 | text that contains a pattern still contains it after text is added on either side |
| Strings.EndsWithAfterPrefix | src/browser/security.rs:102 | a suffix stays a suffix after text is prepended |
| UrlEncoding.Utf8 | src/browser/webview.rs:100 | one character encodes as 1 to 4 bytes (section 3 of RFC 3629): a single byte, equal to the character, exactly for ASCII; otherwise every byte has its high bit set |
| UrlEncoding.HexValue | src/browser/webview.rs:100 | reading a hex digit is the inverse of writing one |
| UrlEncoding.HexDigit | src/browser/webview.rs:100 | writes a hex digit, a decimal digit exactly for values below ten |
| UrlEncoding.DecodeEncode | src/browser/webview.rs:100 | decoding what `urlencoding::encode` produced gives back exactly the bytes encoded |
| UrlEncoding.Encode | src/browser/webview.rs:100 | `urlencoding::encode`: its output decodes back to the text's UTF-8 bytes |
| UrlEncoding.EncodedIsQuerySafe | src/browser/webview.rs:100 | encoded output holds only unreserved characters and `%` escapes, so it cannot end the `s=` parameter |
| UrlEncoding.EncodeKeepsUnreserved | src/browser/webview.rs:100 | text made only of unreserved ASCII characters is encoded as itself |
| Security.NewSecurityManager | src/browser/security.rs:23-52 | the gate is built from the given configuration, the nine blocked domains and the four tracking patterns |
| Security.AnyCovers | src/browser/security.rs:99-103 | a domain is blocked exactly when some listed domain equals it or is its suffix after a dot |
| Security.IsDomainBlocked | src/browser/security.rs:99-103 | blocked exactly when the domain is listed, at a dot boundary |
| Security.AnyPatternMatches | src/browser/security.rs:105-114 | the pattern scan fires exactly when the list is non-empty and the url contains "analytics", "tracker", "telemetry" or "/ads/"; the patterns' own text plays no part |
| Security.IsTrackingRequest | src/browser/security.rs:105-114 | a tracking request exactly when the gate has patterns and the url has a tracker marker |
| Security.BlockVerdict | src/browser/security.rs:75-97 | ad blocking wins over tracking; each block needs its flag, a parsed url with a domain, and a listed domain or a tracker marker |
| Security.ShouldBlockRequest | src/browser/security.rs:75-97 | nothing is blocked with both flags off; a url with no domain (unparsable, or an IP address) is never blocked; otherwise blocked exactly when an ad or tracker rule fires |
| Security.SubdomainOfBlockedIsBlocked | src/browser/security.rs:99-103 | every subdomain of a blocked domain is blocked |
| Security.DefaultListMatchesAtDotBoundary | src/browser/security.rs:31-43 | with the default list, doubleclick.net and x.doubleclick.net are blocked but notdoubleclick.net is not |
| Security.TrackerMarkerInContext | src/browser/security.rs:105-114 | a url with a tracker marker keeps it inside any longer url |
| Security.SuggestHttpsUpgrade | src/browser/security.rs:116-126 | a suggestion exists exactly when upgrading is on and the url parses with scheme http |
| Urls.WithHttps | src/browser/security.rs:120 | `set_scheme("https")`: the scheme becomes https, host and rest are kept, and an explicit port 443 becomes the default and is dropped |
| Security.UpgradeKeepsAllButScheme | src/browser/security.rs:116-126 | the suggestion parses to the same host, port and rest with scheme https, an explicit port 443 dropped as the new default |
| Security.UpgradeIsIdempotent | src/browser/security.rs:116-126 | a suggested address gets no further suggestion |
| Security.CheckUrlSecurity | src/browser/security.rs:54-73 | fails exactly when the url does not parse; otherwise secure exactly for https, with a valid certificate, no mixed content, nothing blocked and a zero ad count |
| Security.InsecureHttpGetsSecureSuggestion | src/browser/security.rs:54-73 | an http url is reported insecure and, with upgrading on, has a suggestion that is reported secure |
| Security.ContentSecurityPolicy | src/browser/security.rs:141-144 | the one policy string returned for every site |
| Tabs.FreshTab | src/browser/tabs.rs:45-60 | a new tab carries its id, url and creation time; the title given, or "New Tab"; every flag false |
| Tabs.RemoveAt | src/browser/tabs.rs:74 | `Vec::remove`: one shorter; elements before the index kept; elements after it shifted down |
| Tabs.InsertAt | src/browser/tabs.rs:173 | `Vec::insert`: one longer; the element at the index; the others shifted around it |
| Tabs.IndexOf | src/browser/tabs.rs:73 | the first position of an element that is present |
| Tabs.Position | src/browser/tabs.rs:73 | `iter().position`: none exactly when the id is absent, else its first index |
| Tabs.TieBreak | src/browser/tabs.rs:77-85 | some id exactly when ids remain, and then one of them |
| Tabs.TieBreakPicksNeighbour | src/browser/tabs.rs:77-85 | after a close, the tab now at the closed index becomes active, else the one before it, else none; the chosen tab is a neighbour of the closed one and is never the closed tab |
| Tabs.RemoveAtKeepsDistinct | src/browser/tabs.rs:74 | removal keeps the order duplicate-free and drops exactly the removed id |
| Tabs.InsertAtKeepsDistinct | src/browser/tabs.rs:173 | inserting an absent id keeps the order duplicate-free and adds exactly that id |
| Tabs.MoveIsReorder | src/browser/tabs.rs:170-178 | `move_tab` permutes the order: same length and multiset; the moved id lands at the target; removing it there gives the order without it |
| Tabs.MoveSeq | src/browser/tabs.rs:170-178 | the moved order has the same length and the moved id at the target index |
| Tabs.RemoveAtMultiset | src/browser/tabs.rs:172 | removal takes exactly one occurrence of the removed element out of the multiset |
| Tabs.InsertAtMultiset | src/browser/tabs.rs:173 | insertion adds exactly one occurrence |
| Tabs.MoveKeepsDistinct | src/browser/tabs.rs:170-178 | a move keeps the order duplicate-free with the same ids |
| Tabs.MoveToEndRotates | src/browser/tabs.rs:170-178 | moving the first of three tabs to index 2 gives the rotation [B, C, A] |
| Tabs.DistinctCardinality | src/browser/tabs.rs:180-182 | a duplicate-free order has as many distinct ids as positions |
| Tabs.MapSizeIsOrderLength | src/browser/tabs.rs:180-182 | a map keyed by exactly the ids of a duplicate-free order has the order's length |
| Tabs.TabsInOrder | src/browser/tabs.rs:120-125 | the filter-map over the order: at most one tab per id; when every id is live, exactly the tabs in order |
| Tabs.TabManager.constructor | src/browser/tabs.rs:36-42 | an empty store with no active tab |
| Tabs.TabManager.CreateTab | src/browser/tabs.rs:44-70 | adds the fresh tab under its id and appends the id to the order; it becomes active only in an empty store |
| Tabs.TabManager.CloseTab | src/browser/tabs.rs:72-90 | succeeds exactly for a known id, which leaves map and order; an active closed tab passes activity to the tie-break choice; an unknown id changes nothing |
| Tabs.TabManager.SetActiveTab | src/browser/tabs.rs:92-102 | succeeds exactly for a known id, which becomes active with its last-access time refreshed; otherwise nothing changes |
| Tabs.TabManager.GetActiveTab | src/browser/tabs.rs:104-106 | in a valid store, present exactly when the store is not empty, and then the active tab |
| Tabs.TabManager.GetTab | src/browser/tabs.rs:112-114 | present exactly for a known id, and then the stored tab itself, which carries that id |
| Tabs.TabManager.GetAllTabs | src/browser/tabs.rs:120-125 | every tab, once, in display order |
| Tabs.TabManager.TabCount | src/browser/tabs.rs:180-182 | the map's size, which is the order's length |
| Tabs.TabManager.HasTabs | src/browser/tabs.rs:184-186 | true exactly when there is an active tab |
| Tabs.TabManager.UpdateTabUrl | src/browser/tabs.rs:127-132 | a known tab gets the url and a refreshed last-access time; nothing else changes |
| Tabs.TabManager.UpdateTabTitle | src/browser/tabs.rs:134-138 | a known tab gets the title; nothing else changes |
| Tabs.TabManager.SetTabLoading | src/browser/tabs.rs:140-144 | a known tab gets the loading flag; nothing else changes |
| Tabs.TabManager.SetTabNavigationState | src/browser/tabs.rs:146-156 | a known tab gets both history flags; nothing else changes |
| Tabs.TabManager.PinTab | src/browser/tabs.rs:158-162 | a known tab is pinned; nothing else changes |
| Tabs.TabManager.UnpinTab | src/browser/tabs.rs:164-168 | a known tab is unpinned; nothing else changes |
| Tabs.TabManager.MoveTab | src/browser/tabs.rs:170-178 | succeeds exactly when both indices are in range, and then reorders by the move; the map and the active tab are unchanged |
| WebView.CreateSearchUrl | src/browser/webview.rs:99-106 | the search endpoint `<instance>/web?s=` followed by a query that decodes to exactly the query's UTF-8 bytes and holds only query-safe characters |
| WebView.ProcessUrl | src/browser/webview.rs:74-97 | never fails: the result is the trimmed input, that input with "https://" in front, or the search for it; it parses unless it is that search; and it is that search whenever neither the trimmed input nor its domain candidate parses |
| WebView.ProcessUrlKeepsUrls | src/browser/webview.rs:77-81 | input that parses once trimmed is kept, trimmed |
| WebView.ProcessUrlPrependsHttps | src/browser/webview.rs:83-94 | a bare domain that does not parse alone is taken with "https://" in front when that parses |
| WebView.DomainCandidate | src/browser/webview.rs:84-88 | an address that starts with "http://" or "https://" and ends with the trimmed input |
| WebView.LooksLikeDomain | src/browser/webview.rs:83 | the domain test: a dot and no ASCII space (other whitespace is not tested) |
| WebView.ProcessUrlSearchCarriesQuery | src/browser/webview.rs:83-106 | when the trimmed input does not parse and is not a domain whose candidate parses ("999.1.1.1" included), the result is the search, and its query decodes back to the trimmed input |
| WebView.TextInputIsSearched | src/browser/webview.rs:83-96 | input with a space, or without a dot, that does not parse is searched |
| WebView.BlankInputIsEmptySearch | src/browser/webview.rs:74-97 | blank input gives the empty search, not an error |
| WebView.ProcessUrlIdempotentOnAddresses | src/browser/webview.rs:74-97 | an address produced by the classifier is classified as itself |
| WebView.ProcessUrlIsTrimmed | src/browser/webview.rs:74-97 | every result of `process_url` (address, candidate or search) has no whitespace at either end, given an instance that does not start with whitespace |
| WebView.DomainCandidateIsTrimmed | src/browser/webview.rs:84-89 | the candidate built from trimmed domain-like input is its own trim |
| WebView.SearchUrlIsTrimmed | src/browser/webview.rs:99-106 | a search address is its own trim |
| WebView.FinalUrlIsNeverPlainHttp | src/browser/webview.rs:53-59 | with upgrading on, the url `navigate` stores never has scheme http |
| WebView.FinalUrl | src/browser/webview.rs:53-56 | the classified url itself when upgrading is off, when it does not parse, or when its scheme is not http |
| WebView.CompletionUpdates | src/browser/webview.rs:165-169 | the four writes of `update_tab_info` compose into one update of the tab |
| WebView.WebViewManager.constructor | src/browser/webview.rs:31-39 | an empty store, and a gate built from the same configuration |
| WebView.WebViewManager.OpenOrRetarget | src/browser/webview.rs:60-69 | a new tab at the final url, or the given tab pointed at it with a refreshed access time and marked loading |
| WebView.WebViewManager.Navigate | src/browser/webview.rs:41-72 | a blocked request fails and leaves the store unchanged; otherwise a new tab is opened at the final url, or the given tab gets the final url, a refreshed access time and the loading flag |
| WebView.WebViewManager.CreateNewTab | src/browser/webview.rs:137-141 | opens a tab at the given url or at bagel://home |
| WebView.WebViewManager.CloseTab | src/browser/webview.rs:143-146 | the store's close, with the same outcome |
| WebView.WebViewManager.SetActiveTab | src/browser/webview.rs:148-151 | the store's activation, with the same outcome: on success the id is active and only its last-access time changes; otherwise nothing changes |
| WebView.WebViewManager.UpdateTabInfo | src/browser/webview.rs:157-171 | a known tab gets the title, url, access time and both history flags, and stops loading |
| WebView.WebViewManager.GoBack | src/browser/webview.rs:108-118 | changes no tab |
| WebView.WebViewManager.GoForward | src/browser/webview.rs:120-129 | changes no tab |
| WebView.WebViewManager.Reload | src/browser/webview.rs:131-135 | changes no tab |
| Window.ExtractTitleFromUrl | src/ui/window.rs:393-399 | the url's host, or "New Tab" when it does not parse or has no host |
| Window.CloseKeepsFocus | src/ui/window.rs:96-106 | closing another tab keeps the same tab active; closing the active one activates its left neighbour, or its right one when it was first; the index stays in range |
| Window.ActiveAfterClose | src/ui/window.rs:99-101 | the active index moves at most one step left, and stays exactly when the active tab lies before the closed one or is the first |
| Window.BagelApp.constructor | src/ui/window.rs:38-69 | one home tab, active, with an empty address bar |
| Window.BagelApp.CurrentTab | src/ui/window.rs:273-281 | the tab `create_content` shows is one of the window's tabs: the index never goes out of range |
| Window.BagelApp.ShowsHomePage | src/ui/window.rs:273-277 | the home page is shown exactly when the active tab's url is bagel://home |
| Window.BagelApp.Update | src/ui/window.rs:75-129 | every message keeps an active tab in range; each handled message has the effect of its arm (new home tab, close with focus kept, switch, address-bar edit, navigation of the active tab); a message with no arm changes nothing |
| Window.BagelApp.OnNewTab | src/ui/window.rs:77-95 | appends a home tab, makes it active and clears the address bar |
| Window.BagelApp.OnCloseTab | src/ui/window.rs:96-106 | removes an in-range tab unless it is the last one, moving the active index as `CloseKeepsFocus` describes; otherwise nothing changes |
| Window.BagelApp.OnSwitchTab | src/ui/window.rs:107-112 | an in-range index becomes active and its url fills the address bar, and the window then shows the home page exactly when that tab is at bagel://home; otherwise nothing changes |
| Window.BagelApp.OnAddressBarChanged | src/ui/window.rs:113-115 | the address bar takes the value |
| Window.BagelApp.OnNavigateTo | src/ui/window.rs:116-126 | the active tab gets the url and the host-derived title and is not loading; the other tabs are untouched |

## Left out

- Logging (`log_security_event` and `log_navigation`) is not modelled. Logging has no effect on state.
- The `Arc<Mutex<…>>` sharing of the tab store is not modelled. The store is a plain object owned by the coordinator, and lock poisoning is not modelled.
- `Uuid::new_v4` and `Utc::now` are not modelled. Ids and times are parameters, and callers must supply a fresh id. A new tab gets one `now` for both `created_at` and `last_accessed`, where the window reads the clock twice (window.rs:53-54 and 86-87); nothing modelled reads `created_at`.
- `url::Url` parsing and serialisation are not modelled, because the WHATWG URL standard is out of scope. The parser is a parameter. Host and domain extraction work on an abstract host (domain name or address).
- Security.UpgradeKeepsAllButScheme assumes `UpgradeReparses`, a stated law of the parser, rather than a proof about a real parser. `set_scheme("https")` is assumed to succeed on an http URL, as the URL standard allows.
- Security.AnyPatternMatches does not interpret the four tracking regexes. The source never applies them either: it only iterates over them.
- The stubs `validate_certificate`, `check_malicious_site` and `get_recently_closed` are left out, because each returns a constant. `get_content_security_policy` is kept as the constant `Security.ContentSecurityPolicy`.
- `get_tab_mut` and `get_active_tab_mut` are left out: nothing in the modelled code calls them (the setters reach the map through `self.tabs.get_mut` directly).
- Rendering (`view`, `create_toolbar`, the home and web pages, the tab-title truncation) and the `title`/`theme` hooks are left out. Only the choice `create_content` makes is kept.
- Window.BagelApp.Update treats the five messages without an arm (`GoBack`, `GoForward`, `Reload`, `AddBookmark`, `ShowMenu`) as leaving the window unchanged. The source's `match` has no arm for them and no `_` arm either, so as written it is non-exhaustive and rustc rejects it; the no-op is this model's choice, not behaviour of the source.
- BagelApp's `webview_manager` field is not modelled, because no modelled arm of `update` uses it. The window's tab list is independent of the store.
- The `ui` and `storage` sections of the configuration, and its loading and saving, are left out.
- WebView.ProcessUrl returns a plain string. In the source its `Result` can never be an error, and `create_search_url` is infallible too.
- `SecurityLevel.ads_blocked` (`u32`) and the `usize` indices are unbounded naturals. No modelled operation comes near their limits.
- UrlEncoding.PercentDecode is a reference decoder written for the round-trip statement; it is not taken from the source. The round trip is stated at the byte level. UTF-8 decoding back to characters is not modelled.
- Window.BagelApp.OnCloseTab keeps the source's final clamp only as a proved-dead branch. Under the window's invariant the earlier step already leaves the index in range.
