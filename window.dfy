/**
 * `BagelApp`: the window's own tab list, independent of the tab store. It
 * keeps a list of tab records and the index of the active one; `Update`
 * runs one message through it. Widgets and rendering are not modelled, only
 * the choice `create_content` makes from the active tab.
 */
module Window {
  import opened Wrappers
  import opened Urls
  import opened Tabs

  /** The window's messages; `update` has an arm for the first five only. */
  datatype Message =
    | NewTab
    | CloseTab(index: nat)
    | SwitchTab(index: nat)
    | AddressBarChanged(value: string)
    | NavigateTo(url: string)
    | GoBack
    | GoForward
    | Reload
    | AddBookmark
    | ShowMenu
  {
    /** The messages `update` has an arm for. */
    predicate Handled() {
      NewTab? || CloseTab? || SwitchTab? || AddressBarChanged? || NavigateTo?
    }
  }

  /** `extract_title_from_url`: the host of the URL, or "New Tab" when it does not parse or has no host. */
  function ExtractTitleFromUrl(p: UrlParser, url: string): (title: string)
    ensures p.parse(url).None? ==> title == DefaultTitle
    ensures p.parse(url).Some? && HostStr(p.parse(url).value).Some? ==> title == HostStr(p.parse(url).value).value
    ensures p.parse(url).Some? && HostStr(p.parse(url).value).None? ==> title == DefaultTitle
  {
    match p.parse(url)
    case Some(u) => HostStr(u).GetOr(DefaultTitle)
    case None => DefaultTitle
  }

  /**
   * The active index after the tab at `index` is removed: one step left when
   * the removed tab is at or before the active one (unless the active one is
   * the first).
   */
  function ActiveAfterClose(active: nat, index: nat): (r: nat)
    ensures r <= active && active - r <= 1
    ensures r == active <==> active < index || active == 0
  {
    if active >= index && active > 0 then active - 1 else active
  }

  /**
   * What `CloseTab` means for the user: closing another tab keeps the same
   * tab active; closing the active tab activates the one before it, or the
   * one after it when it was the first. The index stays in range.
   */
  lemma CloseKeepsFocus(tabs: seq<Tab>, active: nat, index: nat)
    requires active < |tabs| && index < |tabs| && |tabs| > 1
    ensures var after := RemoveAt(tabs, index); var a := ActiveAfterClose(active, index);
      && a < |after|
      && (index != active ==> after[a] == tabs[active])
      && (index == active && active > 0 ==> after[a] == tabs[active - 1])
      && (index == active && active == 0 ==> after[a] == tabs[1])
  {
  }

  class BagelApp {
    var tabs: seq<Tab>
    var activeTabIndex: nat
    var addressBarValue: string
    var isLoading: bool

    /** The window's invariant: the active index names a tab, so the list is never empty. */
    ghost predicate Valid()
      reads this
    {
      activeTabIndex < |tabs|
    }

    /** `BagelApp::new`: one home tab, active, and an empty address bar. */
    constructor(id: TabId, now: Timestamp)
      ensures Valid()
      ensures tabs == [FreshTab(id, HomeUrl, None, now)] && activeTabIndex == 0
      ensures addressBarValue == "" && !isLoading
    {
      tabs := [FreshTab(id, HomeUrl, None, now)];
      activeTabIndex := 0;
      addressBarValue := "";
      isLoading := false;
    }

    /** The tab `create_content` shows: the index at the heart of rendering is in range. */
    function CurrentTab(): (t: Tab)
      reads this
      requires Valid()
      ensures t in tabs
    {
      tabs[activeTabIndex]
    }

    /** `create_content` shows the home page exactly for the home address. */
    predicate ShowsHomePage()
      reads this
      requires Valid()
    {
      CurrentTab().url == HomeUrl
    }

    /**
     * `update`: one message, by its arm. `id` and `now` are the fresh id and
     * the time a new tab would get. Whatever the message, the window keeps a
     * tab to show; a message without an arm changes nothing.
     */
    method Update(p: UrlParser, message: Message, id: TabId, now: Timestamp)
      requires Valid()
      modifies this
      ensures Valid() && |tabs| >= 1
      ensures isLoading == old(isLoading)
      ensures !message.Handled() ==> unchanged(this)
      ensures message.NewTab? ==>
        && tabs == old(tabs) + [FreshTab(id, HomeUrl, None, now)]
        && activeTabIndex == |tabs| - 1 && addressBarValue == ""
      ensures message.CloseTab? ==> var index := message.index;
        && (|old(tabs)| > 1 && index < |old(tabs)| ==>
              tabs == RemoveAt(old(tabs), index) && activeTabIndex == ActiveAfterClose(old(activeTabIndex), index))
        && (!(|old(tabs)| > 1 && index < |old(tabs)|) ==>
              tabs == old(tabs) && activeTabIndex == old(activeTabIndex))
        && addressBarValue == old(addressBarValue)
      ensures message.SwitchTab? ==> var index := message.index;
        && tabs == old(tabs)
        && (index < |tabs| ==> activeTabIndex == index && addressBarValue == tabs[index].url)
        && (index >= |tabs| ==> activeTabIndex == old(activeTabIndex) && addressBarValue == old(addressBarValue))
      ensures message.AddressBarChanged? ==>
        tabs == old(tabs) && activeTabIndex == old(activeTabIndex) && addressBarValue == message.value
      ensures message.NavigateTo? ==>
        && activeTabIndex == old(activeTabIndex) && addressBarValue == old(addressBarValue)
        && tabs == old(tabs)[activeTabIndex := old(tabs)[activeTabIndex].(url := message.url,
             title := ExtractTitleFromUrl(p, message.url), isLoading := false)]
    {
      match message
      case NewTab => OnNewTab(id, now);
      case CloseTab(index) => OnCloseTab(index);
      case SwitchTab(index) => OnSwitchTab(index);
      case AddressBarChanged(value) => OnAddressBarChanged(value);
      case NavigateTo(url) => OnNavigateTo(p, url);
      case _ =>
    }

    /** The `NewTab` arm: a home tab at the end becomes active; the address bar is cleared. */
    method OnNewTab(id: TabId, now: Timestamp)
      requires Valid()
      modifies this
      ensures Valid() && ShowsHomePage()
      ensures tabs == old(tabs) + [FreshTab(id, HomeUrl, None, now)]
      ensures activeTabIndex == |tabs| - 1
      ensures addressBarValue == "" && isLoading == old(isLoading)
    {
      tabs := tabs + [FreshTab(id, HomeUrl, None, now)];
      activeTabIndex := |tabs| - 1;
      addressBarValue := "";
    }

    /**
     * The `CloseTab` arm: the last remaining tab is never closed, nor is an
     * index out of range. The final clamp of the source never fires.
     */
    method OnCloseTab(index: nat)
      requires Valid()
      modifies this
      ensures Valid()
      ensures |old(tabs)| > 1 && index < |old(tabs)| ==>
        tabs == RemoveAt(old(tabs), index) && activeTabIndex == ActiveAfterClose(old(activeTabIndex), index)
      ensures !(|old(tabs)| > 1 && index < |old(tabs)|) ==>
        tabs == old(tabs) && activeTabIndex == old(activeTabIndex)
      ensures addressBarValue == old(addressBarValue) && isLoading == old(isLoading)
    {
      if |tabs| > 1 && index < |tabs| {
        tabs := RemoveAt(tabs, index);
        if activeTabIndex >= index && activeTabIndex > 0 {
          activeTabIndex := activeTabIndex - 1;
        }
        if activeTabIndex >= |tabs| {
          // The source clamps to the last index here; under Valid() this branch is dead.
          assert false;
        }
      }
    }

    /** The `SwitchTab` arm: an index in range becomes active and its url fills the address bar. */
    method OnSwitchTab(index: nat)
      requires Valid()
      modifies this
      ensures Valid() && tabs == old(tabs) && isLoading == old(isLoading)
      ensures index < |tabs| ==> activeTabIndex == index && addressBarValue == tabs[index].url
      ensures index >= |tabs| ==> activeTabIndex == old(activeTabIndex) && addressBarValue == old(addressBarValue)
      ensures index < |tabs| ==> (ShowsHomePage() <==> tabs[index].url == HomeUrl)
    {
      if index < |tabs| {
        activeTabIndex := index;
        addressBarValue := tabs[index].url;
      }
    }

    /** The `AddressBarChanged` arm. */
    method OnAddressBarChanged(value: string)
      requires Valid()
      modifies this
      ensures Valid() && tabs == old(tabs) && activeTabIndex == old(activeTabIndex)
      ensures addressBarValue == value && isLoading == old(isLoading)
    {
      addressBarValue := value;
    }

    /**
     * The `NavigateTo` arm: the active tab gets the url, and a title taken from
     * its host once the (simulated) load is over; every other tab is untouched.
     */
    method OnNavigateTo(p: UrlParser, url: string)
      requires Valid()
      modifies this
      ensures Valid() && activeTabIndex == old(activeTabIndex)
      ensures tabs == old(tabs)[activeTabIndex :=
        old(tabs)[activeTabIndex].(url := url, title := ExtractTitleFromUrl(p, url), isLoading := false)]
      ensures addressBarValue == old(addressBarValue) && isLoading == old(isLoading)
    {
      if activeTabIndex < |tabs| {
        tabs := tabs[activeTabIndex := tabs[activeTabIndex].(url := url)];
        tabs := tabs[activeTabIndex := tabs[activeTabIndex].(title := "Loading...")];
        tabs := tabs[activeTabIndex := tabs[activeTabIndex].(isLoading := true)];
        tabs := tabs[activeTabIndex := tabs[activeTabIndex].(isLoading := false)];
        tabs := tabs[activeTabIndex := tabs[activeTabIndex].(title := ExtractTitleFromUrl(p, url))];
      }
    }
  }
}
