/**
 * `TabManager`: the ordered tab store. A map from id to tab record, a
 * separate list giving the user-visible order, and the active id. Fresh ids
 * (`Uuid::new_v4`) and the clock (`Utc::now`) are supplied by the caller.
 */
module Tabs {
  import opened Wrappers

  /** A tab's `Uuid`. */
  type TabId = nat

  /** A `DateTime<Utc>` reading, as the caller's clock gives it. */
  type Timestamp = int

  const DefaultTitle := "New Tab"
  const HomeUrl := "bagel://home"

  datatype Tab = Tab(
    id: TabId,
    title: string,
    url: string,
    favicon: Option<string>,
    isLoading: bool,
    canGoBack: bool,
    canGoForward: bool,
    createdAt: Timestamp,
    lastAccessed: Timestamp,
    isPinned: bool,
    isMuted: bool)

  /** The record `create_tab` builds: the given title or "New Tab", every flag off, both timestamps `now`. */
  function FreshTab(id: TabId, url: string, title: Option<string>, now: Timestamp): (t: Tab)
    ensures t.id == id && t.url == url && t.favicon == None
    ensures t.title == (if title.Some? then title.value else DefaultTitle)
    ensures !t.isLoading && !t.canGoBack && !t.canGoForward && !t.isPinned && !t.isMuted
    ensures t.createdAt == now && t.lastAccessed == now
  {
    Tab(id, title.GetOr(DefaultTitle), url, None, false, false, false, now, now, false, false)
  }

  ghost predicate Distinct<T>(s: seq<T>) {
    forall i, j :: 0 <= i < j < |s| ==> s[i] != s[j]
  }

  /** `Vec::remove(i)`. */
  function RemoveAt<T>(s: seq<T>, i: nat): (r: seq<T>)
    requires i < |s|
    ensures |r| == |s| - 1
    ensures forall k :: 0 <= k < i ==> r[k] == s[k]
    ensures forall k :: i <= k < |r| ==> r[k] == s[k + 1]
  {
    s[..i] + s[i + 1..]
  }

  /** `Vec::insert(i, x)`. */
  function InsertAt<T>(s: seq<T>, i: nat, x: T): (r: seq<T>)
    requires i <= |s|
    ensures |r| == |s| + 1 && r[i] == x
    ensures forall k :: 0 <= k < i ==> r[k] == s[k]
    ensures forall k :: i < k < |r| ==> r[k] == s[k - 1]
  {
    s[..i] + [x] + s[i..]
  }

  /** What `move_tab` does to the order: take the id at `from` out and put it back at `to`. */
  function MoveSeq<T>(s: seq<T>, from: nat, to: nat): (r: seq<T>)
    requires from < |s| && to < |s|
    ensures |r| == |s| && r[to] == s[from]
  {
    InsertAt(RemoveAt(s, from), to, s[from])
  }

  /** The first position of `x` in `s`: `iter().position(..)`. */
  function IndexOf<T(==)>(s: seq<T>, x: T): (i: nat)
    requires x in s
    ensures i < |s| && s[i] == x
    ensures forall k :: 0 <= k < i ==> s[k] != x
  {
    if s[0] == x then 0 else 1 + IndexOf(s[1..], x)
  }

  /** `iter().position(|&id| id == tab_id)`, as the scan it is. */
  method Position(order: seq<TabId>, id: TabId) returns (r: Option<nat>)
    ensures r.None? <==> id !in order
    ensures r.Some? ==> r.value < |order| && order[r.value] == id
    ensures r.Some? ==> forall k :: 0 <= k < r.value ==> order[k] != id
  {
    var i := 0;
    while i < |order|
      invariant 0 <= i <= |order|
      invariant forall k :: 0 <= k < i ==> order[k] != id
    {
      if order[i] == id {
        return Some(i);
      }
      i := i + 1;
    }
    return None;
  }

  /**
   * The tie-break of `close_tab` for the new active id, given the order after
   * the removal and the position the closed tab had: the tab that slid into
   * that position, else the one before it, else none.
   */
  function TieBreak(order: seq<TabId>, index: nat): (r: Option<TabId>)
    requires index <= |order|
    ensures r.Some? <==> order != []
    ensures r.Some? ==> r.value in order
  {
    if index < |order| then Some(order[index])
    else if order != [] then Some(order[index - 1])
    else None
  }

  /**
   * In terms of the order before the close: the active tab passes to the
   * right-hand neighbour of the closed tab, or to its left-hand neighbour when
   * it was the last, and to nobody when it was the only one.
   */
  lemma TieBreakPicksNeighbour(s: seq<TabId>, i: nat)
    requires Distinct(s) && i < |s|
    ensures var r := TieBreak(RemoveAt(s, i), i);
      && (r.None? <==> |s| == 1)
      && (r.Some? ==> r.value in RemoveAt(s, i) && r.value != s[i])
      && (i + 1 < |s| ==> r == Some(s[i + 1]))
      && (i + 1 == |s| && i > 0 ==> r == Some(s[i - 1]))
  {
    var t := RemoveAt(s, i);
    if i + 1 < |s| {
      assert t[i] == s[i + 1];
    } else if i > 0 {
      assert t[i - 1] == s[i - 1];
    }
  }

  lemma {:induction false} RemoveAtKeepsDistinct<T>(s: seq<T>, i: nat)
    requires Distinct(s) && i < |s|
    ensures Distinct(RemoveAt(s, i))
    ensures forall x :: x in RemoveAt(s, i) <==> x in s && x != s[i]
  {
    var r := RemoveAt(s, i);
    forall a, b | 0 <= a < b < |r| ensures r[a] != r[b] {
      var a' := if a < i then a else a + 1;
      var b' := if b < i then b else b + 1;
      assert r[a] == s[a'] && r[b] == s[b'];
    }
    forall x ensures x in r <==> x in s && x != s[i] {
      if x in r {
        var k :| 0 <= k < |r| && r[k] == x;
        var k' := if k < i then k else k + 1;
        assert s[k'] == x && k' != i;
      }
      if x in s && x != s[i] {
        var k :| 0 <= k < |s| && s[k] == x;
        assert k != i;
        if k < i { assert r[k] == x; } else { assert r[k - 1] == x; }
      }
    }
  }

  lemma {:induction false} InsertAtKeepsDistinct<T>(s: seq<T>, i: nat, x: T)
    requires Distinct(s) && i <= |s| && x !in s
    ensures Distinct(InsertAt(s, i, x))
    ensures forall y :: y in InsertAt(s, i, x) <==> y in s || y == x
  {
    var r := InsertAt(s, i, x);
    forall a, b | 0 <= a < b < |r| ensures r[a] != r[b] {
      if a != i && b != i {
        var a' := if a < i then a else a - 1;
        var b' := if b < i then b else b - 1;
        assert r[a] == s[a'] && r[b] == s[b'];
      } else if a == i {
        assert r[b] == s[b - 1];
      } else {
        assert r[a] == s[a];
      }
    }
    forall y ensures y in r <==> y in s || y == x {
      if y in r {
        var k :| 0 <= k < |r| && r[k] == y;
        if k < i { assert s[k] == y; } else if k > i { assert s[k - 1] == y; }
      }
      if y in s {
        var k :| 0 <= k < |s| && s[k] == y;
        if k < i { assert r[k] == y; } else { assert r[k + 1] == y; }
      }
    }
  }

  /**
   * `move_tab` is a reordering: same length, same ids, the moved id lands at
   * `to`, and the other ids keep their relative order.
   */
  lemma MoveIsReorder<T>(s: seq<T>, from: nat, to: nat)
    requires from < |s| && to < |s|
    ensures |MoveSeq(s, from, to)| == |s|
    ensures multiset(MoveSeq(s, from, to)) == multiset(s)
    ensures MoveSeq(s, from, to)[to] == s[from]
    ensures RemoveAt(MoveSeq(s, from, to), to) == RemoveAt(s, from)
  {
    var r := RemoveAt(s, from);
    var m := MoveSeq(s, from, to);
    RemoveAtMultiset(s, from);
    InsertAtMultiset(r, to, s[from]);
    var back := RemoveAt(m, to);
    assert |back| == |r|;
    forall k | 0 <= k < |r| ensures back[k] == r[k] {
      if k < to { assert back[k] == m[k]; } else { assert back[k] == m[k + 1]; }
    }
  }

  lemma RemoveAtMultiset<T>(s: seq<T>, i: nat)
    requires i < |s|
    ensures multiset(RemoveAt(s, i)) + multiset{s[i]} == multiset(s)
  {
    assert s == s[..i] + [s[i]] + s[i + 1..];
  }

  lemma InsertAtMultiset<T>(s: seq<T>, i: nat, x: T)
    requires i <= |s|
    ensures multiset(InsertAt(s, i, x)) == multiset(s) + multiset{x}
  {
    assert s == s[..i] + s[i..];
  }

  /** A reordering of distinct ids keeps them distinct and keeps the same ids. */
  lemma MoveKeepsDistinct<T>(s: seq<T>, from: nat, to: nat)
    requires from < |s| && to < |s| && Distinct(s)
    ensures Distinct(MoveSeq(s, from, to))
    ensures forall x :: x in MoveSeq(s, from, to) <==> x in s
  {
    RemoveAtKeepsDistinct(s, from);
    InsertAtKeepsDistinct(RemoveAt(s, from), to, s[from]);
  }

  ghost function Elements<T>(s: seq<T>): set<T> {
    set x | x in s
  }

  /** Distinct ids are as many as the list is long. */
  lemma {:induction false} DistinctCardinality<T>(s: seq<T>)
    requires Distinct(s)
    ensures |Elements(s)| == |s|
  {
    if s != [] {
      var t := s[1..];
      assert Distinct(t) by {
        forall a, b | 0 <= a < b < |t| ensures t[a] != t[b] {
          assert t[a] == s[a + 1] && t[b] == s[b + 1];
        }
      }
      DistinctCardinality(t);
      assert s[0] !in t by {
        forall k | 0 <= k < |t| ensures t[k] != s[0] {
          assert t[k] == s[k + 1];
        }
      }
      assert Elements(s) == Elements(t) + {s[0]};
    }
  }

  /** A map keyed by exactly the ids of a list without repeats has as many entries as the list. */
  lemma MapSizeIsOrderLength(tabs: map<TabId, Tab>, order: seq<TabId>)
    ensures (forall id :: id in tabs <==> id in order) && Distinct(order) ==> |tabs| == |order|
  {
    if (forall id :: id in tabs <==> id in order) && Distinct(order) {
      DistinctCardinality(order);
      assert tabs.Keys == Elements(order);
      assert |tabs| == |tabs.Keys|;
    }
  }

  /** `filter_map(|id| tabs.get(id))` over the order. */
  function TabsInOrder(order: seq<TabId>, tabs: map<TabId, Tab>): (r: seq<Tab>)
    ensures |r| <= |order|
    ensures (forall id :: id in order ==> id in tabs) ==>
      |r| == |order| && forall i :: 0 <= i < |r| ==> r[i] == tabs[order[i]]
  {
    if order == [] then []
    else
      var rest := TabsInOrder(order[1..], tabs);
      if order[0] in tabs then [tabs[order[0]]] + rest else rest
  }

  class TabManager {
    var tabs: map<TabId, Tab>
    var activeTabId: Option<TabId>
    var tabOrder: seq<TabId>

    /**
     * The store's invariant: the map holds exactly the ids of the order, each
     * once and under its own id; there is an active id exactly when the store
     * is not empty, and it is a live one.
     */
    ghost predicate Valid()
      reads this
    {
      && (forall id :: id in tabs <==> id in tabOrder)
      && Distinct(tabOrder)
      && (forall id :: id in tabs ==> tabs[id].id == id)
      && (activeTabId.None? <==> tabOrder == [])
      && (activeTabId.Some? ==> activeTabId.value in tabs)
    }

    constructor()
      ensures Valid()
      ensures tabs == map[] && tabOrder == [] && activeTabId == None
    {
      tabs := map[];
      activeTabId := None;
      tabOrder := [];
    }

    /** `create_tab`: appends a fresh tab, which becomes active only in an empty store. */
    method CreateTab(id: TabId, url: string, title: Option<string>, now: Timestamp) returns (r: TabId)
      requires Valid() && id !in tabs
      modifies this
      ensures Valid() && r == id
      ensures tabs == old(tabs)[id := FreshTab(id, url, title, now)]
      ensures tabOrder == old(tabOrder) + [id]
      ensures activeTabId == if old(activeTabId).None? then Some(id) else old(activeTabId)
    {
      var tab := FreshTab(id, url, title, now);
      tabs := tabs[id := tab];
      tabOrder := tabOrder + [id];
      if activeTabId.None? {
        activeTabId := Some(id);
      }
      r := id;
    }

    /**
     * `close_tab`: removes the id from the order and the map; an active tab
     * hands over to `TieBreak`. An unknown id changes nothing.
     */
    method CloseTab(id: TabId) returns (closed: bool)
      requires Valid()
      modifies this
      ensures Valid()
      ensures closed <==> id in old(tabOrder)
      ensures !closed ==> tabs == old(tabs) && tabOrder == old(tabOrder) && activeTabId == old(activeTabId)
      ensures closed ==>
        var i := IndexOf(old(tabOrder), id);
        && tabOrder == RemoveAt(old(tabOrder), i)
        && tabs == old(tabs) - {id}
        && activeTabId == if old(activeTabId) == Some(id) then TieBreak(tabOrder, i) else old(activeTabId)
    {
      var position := Position(tabOrder, id);
      match position
      case Some(index) =>
        assert index == IndexOf(tabOrder, id);
        RemoveAtKeepsDistinct(tabOrder, index);
        tabOrder := RemoveAt(tabOrder, index);
        tabs := tabs - {id};
        if activeTabId == Some(id) {
          activeTabId := TieBreak(tabOrder, index);
        }
        closed := true;
      case None =>
        closed := false;
    }

    /** `set_active_tab`: activates a live tab and stamps its last access. */
    method SetActiveTab(id: TabId, now: Timestamp) returns (ok: bool)
      requires Valid()
      modifies this
      ensures Valid() && tabOrder == old(tabOrder)
      ensures ok <==> id in old(tabs)
      ensures ok ==> activeTabId == Some(id) && tabs == old(tabs)[id := old(tabs)[id].(lastAccessed := now)]
      ensures !ok ==> activeTabId == old(activeTabId) && tabs == old(tabs)
    {
      if id in tabs {
        activeTabId := Some(id);
        tabs := tabs[id := tabs[id].(lastAccessed := now)];
        ok := true;
      } else {
        ok := false;
      }
    }

    /** `get_active_tab`. */
    function GetActiveTab(): (r: Option<Tab>)
      reads this
      ensures Valid() ==> (r.None? <==> tabOrder == [])
      ensures r.Some? ==> activeTabId == Some(r.value.id) || !Valid()
      ensures r.Some? ==> r.value in tabs.Values
    {
      match activeTabId
      case Some(id) => if id in tabs then Some(tabs[id]) else None
      case None => None
    }

    /** `get_tab`. */
    function GetTab(id: TabId): (r: Option<Tab>)
      reads this
      ensures r.Some? <==> id in tabs
      ensures r.Some? ==> r.value == tabs[id]
      ensures Valid() && r.Some? ==> r.value.id == id && id in tabOrder
    {
      if id in tabs then Some(tabs[id]) else None
    }

    /** `get_all_tabs`: every tab, in the user-visible order. */
    function GetAllTabs(): (r: seq<Tab>)
      reads this
      requires Valid()
      ensures |r| == |tabOrder|
      ensures forall i :: 0 <= i < |r| ==> r[i] == tabs[tabOrder[i]] && r[i].id == tabOrder[i]
    {
      TabsInOrder(tabOrder, tabs)
    }

    /** `tab_count`: the size of the map, which is the length of the order. */
    function TabCount(): (n: nat)
      reads this
      ensures Valid() ==> n == |tabOrder|
    {
      MapSizeIsOrderLength(tabs, tabOrder);
      |tabs|
    }

    /** `has_tabs`. */
    predicate HasTabs()
      reads this
      ensures Valid() ==> (HasTabs() <==> activeTabId.Some?)
    {
      |tabs| != 0
    }

    /** `update_tab_url`: the url and the last access of a live tab; nothing for an unknown id. */
    method UpdateTabUrl(id: TabId, url: string, now: Timestamp)
      requires Valid()
      modifies this
      ensures Valid() && tabOrder == old(tabOrder) && activeTabId == old(activeTabId)
      ensures tabs == if id in old(tabs) then old(tabs)[id := old(tabs)[id].(url := url, lastAccessed := now)] else old(tabs)
    {
      if id in tabs {
        tabs := tabs[id := tabs[id].(url := url, lastAccessed := now)];
      }
    }

    /** `update_tab_title`. */
    method UpdateTabTitle(id: TabId, title: string)
      requires Valid()
      modifies this
      ensures Valid() && tabOrder == old(tabOrder) && activeTabId == old(activeTabId)
      ensures tabs == if id in old(tabs) then old(tabs)[id := old(tabs)[id].(title := title)] else old(tabs)
    {
      if id in tabs {
        tabs := tabs[id := tabs[id].(title := title)];
      }
    }

    /** `set_tab_loading`. */
    method SetTabLoading(id: TabId, isLoading: bool)
      requires Valid()
      modifies this
      ensures Valid() && tabOrder == old(tabOrder) && activeTabId == old(activeTabId)
      ensures tabs == if id in old(tabs) then old(tabs)[id := old(tabs)[id].(isLoading := isLoading)] else old(tabs)
    {
      if id in tabs {
        tabs := tabs[id := tabs[id].(isLoading := isLoading)];
      }
    }

    /** `set_tab_navigation_state`. */
    method SetTabNavigationState(id: TabId, canGoBack: bool, canGoForward: bool)
      requires Valid()
      modifies this
      ensures Valid() && tabOrder == old(tabOrder) && activeTabId == old(activeTabId)
      ensures tabs == if id in old(tabs)
        then old(tabs)[id := old(tabs)[id].(canGoBack := canGoBack, canGoForward := canGoForward)]
        else old(tabs)
    {
      if id in tabs {
        tabs := tabs[id := tabs[id].(canGoBack := canGoBack, canGoForward := canGoForward)];
      }
    }

    /** `pin_tab`. */
    method PinTab(id: TabId)
      requires Valid()
      modifies this
      ensures Valid() && tabOrder == old(tabOrder) && activeTabId == old(activeTabId)
      ensures tabs == if id in old(tabs) then old(tabs)[id := old(tabs)[id].(isPinned := true)] else old(tabs)
    {
      if id in tabs {
        tabs := tabs[id := tabs[id].(isPinned := true)];
      }
    }

    /** `unpin_tab`. */
    method UnpinTab(id: TabId)
      requires Valid()
      modifies this
      ensures Valid() && tabOrder == old(tabOrder) && activeTabId == old(activeTabId)
      ensures tabs == if id in old(tabs) then old(tabs)[id := old(tabs)[id].(isPinned := false)] else old(tabs)
    {
      if id in tabs {
        tabs := tabs[id := tabs[id].(isPinned := false)];
      }
    }

    /** `move_tab`: a reorder of the list when both positions are in range, otherwise nothing. */
    method MoveTab(from: nat, to: nat) returns (ok: bool)
      requires Valid()
      modifies this
      ensures Valid() && tabs == old(tabs) && activeTabId == old(activeTabId)
      ensures ok <==> from < |old(tabOrder)| && to < |old(tabOrder)|
      ensures tabOrder == if ok then MoveSeq(old(tabOrder), from, to) else old(tabOrder)
    {
      if from < |tabOrder| && to < |tabOrder| {
        MoveKeepsDistinct(tabOrder, from, to);
        var id := tabOrder[from];
        tabOrder := RemoveAt(tabOrder, from);
        tabOrder := InsertAt(tabOrder, to, id);
        ok := true;
      } else {
        ok := false;
      }
    }
  }

  /**
   * A caller's view of closing, using only the contracts above: with tabs
   * A, B, C and B active, closing B activates C, the tab that took its place.
   */
  method CloseMiddleScenario(a: TabId, b: TabId, c: TabId, now: Timestamp)
    requires a != b && b != c && a != c
  {
    var store := new TabManager();
    var _ := store.CreateTab(a, HomeUrl, None, now);
    var _ := store.CreateTab(b, HomeUrl, None, now);
    var _ := store.CreateTab(c, HomeUrl, None, now);
    assert store.tabOrder == [a, b, c];
    var ok := store.SetActiveTab(b, now);
    assert ok && store.activeTabId == Some(b);
    var closed := store.CloseTab(b);
    assert IndexOf([a, b, c], b) == 1;
    assert closed && store.tabOrder == [a, c] && store.activeTabId == Some(c);
  }

  /**
   * With tabs A, C and C active, closing C activates A, the new last tab;
   * closing C again changes nothing; closing A empties the store.
   */
  method CloseLastScenario(a: TabId, c: TabId, now: Timestamp)
    requires a != c
  {
    var store := new TabManager();
    var _ := store.CreateTab(a, HomeUrl, None, now);
    var _ := store.CreateTab(c, HomeUrl, None, now);
    var ok := store.SetActiveTab(c, now);
    assert store.tabOrder == [a, c] && store.activeTabId == Some(c);
    var closed := store.CloseTab(c);
    assert IndexOf([a, c], c) == 1;
    assert closed && store.tabOrder == [a] && store.activeTabId == Some(a);
    closed := store.CloseTab(c);
    assert !closed && store.activeTabId == Some(a);
    closed := store.CloseTab(a);
    assert closed && store.tabOrder == [] && store.activeTabId == None;
  }

  /** `move_tab` on [A, B, C] from index 0 to index 2 gives [B, C, A]. */
  lemma MoveToEndRotates(a: TabId, b: TabId, c: TabId)
    ensures MoveSeq([a, b, c], 0, 2) == [b, c, a]
  {
    assert RemoveAt([a, b, c], 0) == [b, c];
  }

  /** A caller's view of reordering: the first of three tabs moved to the end; an index out of range is refused. */
  method MoveScenario(a: TabId, b: TabId, c: TabId, now: Timestamp)
    requires a != b && b != c && a != c
  {
    var store := new TabManager();
    var _ := store.CreateTab(a, HomeUrl, None, now);
    var _ := store.CreateTab(b, HomeUrl, None, now);
    var _ := store.CreateTab(c, HomeUrl, None, now);
    assert store.tabOrder == [a, b, c];
    MoveToEndRotates(a, b, c);
    var moved := store.MoveTab(0, 2);
    assert moved && store.tabOrder == [b, c, a] && store.activeTabId == Some(a);
    moved := store.MoveTab(0, 3);
    assert !moved && store.tabOrder == [b, c, a];
  }
}
