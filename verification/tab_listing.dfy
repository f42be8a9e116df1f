/** The grouping behind `list tabs`: detected tabs are bucketed by browser
    name, and the buckets are listed in ascending name order with a count. */
module TabListing {
  import StringOrder

  datatype Tab = Tab(tabId: string, title: string, url: string, browserName: string)

  /** One browser's section of the listing: the name, the number of tabs
      reported for it, and its tabs. */
  datatype TabGroup = TabGroup(browser: string, count: nat, tabs: seq<Tab>)

  /** The tabs that belong to `browser`, in input order. */
  function TabsOf(tabs: seq<Tab>, browser: string): seq<Tab>
    decreases |tabs|
  {
    if tabs == [] then []
    else
      var last := tabs[|tabs| - 1];
      TabsOf(tabs[..|tabs| - 1], browser) + (if last.browserName == browser then [last] else [])
  }

  /** The browser names occurring in `tabs`. */
  function Browsers(tabs: seq<Tab>): set<string>
  {
    set t | t in tabs :: t.browserName
  }

  lemma {:induction false} TabsOfMembers(tabs: seq<Tab>, browser: string)
    ensures forall t :: t in TabsOf(tabs, browser) <==> t in tabs && t.browserName == browser
    decreases |tabs|
  {
    if tabs != [] {
      var init := tabs[..|tabs| - 1];
      TabsOfMembers(init, browser);
      assert tabs == init + [tabs[|tabs| - 1]];
    }
  }

  /** `groups` is the listing of `tabs`: browser names strictly ascending
      (hence each at most once), every group holding exactly the tabs of its
      browser in input order with a count equal to their number, and exactly
      the browsers of the input having a group. */
  predicate IsGrouping(tabs: seq<Tab>, groups: seq<TabGroup>)
  {
    && (forall i, j :: 0 <= i < j < |groups| ==> StringOrder.Less(groups[i].browser, groups[j].browser))
    && (forall k :: 0 <= k < |groups| ==>
          groups[k].tabs == TabsOf(tabs, groups[k].browser) && groups[k].count == |groups[k].tabs|)
    && (forall k :: 0 <= k < |groups| ==> groups[k].browser in Browsers(tabs))
    && (forall t :: t in tabs ==> exists k :: 0 <= k < |groups| && groups[k].browser == t.browserName)
  }

  lemma TabsOfAppend(tabs: seq<Tab>, tab: Tab, browser: string)
    ensures TabsOf(tabs + [tab], browser) ==
      TabsOf(tabs, browser) + (if tab.browserName == browser then [tab] else [])
  {
  }

  lemma TabsOfAbsent(tabs: seq<Tab>, browser: string)
    requires browser !in Browsers(tabs)
    ensures TabsOf(tabs, browser) == []
  {
  }

  lemma BrowsersAppend(tabs: seq<Tab>, tab: Tab)
    ensures Browsers(tabs + [tab]) == Browsers(tabs) + {tab.browserName}
  {
  }

  /** The dictionary pass: each browser's tabs in input order, and the
      browsers in the order they were first met. */
  method Bucket(tabs: seq<Tab>) returns (byBrowser: map<string, seq<Tab>>, order: seq<string>)
    ensures byBrowser.Keys == Browsers(tabs)
    ensures forall b :: b in byBrowser ==> byBrowser[b] == TabsOf(tabs, b)
    ensures StringOrder.Distinct(order)
    ensures forall b :: b in order <==> b in byBrowser
  {
    byBrowser := map[];
    order := [];
    for i := 0 to |tabs|
      invariant byBrowser.Keys == Browsers(tabs[..i])
      invariant forall b :: b in byBrowser ==> byBrowser[b] == TabsOf(tabs[..i], b)
      invariant StringOrder.Distinct(order)
      invariant forall b :: b in order <==> b in byBrowser
    {
      var tab := tabs[i];
      assert tabs[..i + 1] == tabs[..i] + [tab];
      BrowsersAppend(tabs[..i], tab);
      var prev := byBrowser;
      if tab.browserName !in byBrowser {
        TabsOfAbsent(tabs[..i], tab.browserName);
        byBrowser := byBrowser[tab.browserName := []];
        order := order + [tab.browserName];
      }
      byBrowser := byBrowser[tab.browserName := byBrowser[tab.browserName] + [tab]];
      forall b | b in byBrowser
        ensures byBrowser[b] == TabsOf(tabs[..i + 1], b)
      {
        TabsOfAppend(tabs[..i], tab, b);
      }
    }
    assert tabs[..|tabs|] == tabs;
  }

  /** The sorted listing: one group per key, in key order. */
  function Assemble(keys: seq<string>, byBrowser: map<string, seq<Tab>>): (groups: seq<TabGroup>)
    requires forall b :: b in keys ==> b in byBrowser
    ensures |groups| == |keys|
    ensures forall k :: 0 <= k < |keys| ==>
      groups[k] == TabGroup(keys[k], |byBrowser[keys[k]]|, byBrowser[keys[k]])
  {
    seq(|keys|, k requires 0 <= k < |keys| => TabGroup(keys[k], |byBrowser[keys[k]]|, byBrowser[keys[k]]))
  }

  lemma AssembleIsGrouping(tabs: seq<Tab>, byBrowser: map<string, seq<Tab>>, keys: seq<string>)
    requires byBrowser.Keys == Browsers(tabs)
    requires forall b :: b in byBrowser ==> byBrowser[b] == TabsOf(tabs, b)
    requires StringOrder.StrictlyAscending(keys)
    requires forall b :: b in keys <==> b in byBrowser
    ensures IsGrouping(tabs, Assemble(keys, byBrowser))
    ensures forall k :: 0 <= k < |keys| ==> Assemble(keys, byBrowser)[k].count > 0
  {
    var groups := Assemble(keys, byBrowser);
    forall k | 0 <= k < |groups|
      ensures groups[k].count > 0
    {
      assert keys[k] in keys;
      TabsOfMembers(tabs, keys[k]);
      var t :| t in tabs && t.browserName == keys[k];
      assert t in groups[k].tabs;
    }
    forall t | t in tabs
      ensures exists k :: 0 <= k < |groups| && groups[k].browser == t.browserName
    {
      assert t.browserName in Browsers(tabs);
      var k :| 0 <= k < |keys| && keys[k] == t.browserName;
      assert groups[k].browser == t.browserName;
    }
  }

  /** Buckets the tabs by browser the way a dictionary filled in input order
      does, then lists the buckets sorted by browser name. */
  method GroupByBrowser(tabs: seq<Tab>) returns (groups: seq<TabGroup>)
    ensures IsGrouping(tabs, groups)
    ensures forall k :: 0 <= k < |groups| ==> groups[k].count > 0
    ensures tabs == [] ==> groups == []
  {
    var byBrowser, order := Bucket(tabs);
    var keys := StringOrder.Sort(order);
    assert forall b :: b in keys <==> b in order by {
      forall b ensures b in keys <==> b in order {
        assert b in keys <==> b in multiset(keys);
        assert b in order <==> b in multiset(order);
      }
    }
    groups := Assemble(keys, byBrowser);
    AssembleIsGrouping(tabs, byBrowser, keys);
    if tabs == [] {
      EmptyInputHasNoGroups(groups);
    }
  }

  /** Every tab lies in the group of its own browser and in no other. */
  lemma EachTabInItsBrowserGroup(tabs: seq<Tab>, groups: seq<TabGroup>)
    requires IsGrouping(tabs, groups)
    ensures forall i, k :: 0 <= i < |tabs| && 0 <= k < |groups| ==>
      (tabs[i] in groups[k].tabs <==> groups[k].browser == tabs[i].browserName)
    ensures forall t :: t in tabs ==> exists k :: 0 <= k < |groups| && groups[k].browser == t.browserName
    ensures forall k1, k2 :: 0 <= k1 < k2 < |groups| ==> groups[k1].browser != groups[k2].browser
  {
    forall i, k | 0 <= i < |tabs| && 0 <= k < |groups|
      ensures tabs[i] in groups[k].tabs <==> groups[k].browser == tabs[i].browserName
    {
      TabsOfMembers(tabs, groups[k].browser);
    }
    forall k1, k2 | 0 <= k1 < k2 < |groups|
      ensures groups[k1].browser != groups[k2].browser
    {
      StringOrder.LessIrreflexive(groups[k1].browser);
    }
  }

  function GroupNames(groups: seq<TabGroup>): (names: seq<string>)
    ensures |names| == |groups|
    ensures forall k :: 0 <= k < |groups| ==> names[k] == groups[k].browser
  {
    seq(|groups|, k requires 0 <= k < |groups| => groups[k].browser)
  }

  /** Every browser named by one grouping of `tabs` is named by any other. */
  lemma NamesCovered(tabs: seq<Tab>, ga: seq<TabGroup>, gb: seq<TabGroup>)
    requires IsGrouping(tabs, ga) && IsGrouping(tabs, gb)
    ensures forall x :: x in GroupNames(ga) ==> x in GroupNames(gb)
  {
    var na := GroupNames(ga);
    var nb := GroupNames(gb);
    forall x | x in na ensures x in nb {
      var k :| 0 <= k < |na| && na[k] == x;
      assert x in Browsers(tabs);
      var t :| t in tabs && t.browserName == x;
      var kb :| 0 <= kb < |gb| && gb[kb].browser == x;
      assert nb[kb] == x;
    }
  }

  /** The listing is determined by the tabs: whatever order the browsers were
      first met in, there is only one grouping. */
  lemma GroupingUnique(tabs: seq<Tab>, g1: seq<TabGroup>, g2: seq<TabGroup>)
    requires IsGrouping(tabs, g1) && IsGrouping(tabs, g2)
    ensures g1 == g2
  {
    var n1 := GroupNames(g1);
    var n2 := GroupNames(g2);
    NamesCovered(tabs, g1, g2);
    NamesCovered(tabs, g2, g1);
    StringOrder.AscendingUnique(n1, n2);
    assert |g1| == |g2|;
    forall k | 0 <= k < |g1| ensures g1[k] == g2[k] {
      assert n1[k] == n2[k];
    }
  }

  /** No tabs, no groups. */
  lemma EmptyInputHasNoGroups(groups: seq<TabGroup>)
    requires IsGrouping([], groups)
    ensures groups == []
  {
    assert groups != [] ==> groups[0].browser in Browsers([]);
  }
}
