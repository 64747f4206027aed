/**
 * The application shell: the two navigation tabs, the tab highlighted for a
 * location, the location a tab click navigates to, and the routes that decide
 * which page a location renders.
 */
module Layout {
  import opened Wrappers
  import opened Strings

  /** A navigation tab: its caption and the path it leads to. */
  datatype Tab = Tab(caption: string, to: string)

  const Tabs: seq<Tab> := [
    Tab("Vessel Tracking", "/vessels"),
    Tab("Cargo Tracking", "/cargo")
  ]

  /** The highlighted tab: the cargo tab for every path that starts with
      "/cargo" (including "/cargoX" and "/cargo/..."), the vessel tab otherwise. */
  function CurrentIndex(pathname: string): (r: nat)
    ensures r < |Tabs|
    ensures r == 1 <==> StartsWith(pathname, "/cargo")
    ensures r == 0 <==> !StartsWith(pathname, "/cargo")
  {
    if StartsWith(pathname, "/cargo") then 1 else 0
  }

  /** The location a click on tab `idx` navigates to. The tab strip only
      reports indices of its own tabs. */
  function Navigate(idx: nat): (to: string)
    requires idx < |Tabs|
    ensures to == Tabs[idx].to
    ensures CurrentIndex(to) == idx
  {
    assert !StartsWith("/vessels", "/cargo") by {
      assert "/vessels"[1] != "/cargo"[1];
    }
    Tabs[idx].to
  }

  /** Clicking a tab and then reading the highlighted tab from the new location
      gives back the clicked tab, for every tab. */
  lemma TabRoundTrip()
    ensures forall i :: 0 <= i < |Tabs| ==> CurrentIndex(Navigate(i)) == i
  {
  }

  /** The root location highlights the vessel tab. */
  lemma RootHighlightsVessels()
    ensures CurrentIndex("/") == 0
    ensures Tabs[CurrentIndex("/")].caption == "Vessel Tracking"
  {
    assert !StartsWith("/", "/cargo");
  }

  /** The pages the router can render. */
  datatype Page = VesselTracking | CargoTracking

  /** The route table's three literal locations: the index route under "/"
      and "vessels" render the vessel page, "cargo" the cargo page. The
      router's own matching of other spellings of these paths (letter case,
      trailing slashes) is outside this table and gives `None` here. */
  function RoutedPage(pathname: string): (r: Option<Page>)
    ensures r == Some(CargoTracking) <==> pathname == "/cargo"
    ensures r == Some(VesselTracking) <==> pathname == "/" || pathname == "/vessels"
  {
    if pathname == "/" || pathname == "/vessels" then Some(VesselTracking)
    else if pathname == "/cargo" then Some(CargoTracking)
    else None
  }

  /** The page each tab stands for. */
  function TabPage(idx: nat): Page {
    if idx == 1 then CargoTracking else VesselTracking
  }

  /** On each of the route table's literal locations the highlighted tab is
      the tab of the page being shown, the root included. */
  lemma HighlightMatchesRoute(pathname: string)
    ensures RoutedPage(pathname).Some? ==> TabPage(CurrentIndex(pathname)) == RoutedPage(pathname).value
  {
    if pathname == "/" {
      assert !StartsWith(pathname, "/cargo");
    } else if pathname == "/vessels" {
      assert pathname[1] != "/cargo"[1];
    }
  }

  /** Every tab leads to a location the route table renders, and the page
      rendered there is the page the tab stands for. */
  lemma TabsLeadToTheirPages(idx: nat)
    requires idx < |Tabs|
    ensures RoutedPage(Navigate(idx)) == Some(TabPage(idx))
  {
    if idx == 0 {
      assert Navigate(idx) == "/vessels";
    } else {
      assert Navigate(idx) == "/cargo";
    }
  }
}
