/**
 * The decision rules of the vessel-tracking page: which terminal code the
 * tracking request carries, which vessels a panel shows, which terminal is
 * selected by default, which entries the terminal menu offers, what the
 * maximised dialog is titled, and how table rows are identified and striped.
 */
module VesselPage {
  import opened Wrappers
  import opened Strings
  import opened ApiTypes

  // ---------------------------------------------------------------------------
  // Terminal code for the tracking request
  // ---------------------------------------------------------------------------

  /** `s.toUpperCase() === "ALL"` holds exactly for the three-letter spellings
      of "all" in any mix of cases. */
  lemma UpperIsAllIff(s: string)
    ensures Upper(s) == "ALL" <==> EqualsIgnoreCase(s, "all")
  {
    EqualsIgnoreCaseIff(s, "all");
    if Upper(s) == "ALL" {
      assert |s| == 3;
      forall i | 0 <= i < 3
        ensures LowerChar(s[i]) == LowerChar("all"[i])
      {
        assert UpperChar(s[i]) == "ALL"[i];
      }
    }
    if EqualsIgnoreCase(s, "all") {
      forall i | 0 <= i < 3
        ensures Upper(s)[i] == "ALL"[i]
      {
        assert LowerChar(s[i]) == LowerChar("all"[i]);
      }
    }
  }

  /** The code the tracking hook passes to the backend: no code (all
      terminals) for a missing or empty code and for "ALL" in any case;
      any other code unchanged. */
  function CodeToUse(terminalCode: Option<string>): (r: Option<string>)
    ensures r.Some? ==> r == terminalCode && r.value != "" && !EqualsIgnoreCase(r.value, "all")
    ensures r.None? <==>
      terminalCode.None? || terminalCode.value == "" || EqualsIgnoreCase(terminalCode.value, "all")
  {
    UpperIsAllIff(terminalCode.GetOr(""));
    if terminalCode.None? || terminalCode.value == "" || Upper(terminalCode.value) == "ALL" then None
    else terminalCode
  }

  /** The page calls the hook with `selectedTerminalCode || "ALL"`. */
  function FetchCode(selected: string): (r: Option<string>)
    ensures r.None? <==> selected == "" || EqualsIgnoreCase(selected, "all")
    ensures r.Some? ==> r.value == selected
  {
    CodeToUse(Some(if selected == "" then "ALL" else selected))
  }

  // ---------------------------------------------------------------------------
  // Tile lookup
  // ---------------------------------------------------------------------------

  /** One vessel row; the row-identity rule reads only the call id. */
  datatype Vessel = Vessel(callId: Option<int>)

  /** A category of the tracking response ("Expected Arrivals", ...). */
  datatype TileCategory = TileCategory(tileCategory: Option<string>, vessels: Option<seq<Vessel>>)

  datatype TrackingData = TrackingData(tileCategories: Option<seq<TileCategory>>)

  /** The category name compared by the lookup: null reads as "". */
  function CategoryName(t: TileCategory): string {
    OrString(t.tileCategory, "")
  }

  /** `tracking.data?.tileCategories ?? []`. */
  function Categories(data: Option<TrackingData>): seq<TileCategory> {
    if data.Some? then data.value.tileCategories.GetOr([]) else []
  }

  /** The index of the first category whose name equals `name` ignoring case. */
  function FindCategory(cats: seq<TileCategory>, name: string): (r: Option<nat>)
    ensures r.Some? ==> r.value < |cats| && EqualsIgnoreCase(CategoryName(cats[r.value]), name)
    ensures r.Some? ==> forall a :: 0 <= a < r.value ==> !EqualsIgnoreCase(CategoryName(cats[a]), name)
    ensures r.None? <==> forall a :: 0 <= a < |cats| ==> !EqualsIgnoreCase(CategoryName(cats[a]), name)
  {
    if cats == [] then None
    else if EqualsIgnoreCase(CategoryName(cats[0]), name) then Some(0)
    else
      var rest := FindCategory(cats[1..], name);
      if rest.Some? then Some(rest.value + 1) else None
  }

  /** `getVessels(name)`: the vessels of the first matching category, or none. */
  function GetVessels(data: Option<TrackingData>, name: string): (r: seq<Vessel>)
    ensures data.None? ==> r == []
    ensures (forall a :: 0 <= a < |Categories(data)| ==>
               !EqualsIgnoreCase(CategoryName(Categories(data)[a]), name)) ==> r == []
    ensures forall i :: 0 <= i < |Categories(data)|
              && EqualsIgnoreCase(CategoryName(Categories(data)[i]), name)
              && (forall a :: 0 <= a < i ==> !EqualsIgnoreCase(CategoryName(Categories(data)[a]), name))
              ==> r == Categories(data)[i].vessels.GetOr([])
  {
    var cats := Categories(data);
    var found := FindCategory(cats, name);
    if found.Some? then cats[found.value].vessels.GetOr([]) else []
  }

  /** The lookup ignores the case of the requested name. */
  lemma GetVesselsIgnoresCase(data: Option<TrackingData>, a: string, b: string)
    requires EqualsIgnoreCase(a, b)
    ensures GetVessels(data, a) == GetVessels(data, b)
  {
    var cats := Categories(data);
    assert forall t :: EqualsIgnoreCase(t, a) <==> EqualsIgnoreCase(t, b);
    FindCategoryIgnoresCase(cats, a, b);
  }

  lemma {:induction false} FindCategoryIgnoresCase(cats: seq<TileCategory>, a: string, b: string)
    requires EqualsIgnoreCase(a, b)
    ensures FindCategory(cats, a) == FindCategory(cats, b)
  {
    if cats != [] {
      FindCategoryIgnoresCase(cats[1..], a, b);
    }
  }

  // ---------------------------------------------------------------------------
  // Default terminal and the terminal menu
  // ---------------------------------------------------------------------------

  /** `terminals.some(t => t.terminalCode === "ALL")`: case-sensitive. */
  predicate HasAllTerminal(terminals: seq<Terminal>) {
    exists i :: 0 <= i < |terminals| && terminals[i].terminalCode == Some("ALL")
  }

  /** One step of the default-terminal effect. It acts only while nothing is
      selected and a non-empty terminal list has arrived; it then selects
      "ALL" when the list offers it and the empty "All" entry otherwise. */
  function DefaultTerminal(selected: string, terminals: Option<seq<Terminal>>): (r: string)
    ensures selected != "" ==> r == selected
    ensures terminals.None? || terminals.value == [] ==> r == selected
    ensures selected == "" && terminals.Some? && terminals.value != [] ==>
      (r == "ALL" <==> HasAllTerminal(terminals.value)) && (r == "ALL" || r == "")
  {
    if selected == "" && terminals.Some? && |terminals.value| > 0 then
      if HasAllTerminal(terminals.value) then "ALL" else ""
    else selected
  }

  /** Running the effect again after it has acted changes nothing. */
  lemma DefaultTerminalSettles(selected: string, terminals: Option<seq<Terminal>>)
    ensures DefaultTerminal(DefaultTerminal(selected, terminals), terminals)
         == DefaultTerminal(selected, terminals)
  {
  }

  /** One entry of the terminal drop-down. */
  datatype MenuOption = MenuOption(value: string, text: string)

  /** The manual "All" entry (value "") appears iff no terminal is coded "ALL". */
  predicate ShowManualAll(terminals: Option<seq<Terminal>>) {
    !HasAllTerminal(terminals.GetOr([]))
  }

  /** The entry of one terminal: its code (or "") and its name (or "Unknown
      Terminal" when the name is null or empty). */
  function TerminalOption(t: Terminal): MenuOption {
    MenuOption(OrString(t.terminalCode, ""), OrString(t.terminalName, "Unknown Terminal"))
  }

  /** The drop-down: the manual "All" entry if shown, then one entry per terminal. */
  function MenuOptions(terminals: Option<seq<Terminal>>): (r: seq<MenuOption>)
    ensures |r| == |terminals.GetOr([])| + (if ShowManualAll(terminals) then 1 else 0)
    ensures ShowManualAll(terminals) ==> r[0] == MenuOption("", "All")
    ensures var off := if ShowManualAll(terminals) then 1 else 0;
      forall i :: 0 <= i < |terminals.GetOr([])| ==> r[off + i] == TerminalOption(terminals.GetOr([])[i])
  {
    var ts := terminals.GetOr([]);
    (if ShowManualAll(terminals) then [MenuOption("", "All")] else [])
      + seq(|ts|, i requires 0 <= i < |ts| => TerminalOption(ts[i]))
  }

  /** The manual entry is shown exactly when no entry of the menu carries the
      value "ALL": the menu always offers one way to choose all terminals. */
  lemma ManualAllIffNoAllEntry(terminals: Option<seq<Terminal>>)
    ensures ShowManualAll(terminals) <==>
      forall i :: 0 <= i < |MenuOptions(terminals)| ==> MenuOptions(terminals)[i].value != "ALL"
  {
    var ts := terminals.GetOr([]);
    var menu := MenuOptions(terminals);
    if !ShowManualAll(terminals) {
      var j :| 0 <= j < |ts| && ts[j].terminalCode == Some("ALL");
      assert menu[j].value == "ALL";
    }
  }

  /** Whatever the default-terminal effect selects is the value of some entry
      of the menu, so the drop-down always shows a valid choice. */
  lemma DefaultIsOffered(terminals: seq<Terminal>)
    requires terminals != []
    ensures exists i ::
      (0 <= i < |MenuOptions(Some(terminals))|
       && MenuOptions(Some(terminals))[i].value == DefaultTerminal("", Some(terminals)))
  {
    var menu := MenuOptions(Some(terminals));
    if HasAllTerminal(terminals) {
      var j :| 0 <= j < |terminals| && terminals[j].terminalCode == Some("ALL");
      assert menu[j] == TerminalOption(terminals[j]);
    } else {
      assert menu[0].value == "";
    }
  }

  // ---------------------------------------------------------------------------
  // Panels and the maximised dialog
  // ---------------------------------------------------------------------------

  /** The four panels of the page, the values `maximized` can take. */
  datatype Panel = Arrivals | Departures | Port | Anchorage

  /** The title a panel is rendered with. The maximised dialog spells the
      same four titles out again in its own ternary chain. */
  function PanelTitle(p: Panel): (r: string)
    ensures DialogTitle(Some(p)) == r
  {
    match p
    case Arrivals => "Expected Arrivals"
    case Departures => "Expected Departures"
    case Port => "Ships in Port"
    case Anchorage => "Ships in Anchorage"
  }

  /** The dialog is open exactly while some panel is maximised. */
  predicate DialogOpen(maximized: Option<Panel>) {
    maximized.Some?
  }

  /** The dialog title: the three named panels map to their own titles and every
      other value, including no panel at all, to "Ships in Anchorage". */
  function DialogTitle(maximized: Option<Panel>): (r: string)
    ensures maximized == Some(Arrivals) ==> r == "Expected Arrivals"
    ensures maximized == Some(Departures) ==> r == "Expected Departures"
    ensures maximized == Some(Port) ==> r == "Ships in Port"
    ensures maximized !in {Some(Arrivals), Some(Departures), Some(Port)} ==> r == "Ships in Anchorage"
  {
    if maximized == Some(Arrivals) then "Expected Arrivals"
    else if maximized == Some(Departures) then "Expected Departures"
    else if maximized == Some(Port) then "Ships in Port"
    else "Ships in Anchorage"
  }

  /** The category name each panel's table passes to `getVessels`, written
      separately from the panel's title. Every panel asks for the category it
      is titled after. */
  function PanelCategory(p: Panel): (r: string)
    ensures r == PanelTitle(p)
  {
    match p
    case Arrivals => "Expected Arrivals"
    case Departures => "Expected Departures"
    case Port => "Ships in Port"
    case Anchorage => "Ships in Anchorage"
  }

  /** The vessels a panel's table shows on the page. */
  function PanelVessels(data: Option<TrackingData>, p: Panel): seq<Vessel> {
    GetVessels(data, PanelCategory(p))
  }

  /** The table inside the dialog: one guarded table per panel value, each
      asking for its category by name; no table while nothing is maximised. */
  function DialogVessels(data: Option<TrackingData>, maximized: Option<Panel>): (r: Option<seq<Vessel>>)
    ensures r.Some? <==> DialogOpen(maximized)
  {
    match maximized
    case Some(Arrivals) => Some(GetVessels(data, "Expected Arrivals"))
    case Some(Departures) => Some(GetVessels(data, "Expected Departures"))
    case Some(Port) => Some(GetVessels(data, "Ships in Port"))
    case Some(Anchorage) => Some(GetVessels(data, "Ships in Anchorage"))
    case None => None
  }

  /** An open dialog is titled like the panel that was maximised and lists
      exactly the vessels that panel shows on the page. */
  lemma DialogMatchesPanel(data: Option<TrackingData>, p: Panel)
    ensures DialogOpen(Some(p))
    ensures DialogTitle(Some(p)) == PanelTitle(p)
    ensures DialogVessels(data, Some(p)) == Some(PanelVessels(data, p))
  {
    match p
    case Arrivals =>
    case Departures =>
    case Port =>
    case Anchorage =>
  }

  /** The four panel titles are distinct, so the title names the panel. */
  lemma PanelTitleInjective(p: Panel, q: Panel)
    ensures PanelTitle(p) == PanelTitle(q) <==> p == q
  {
    if p != q {
      assert PanelTitle(p)[|PanelTitle(p)| - 1] != PanelTitle(q)[|PanelTitle(q)| - 1]
          || PanelTitle(p)[0] != PanelTitle(q)[0]
          || PanelTitle(p)[9] != PanelTitle(q)[9];
    }
  }

  // ---------------------------------------------------------------------------
  // Table rows
  // ---------------------------------------------------------------------------

  /** The identity the grid gives a row: its call id, or its index without one. */
  function RowId(v: Vessel, index: nat): int {
    v.callId.GetOr(index)
  }

  /** The stripe class of a row from its index on the current page. */
  function RowClass(index: nat): (r: string)
    ensures r == "even" || r == "odd"
    ensures r == "even" <==> index % 2 == 0
  {
    if index % 2 == 0 then "even" else "odd"
  }

  /** The grid rows of a table: each vessel with its identity. */
  function RowIds(items: Option<seq<Vessel>>): (r: seq<int>)
    ensures |r| == |items.GetOr([])|
    ensures forall i :: 0 <= i < |r| && items.GetOr([])[i].callId.Some? ==> r[i] == items.GetOr([])[i].callId.value
    ensures forall i :: 0 <= i < |r| && items.GetOr([])[i].callId.None? ==> r[i] == i
  {
    var vs := items.GetOr([]);
    seq(|vs|, i requires 0 <= i < |vs| => RowId(vs[i], i))
  }

  /** Rows without any call id are identified by their positions, which are
      pairwise distinct. */
  lemma RowIdsWithoutCallIds(items: seq<Vessel>)
    requires forall i :: 0 <= i < |items| ==> items[i].callId.None?
    ensures forall i, j :: 0 <= i < j < |items| ==> RowIds(Some(items))[i] != RowIds(Some(items))[j]
  {
  }

  /** Consecutive rows always carry different stripe classes. */
  lemma RowClassAlternates(index: nat)
    ensures RowClass(index) != RowClass(index + 1)
    ensures RowClass(index) == RowClass(index + 2)
  {
  }
}
