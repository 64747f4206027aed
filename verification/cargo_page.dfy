/**
 * The decision rules of the cargo-tracking page that are not part of the
 * shipment timeline: the client-side search filter, the terminal the cargo
 * request is scoped to, the default-terminal effect and the effect that
 * auto-selects or clears the chosen cargo.
 */
module CargoPage {
  import opened Wrappers
  import opened Strings
  import opened ApiTypes
  import opened Seqs
  import VesselPage

  // ---------------------------------------------------------------------------
  // Client-side search
  // ---------------------------------------------------------------------------

  /** `debouncedSearchString.toLowerCase().trim()`: the lower-cased query
      without surrounding whitespace. */
  function SearchKey(query: string): (r: string)
    ensures forall t :: 0 <= t < |r| ==> !IsAsciiUpper(r[t])
    ensures r == [] || (!IsWhitespace(r[0]) && !IsWhitespace(r[|r| - 1]))
    ensures exists a :: && OccursAt(Lower(query), r, a)
                        && (forall t :: 0 <= t < a ==> IsWhitespace(Lower(query)[t]))
                        && (forall t :: a + |r| <= t < |Lower(query)| ==> IsWhitespace(Lower(query)[t]))
  {
    var low := Lower(query);
    var r := Trim(low);
    var a :| OccursAt(low, r, a);
    NoUpperInSlice(low, r, a);
    r
  }

  /** A piece cut out of a lower-cased text holds no upper-case letter either. */
  lemma NoUpperInSlice(low: string, r: string, a: int)
    requires forall t :: 0 <= t < |low| ==> !IsAsciiUpper(low[t])
    requires OccursAt(low, r, a)
    ensures forall t :: 0 <= t < |r| ==> !IsAsciiUpper(r[t])
  {
    forall t | 0 <= t < |r|
      ensures !IsAsciiUpper(r[t])
    {
      assert r[t] == low[a..a + |r|][t] == low[a + t];
    }
  }

  /** `field?.toLowerCase().includes(key)`: a null field never matches. */
  predicate FieldMatches(field: Option<string>, key: string) {
    field.Some? && Contains(Lower(field.value), key)
  }

  /** The texts a cargo is searched by: the lower-cased fields that are
      present, and the decimal cargo id. */
  function SearchableTexts(c: Cargo): (r: seq<string>)
    ensures IntToString(c.cargoID) in r
    ensures forall f :: f in [c.blNumber, c.containerID, c.mvvin, c.terminal, c.cargoType] && f.Some?
              ==> Lower(f.value) in r
    ensures forall t :: t in r ==>
      (t == IntToString(c.cargoID)
       || exists f :: f in [c.blNumber, c.containerID, c.mvvin, c.terminal, c.cargoType]
                      && f.Some? && t == Lower(f.value))
  {
    Present(c.blNumber) + [IntToString(c.cargoID)] + Present(c.containerID)
      + Present(c.mvvin) + Present(c.terminal) + Present(c.cargoType)
  }

  function Present(f: Option<string>): seq<string> {
    if f.Some? then [Lower(f.value)] else []
  }

  /** The filter's test, one disjunct per field in the order the source tries
      them. The decimal id is always present, so an empty key matches every cargo. */
  predicate CargoMatches(c: Cargo, key: string)
    ensures key == "" ==> CargoMatches(c, key)
  {
    ContainsEmpty(IntToString(c.cargoID));
    || FieldMatches(c.blNumber, key)
    || Contains(IntToString(c.cargoID), key)
    || FieldMatches(c.containerID, key)
    || FieldMatches(c.mvvin, key)
    || FieldMatches(c.terminal, key)
    || FieldMatches(c.cargoType, key)
  }

  /** A cargo matches exactly when the key occurs in one of its searchable texts. */
  lemma CargoMatchesIff(c: Cargo, key: string)
    ensures CargoMatches(c, key) <==> exists t :: t in SearchableTexts(c) && Contains(t, key)
  {
    var texts := SearchableTexts(c);
    if CargoMatches(c, key) {
      if FieldMatches(c.blNumber, key) {
        assert Lower(c.blNumber.value) in texts;
      } else if Contains(IntToString(c.cargoID), key) {
        assert IntToString(c.cargoID) in texts;
      } else if FieldMatches(c.containerID, key) {
        assert Lower(c.containerID.value) in texts;
      } else if FieldMatches(c.mvvin, key) {
        assert Lower(c.mvvin.value) in texts;
      } else if FieldMatches(c.terminal, key) {
        assert Lower(c.terminal.value) in texts;
      } else {
        assert Lower(c.cargoType.value) in texts;
      }
    }
  }

  /** The client-side search: the cargo rows that match the trimmed,
      lower-cased query, in their original order. */
  function ClientSearch(cargo: seq<Cargo>, query: string): (r: seq<Cargo>)
    ensures |r| <= |cargo|
    ensures forall j :: 0 <= j < |r| ==>
      (r[j] in cargo && exists t :: t in SearchableTexts(r[j]) && Contains(t, SearchKey(query)))
    ensures forall i :: 0 <= i < |cargo| ==>
      ((exists t :: t in SearchableTexts(cargo[i]) && Contains(t, SearchKey(query))) ==> cargo[i] in r)
  {
    var key := SearchKey(query);
    forall c: Cargo
      ensures CargoMatches(c, key) <==> exists t :: t in SearchableTexts(c) && Contains(t, key)
    {
      CargoMatchesIff(c, key);
    }
    Filter((c: Cargo) => CargoMatches(c, key), cargo)
  }

  /** The search keeps relative order: searching a concatenation searches the
      parts and concatenates the results. */
  lemma ClientSearchAppend(a: seq<Cargo>, b: seq<Cargo>, query: string)
    ensures ClientSearch(a + b, query) == ClientSearch(a, query) + ClientSearch(b, query)
  {
    FilterAppend((c: Cargo) => CargoMatches(c, SearchKey(query)), a, b);
  }

  /** The kept rows appear in the order the request returned them. */
  lemma ClientSearchKeepsOrder(cargo: seq<Cargo>, query: string)
    ensures Subsequence(ClientSearch(cargo, query), cargo)
  {
    FilterIsSubsequence((c: Cargo) => CargoMatches(c, SearchKey(query)), cargo);
  }

  /** A single row is kept exactly when it matches. */
  lemma ClientSearchSingleton(c: Cargo, query: string)
    ensures ClientSearch([c], query) == if CargoMatches(c, SearchKey(query)) then [c] else []
  {
    FilterSingleton((c: Cargo) => CargoMatches(c, SearchKey(query)), c);
  }

  /** A query that trims to nothing keeps every row, because every string
      includes the empty string and the cargo id is always present. */
  lemma BlankQueryKeepsAll(cargo: seq<Cargo>, query: string)
    requires SearchKey(query) == ""
    ensures ClientSearch(cargo, query) == cargo
  {
    forall i | 0 <= i < |cargo|
      ensures CargoMatches(cargo[i], "")
    {
      ContainsEmpty(IntToString(cargo[i].cargoID));
    }
    FilterAll((c: Cargo) => CargoMatches(c, SearchKey(query)), cargo);
  }

  /** Searching for a cargo's own id, in any surrounding whitespace, finds it. */
  lemma SearchByIdFindsCargo(cargo: seq<Cargo>, query: string, i: nat)
    requires i < |cargo|
    requires SearchKey(query) == IntToString(cargo[i].cargoID)
    ensures cargo[i] in ClientSearch(cargo, query)
  {
    ContainsSelf(IntToString(cargo[i].cargoID));
    assert CargoMatches(cargo[i], SearchKey(query));
  }

  /** The search ignores the case of the query. */
  lemma ClientSearchIgnoresQueryCase(cargo: seq<Cargo>, a: string, b: string)
    requires EqualsIgnoreCase(a, b)
    ensures ClientSearch(cargo, a) == ClientSearch(cargo, b)
  {
    assert SearchKey(a) == SearchKey(b);
  }

  // ---------------------------------------------------------------------------
  // Terminal scope of the cargo request
  // ---------------------------------------------------------------------------

  /** The terminal the cargo list is requested for: all terminals when nothing
      or exactly "ALL" is selected, the selected code otherwise. Unlike the
      vessel page, the comparison is case-sensitive. */
  function CargoTerminalScope(selected: string): (r: Option<string>)
    ensures r.None? <==> selected == "" || selected == "ALL"
    ensures r.Some? ==> r.value == selected
  {
    if selected == "" || selected == "ALL" then None else Some(selected)
  }

  /** The two pages agree on "" and on "ALL" but not on other spellings:
      "all" scopes the cargo request to a terminal coded "all" while the vessel
      request asks for every terminal. */
  lemma ScopesDifferOnLowerCaseAll()
    ensures CargoTerminalScope("") == VesselPage.FetchCode("") == None
    ensures CargoTerminalScope("ALL") == VesselPage.FetchCode("ALL") == None
    ensures CargoTerminalScope("all") == Some("all")
    ensures VesselPage.FetchCode("all") == None
  {
  }

  /** Whenever the cargo page scopes to all terminals, so does the vessel page. */
  lemma CargoAllImpliesVesselAll(selected: string)
    ensures CargoTerminalScope(selected).None? ==> VesselPage.FetchCode(selected).None?
    ensures VesselPage.FetchCode(selected).Some? ==> CargoTerminalScope(selected) == VesselPage.FetchCode(selected)
  {
    if selected == "ALL" {
      assert Lower(selected) == Lower("all");
    }
  }

  // ---------------------------------------------------------------------------
  // Default terminal
  // ---------------------------------------------------------------------------

  /** `terminals.find(t => t.terminalCode === "ALL")`. */
  function FindAllTerminal(terminals: seq<Terminal>): (r: Option<nat>)
    ensures r.Some? ==> r.value < |terminals| && terminals[r.value].terminalCode == Some("ALL")
    ensures r.Some? ==> forall a :: 0 <= a < r.value ==> terminals[a].terminalCode != Some("ALL")
    ensures r.None? ==> forall a :: 0 <= a < |terminals| ==> terminals[a].terminalCode != Some("ALL")
  {
    if terminals == [] then None
    else if terminals[0].terminalCode == Some("ALL") then Some(0)
    else
      var rest := FindAllTerminal(terminals[1..]);
      if rest.Some? then Some(rest.value + 1) else None
  }

  /** One step of the cargo page's default-terminal effect, written with
      `find` where the vessel page uses `some`. */
  function CargoDefaultTerminal(selected: string, terminals: Option<seq<Terminal>>): (r: string)
    ensures selected != "" || terminals.None? || terminals.value == [] ==> r == selected
    ensures selected == "" && terminals.Some? && terminals.value != [] ==> (r == "ALL" || r == "")
  {
    if selected == "" && terminals.Some? && |terminals.value| > 0 then
      if FindAllTerminal(terminals.value).Some? then "ALL" else ""
    else selected
  }

  /** Both pages pick the same default terminal in every state. */
  lemma DefaultTerminalAgrees(selected: string, terminals: Option<seq<Terminal>>)
    ensures CargoDefaultTerminal(selected, terminals) == VesselPage.DefaultTerminal(selected, terminals)
  {
    if selected == "" && terminals.Some? && |terminals.value| > 0 {
      var found := FindAllTerminal(terminals.value);
      if found.Some? {
        assert terminals.value[found.value].terminalCode == Some("ALL");
      }
    }
  }

  // ---------------------------------------------------------------------------
  // Auto-selection of the cargo whose timeline is shown
  // ---------------------------------------------------------------------------

  /** A selection is "truthy" when it is present and not the empty string. */
  predicate IsSelected(sel: Option<string>) {
    sel.Some? && sel.value != ""
  }

  /** One step of the auto-select effect. With rows and no selection the first
      row's id is selected; with no rows a selection is cleared; otherwise the
      selection stays. */
  function AutoSelect(data: Option<seq<Cargo>>, sel: Option<string>): (r: Option<string>)
    ensures data.Some? && data.value != [] && !IsSelected(sel) ==> r == Some(IntToString(data.value[0].cargoID))
    ensures (data.None? || data.value == []) && IsSelected(sel) ==> r.None?
    ensures (data.Some? && data.value != []) == IsSelected(sel) ==> r == sel
  {
    if data.Some? && |data.value| > 0 then
      if !IsSelected(sel) then Some(IntToString(data.value[0].cargoID)) else sel
    else
      if IsSelected(sel) then None else sel
  }

  /** After one step the selection agrees with the rows: there is a selection
      exactly when there are rows. */
  lemma AutoSelectAgreesWithRows(data: Option<seq<Cargo>>, sel: Option<string>)
    ensures IsSelected(AutoSelect(data, sel)) <==> data.Some? && data.value != []
  {
  }

  /** A second step changes nothing: the effect settles after one render. */
  lemma AutoSelectSettles(data: Option<seq<Cargo>>, sel: Option<string>)
    ensures AutoSelect(data, AutoSelect(data, sel)) == AutoSelect(data, sel)
  {
    AutoSelectAgreesWithRows(data, sel);
  }
}
