# Ship-tracking dashboard: the decision logic, in Dafny

This project models the pure logic inside the ship-tracking dashboard's
React components and its in-browser mock backend. Each piece is written as
immutable datatypes and total functions, and the behaviour the components
promise is proved about them.

- **Shipment timeline** (`shipment_timeline.dfy`, module `ShipmentTimeline`). This covers:
  - the stable sort of a cargo's tracking events by event number;
  - the ordered, first-match-wins event-label classifier, with its "..." fallback;
  - the two bracket extractors that the component writes as regular expressions: `[MV <vessel>]` and `[<ORDER>]`;
  - the step list, active step and minimum width of the stepper.
- **Cargo page** (`cargo_page.dfy`, module `CargoPage`). This covers:
  - the case-insensitive, multi-field client search;
  - the terminal the cargo request is scoped to;
  - the default-terminal effect;
  - the effect that auto-selects the first cargo or clears the selection.
- **Vessel page** (`vessel_page.dfy`, module `VesselPage`). This covers:
  - the terminal code sent with the tracking request ("ALL" in any case, or empty, means all terminals);
  - the case-insensitive tile-category lookup;
  - the default terminal, and the terminal menu with its manual "All" entry;
  - the title and contents of the maximised-panel dialog;
  - row identity and row striping.
- **Layout** (`layout.dfy`, module `Layout`). This covers the two navigation tabs, the path-prefix rule that picks the highlighted tab, navigation, and the routes.
- **Responsive wrapper** (`responsive.dfy`, module `Responsive`). This covers:
  - the four breakpoint flags;
  - the wrapper's style object, built by spreading a base object, width-band fragments and the caller's `sx`, where the later spread wins.
- **Mock backend** (`mock.dfy`, module `MockApi`). This covers:
  - the vessel generators and the four vessel endpoints;
  - the plain cargo endpoint;
  - the cargo search, with its operator-dispatched matcher and its search pool.
- **Support modules**:
  - `wrappers.dfy` (`Wrappers`): `Option` stands for `null` and `undefined`.
  - `strings.dfy` (`Strings`): the JavaScript string operations used, over `seq<char>`. These are ASCII case mapping, `includes`, `startsWith`, `trim` with the ECMAScript whitespace set, `split`, `join`, and integer `toString`.
  - `seqs.dfy` (`Seqs`): an order-preserving `filter`.
  - `api_types.dfy` (`ApiTypes`): the record shapes of terminals, cargo rows and tracking events.

Where the behaviour is underspecified, the model follows the component code:

- The label classifier has exactly the twelve rules of `getEventLabel`, in its order, and matching is case-sensitive.
- A null or empty description gives "Unknown Event". There is no transport-mode inference.
- The regular expressions are modelled as explicit match predicates. `MvMatch` and `OrderMatch` state what the pattern accepts. `MvRegexMatch` adds the leftmost start and the greedy `\s+` that a backtracking engine reports. The functions compute that match by scanning.

## Model

| member | source | states |
|---|---|---|
| ShipmentTimeline.SortByEventNo | src/ui/CargoTrackingPage.tsx:761-762 | The sorted events have the same length and multiset as the input and ascend by `eventNo`. For every `k`, the events numbered `k` keep their input order, so the sort is stable. The input is a value and is not changed. |
| ShipmentTimeline.InsertWithEventNo | src/ui/CargoTrackingPage.tsx:762 | One insertion step puts the new event in front of the events that share its number. This is the step that makes the sort stable. |
| ShipmentTimeline.FirstLabelIff | src/ui/CargoTrackingPage.tsx:775-808 | Over any rule table with distinct labels, the first-match scan returns rule `j`'s label exactly when rule `j` holds and no earlier rule does. |
| ShipmentTimeline.EventLabel | src/ui/CargoTrackingPage.tsx:772-812 | The label is "Unknown Event" exactly for a null or empty description. Any other label is either the label of a rule that holds for the description, or a prefix of the description followed by "...". |
| ShipmentTimeline.FallbackLabel | src/ui/CargoTrackingPage.tsx:811 | The fallback ends in "..." and what precedes the "..." is a prefix of the description. |
| ShipmentTimeline.UnknownEventLabel | src/ui/CargoTrackingPage.tsx:773 | A null or empty description is labelled "Unknown Event". |
| ShipmentTimeline.EventLabelRule | src/ui/CargoTrackingPage.tsx:772-808 | For a non-empty description, the label is rule `j`'s label exactly when rule `j`'s substrings all occur and no earlier rule's do. |
| ShipmentTimeline.EventLabelFallback | src/ui/CargoTrackingPage.tsx:772-811 | For a non-empty description, the fallback label is used exactly when none of the twelve rules holds. |
| ShipmentTimeline.ExpectedToArriveWins | src/ui/CargoTrackingPage.tsx:776-777 | "expected to arrive" beats every other rule. |
| ShipmentTimeline.VesselCallCreatedBeatsOrders | src/ui/CargoTrackingPage.tsx:776-787 | "Vessel call" together with "was created" gives "Vessel Call Created", even when an order-type phrase is also present, unless "expected to arrive" also occurs. |
| ShipmentTimeline.OrderCreatedBeatsMovement | src/ui/CargoTrackingPage.tsx:778-804 | For a non-empty description, whenever an order type occurs together with "was created", the label is neither "Vessel Arrived" nor "Vessel Departed", whatever else occurs. The first rule that fires is one of rules 0 to 5, which come before the movement rules. |
| ShipmentTimeline.CustomsBeforeCargoRules | src/ui/CargoTrackingPage.tsx:805-808 | Without the earlier phrases, "customs" gives "Customs Processing" even when "loaded", "discharged" or "delivered" also occur. |
| ShipmentTimeline.FallbackLabelShape | src/ui/CargoTrackingPage.tsx:811 | The fallback is a prefix of the description followed by "...". The prefix holds at most two spaces. It is either the whole description or stops just before the third space. |
| ShipmentTimeline.FallbackOfShortDescription | src/ui/CargoTrackingPage.tsx:811 | A description with at most two spaces becomes itself followed by "...". |
| ShipmentTimeline.MvGroupAt | src/ui/CargoTrackingPage.tsx:767 | At a fixed start, it returns a match of `\[MV\s+([^\]]+)\]` with the longest whitespace run, or nothing when no match starts there. This includes the backtracking case where the run gives back one character. |
| ShipmentTimeline.MvSearch | src/ui/CargoTrackingPage.tsx:767 | It returns the leftmost start at which the pattern matches, with the greedy group there, or nothing when no start matches. |
| ShipmentTimeline.VesselName | src/ui/CargoTrackingPage.tsx:765-769 | The result is null for null input and non-null exactly when the pattern matches somewhere. The result is group 1 of the match the engine reports, cut at its first ':'. It never contains ':' or ']'. |
| ShipmentTimeline.OrderGroupAt | src/ui/CargoTrackingPage.tsx:817 | At a fixed start there is at most one match of `\[([A-Z0-9\/]+)\]`, and it returns that match. |
| ShipmentTimeline.OrderSearch | src/ui/CargoTrackingPage.tsx:817 | It returns the leftmost match of the order pattern, or nothing when there is none. |
| ShipmentTimeline.OrderNumber | src/ui/CargoTrackingPage.tsx:815-819 | The result is non-null exactly when the pattern matches. It is the contents of the leftmost bracket group, which is non-empty and made only of A-Z, 0-9 and '/'. "[" + result + "]" occurs in the description. |
| ShipmentTimeline.StepOf | src/ui/CargoTrackingPage.tsx:821-844 | A step keeps its event's number and raw description. An empty or null description gives "Unknown Event" with neither a vessel nor an order number. |
| ShipmentTimeline.StepOfDescribesEvent | src/ui/CargoTrackingPage.tsx:821-824 | For a non-empty description, a step's label is rule `j`'s exactly when rule `j` is the first rule that holds, and the fallback exactly when no rule holds. It has a vessel exactly when the `[MV ...]` pattern matches and an order exactly when the order pattern matches. |
| ShipmentTimeline.StepsOf | src/ui/CargoTrackingPage.tsx:821 | `map` gives one step per event, in the same positions. |
| ShipmentTimeline.ShipmentStepper | src/ui/CargoTrackingPage.tsx:746-850 | There is no timeline exactly for an absent or empty list. Otherwise there is one step per event, in ascending `eventNo` order. Each step is derived from the corresponding sorted event. `activeStep` is count − 1. `minWidth` is the larger of the base width and count × step width. |
| ShipmentTimeline.EveryEventHasAStep | src/ui/CargoTrackingPage.tsx:821-844 | Every input event's step appears in the timeline. |
| Strings.Lower | src/ui/CargoTrackingPage.tsx:122-131 | `toLowerCase` keeps the length and maps each character on its own: A-Z to a-z, every other character unchanged. No upper-case ASCII letter remains. |
| Strings.Upper | src/ui/VesselTrackingPage.tsx:37 | `toUpperCase` keeps the length and maps each character on its own: a-z to A-Z, every other character unchanged. No lower-case ASCII letter remains. |
| Strings.Split | src/ui/CargoTrackingPage.tsx:768 | `split(c)` gives Count(c) + 1 pieces, and no piece contains `c`. Joining the pieces with `c` gives back the input, and the first piece is a prefix of it. |
| Strings.JoinFirstPrefix | src/ui/CargoTrackingPage.tsx:811 | `split(" ").slice(0, n).join(" ")` is a prefix of the input with min(n − 1, Count) separators. It is either the whole input or stops at a separator. |
| Strings.Trim | src/ui/CargoTrackingPage.tsx:122 | `trim()` returns a substring that neither starts nor ends with whitespace, with only whitespace cut off on either side. |
| Strings.ContainsIff | src/ui/CargoTrackingPage.tsx:124-130 | `includes` holds exactly when the needle occurs at some position. |
| Strings.IntToString | src/ui/CargoTrackingPage.tsx:126 | `toString()` of an integer starts with '-' exactly for negative values. The rest is the decimal numeral of the magnitude: at least one digit, no leading zero, and the digits read back as the magnitude. |
| Strings.IntToStringInjective | src/ui/CargoTrackingPage.tsx:176 | Distinct cargo ids print differently, so the selected id string names one cargo. |
| CargoPage.SearchKey | src/ui/CargoTrackingPage.tsx:122 | The key is the lower-cased query with only whitespace cut from its two ends. It holds no upper-case letter and neither starts nor ends with whitespace. |
| CargoPage.CargoMatches | src/ui/CargoTrackingPage.tsx:123-131 | The six-way test of the filter; an empty key matches every cargo, through the always-present id text. |
| CargoPage.CargoMatchesIff | src/ui/CargoTrackingPage.tsx:122-132 | The six-way test holds exactly when the key occurs in one of the cargo's searchable texts. These are the lower-cased non-null `blNumber`, `containerID`, `mvvin`, `terminal` and `cargoType`, and the decimal `cargoID`. |
| CargoPage.ClientSearch | src/ui/CargoTrackingPage.tsx:122-132 | A row is kept exactly when the trimmed, lower-cased query occurs in one of its searchable texts. Every kept row comes from the input. |
| CargoPage.ClientSearchAppend | src/ui/CargoTrackingPage.tsx:123 | The search keeps the input order: searching a concatenation concatenates the searches. |
| CargoPage.ClientSearchKeepsOrder | src/ui/CargoTrackingPage.tsx:123 | The kept rows are a subsequence of the fetched rows: they keep their relative order. |
| CargoPage.BlankQueryKeepsAll | src/ui/CargoTrackingPage.tsx:122-132 | A query that trims to nothing keeps every row. |
| CargoPage.SearchByIdFindsCargo | src/ui/CargoTrackingPage.tsx:125 | A query equal to a cargo's id, with any surrounding whitespace, finds that cargo. |
| CargoPage.CargoTerminalScope | src/ui/CargoTrackingPage.tsx:116-120 | The cargo request covers all terminals exactly when the selection is "" or exactly "ALL". Otherwise it carries the selection. |
| CargoPage.ScopesDifferOnLowerCaseAll | src/ui/CargoTrackingPage.tsx:116 | The cargo and vessel pages agree on "" and "ALL". They disagree on "all": the cargo page scopes to it while the vessel page asks for every terminal. |
| CargoPage.CargoAllImpliesVesselAll | src/ui/CargoTrackingPage.tsx:116-120 | Whenever the cargo page asks for all terminals, so does the vessel page. Whenever the vessel page passes a code, the cargo page passes the same one. |
| CargoPage.FindAllTerminal | src/ui/CargoTrackingPage.tsx:160 | `find` returns the first terminal coded exactly "ALL", or none when no terminal has that code. |
| CargoPage.CargoDefaultTerminal | src/ui/CargoTrackingPage.tsx:158-165 | The effect acts only on an empty selection with a non-empty terminal list, and then picks "ALL" or "". |
| CargoPage.DefaultTerminalAgrees | src/ui/CargoTrackingPage.tsx:158-165 | The cargo page's `find`-based default equals the vessel page's `some`-based default in every state. |
| CargoPage.AutoSelect | src/ui/CargoTrackingPage.tsx:168-187 | With rows and no selection, it selects the first row's id. With no rows, it clears a selection. Otherwise the selection is unchanged. |
| CargoPage.AutoSelectAgreesWithRows | src/ui/CargoTrackingPage.tsx:168-187 | After one step there is a selection exactly when there are rows. |
| CargoPage.AutoSelectSettles | src/ui/CargoTrackingPage.tsx:168-187 | A second run of the effect changes nothing. |
| VesselPage.UpperIsAllIff | src/ui/VesselTrackingPage.tsx:37-38 | `toUpperCase() === "ALL"` holds exactly for the spellings of "all" in any case. |
| VesselPage.CodeToUse | src/ui/VesselTrackingPage.tsx:36-40 | The code is null for a missing or empty code and for "ALL" in any case. Any other code passes through unchanged. |
| VesselPage.FetchCode | src/ui/VesselTrackingPage.tsx:61 | An empty selection becomes "ALL" and then null. A non-empty selection is null exactly when it spells "all" in some case. |
| VesselPage.FindCategory | src/ui/VesselTrackingPage.tsx:63-65 | It returns the index of the first category whose name equals the request ignoring case, with null read as "". It returns none exactly when no category matches. |
| VesselPage.GetVessels | src/ui/VesselTrackingPage.tsx:60-66 | There are no vessels without data or without a matching category. Otherwise it returns the vessels of the first matching category, or [] when those are missing. |
| VesselPage.GetVesselsIgnoresCase | src/ui/VesselTrackingPage.tsx:63-65 | Requests that differ only in case get the same vessels. |
| VesselPage.DefaultTerminal | src/ui/VesselTrackingPage.tsx:68-74 | The effect acts only on an empty selection with a non-empty terminal list. It then picks "ALL" exactly when some terminal is coded exactly "ALL", and "" otherwise. |
| VesselPage.DefaultIsOffered | src/ui/VesselTrackingPage.tsx:138-149 | The default terminal is always the value of some menu entry. |
| VesselPage.MenuOptions | src/ui/VesselTrackingPage.tsx:138-149 | The menu is the manual ("", "All") entry when shown, then one entry per terminal in order. Each terminal entry has its code (or "") and its name (or "Unknown Terminal"). |
| VesselPage.ManualAllIffNoAllEntry | src/ui/VesselTrackingPage.tsx:138-149 | The manual "All" entry is present exactly when no menu entry has the value "ALL". |
| VesselPage.PanelTitle | src/ui/VesselTrackingPage.tsx:182-219 | Each panel's title prop agrees with the title the dialog's ternary chain gives that panel. |
| VesselPage.PanelCategory | src/ui/VesselTrackingPage.tsx:187-223 | Each panel's table asks `getVessels` for the category named like the panel's title. |
| VesselPage.DialogVessels | src/ui/VesselTrackingPage.tsx:270-297 | The dialog holds a table exactly while some panel is maximised. |
| VesselPage.DialogTitle | src/ui/VesselTrackingPage.tsx:250-256 | Arrivals, departures and port map to their panel titles. Every other value, including none, maps to "Ships in Anchorage". |
| VesselPage.DialogMatchesPanel | src/ui/VesselTrackingPage.tsx:182-297 | A maximised panel opens the dialog. The dialog's title chain names that panel, and its guarded table lists the same vessels as the panel's own table on the page. |
| VesselPage.PanelTitleInjective | src/ui/VesselTrackingPage.tsx:182-219 | The four panel titles are distinct. |
| VesselPage.RowIds | src/ui/VesselTrackingPage.tsx:572-575 | A row's id is its `callId` when present, and its index otherwise. |
| VesselPage.RowIdsWithoutCallIds | src/ui/VesselTrackingPage.tsx:572-575 | Rows without call ids get pairwise distinct ids. |
| VesselPage.RowClass | src/ui/VesselTrackingPage.tsx:586-588 | A row's class is "even" or "odd", and "even" exactly at even indices. |
| VesselPage.RowClassAlternates | src/ui/VesselTrackingPage.tsx:586-588 | Adjacent rows get different stripe classes, and rows two apart get the same class. |
| Layout.CurrentIndex | src/ui/Layout.tsx:27-30 | The highlighted tab is a valid index. It is 1 exactly when the path starts with "/cargo", so "/cargoX" counts too, and 0 otherwise. |
| Layout.Navigate | src/ui/Layout.tsx:67 | Clicking tab `i` navigates to a path that highlights tab `i`. |
| Layout.TabRoundTrip | src/ui/Layout.tsx:16-30 | For every tab, the tab highlighted at its path is that tab. |
| Layout.RootHighlightsVessels | src/ui/Layout.tsx:28-29 | "/" highlights the "Vessel Tracking" tab. |
| Layout.RoutedPage | src/routes.tsx:8-18 | Of the route table's literal locations, "/cargo" shows the cargo page, and "/" and "/vessels" show the vessel page. |
| Layout.HighlightMatchesRoute | src/routes.tsx:8-18 | On "/", "/vessels" and "/cargo", the highlighted tab is the tab of the page the route table renders. |
| Layout.TabsLeadToTheirPages | src/ui/Layout.tsx:16-19 | Each tab's target is a location of the route table, and the page shown there is the tab's own page. |
| Responsive.ResponsiveFlags | src/ui/ResponsiveWrapper.tsx:150-155 | The flags are: mobile iff w < 768; tablet iff 768 ≤ w < 1024; desktop iff 1024 ≤ w < 1440; large iff w ≥ 1440. |
| Responsive.FlagsPartition | src/ui/ResponsiveWrapper.tsx:151-155 | Exactly one flag is set for every width. |
| Responsive.ClassifyMonotone | src/ui/ResponsiveWrapper.tsx:151-155 | A wider window never falls in a narrower class. |
| Responsive.Spread | src/ui/ResponsiveWrapper.tsx:65-132 | The last spread object's keys carry its values into the merge, and merging never drops a key of the earlier objects. |
| Responsive.Fragments | src/ui/ResponsiveWrapper.tsx:65-131 | The style is built from thirteen spread objects, the caller's `sx` last. |
| Responsive.ResponsiveSx | src/ui/ResponsiveWrapper.tsx:65-71 | Every width and every caller keeps the base keys `width`, `maxWidth`, `minHeight`, `maxHeight`, `overflow` and `position`. |
| Responsive.SpreadKeys | src/ui/ResponsiveWrapper.tsx:65-132 | A key is in the merged object exactly when some spread object has it. |
| Responsive.SpreadAbsent | src/ui/ResponsiveWrapper.tsx:65-132 | A key that no spread object has is missing from the merge. |
| Responsive.SpreadLastWins | src/ui/ResponsiveWrapper.tsx:65-132 | A key takes its value from the last spread object that has it. |
| Responsive.OneFontBandApplies | src/ui/ResponsiveWrapper.tsx:79-99 | Exactly one of the five font-band fragments applies to every width, and it is the fragment of the width's band. |
| Responsive.FontSizeByBand | src/ui/ResponsiveWrapper.tsx:79-105 | `fontSize` is 0.875, 0.9375, 1, 1.0625 or 1.125rem by band. At 2560 and above it is 1.25rem. |
| Responsive.UltraWideCap | src/ui/ResponsiveWrapper.tsx:101-105 | `maxWidth` is "1920px" from 2560 up and "100%" below. |
| Responsive.UltraWideCentred | src/ui/ResponsiveWrapper.tsx:101-105 | `margin: "0 auto"` is present exactly from 2560 up. |
| Responsive.AspectRatioRule | src/ui/ResponsiveWrapper.tsx:72-77 | `aspectRatio` is present exactly when it is maintained or given non-empty. `maintainAspectRatio` forces "16/9" over a given ratio. |
| Responsive.DataGridByBreakpoint | src/ui/ResponsiveWrapper.tsx:107-130 | The DataGrid font is 0.75rem below 768, 0.8125rem below 1024 and 0.875rem above. Compact cell padding applies only below 768. |
| Responsive.TypographyInheritsOnNarrow | src/ui/ResponsiveWrapper.tsx:79-84 | The typography-inherit rule is present exactly below 480. |
| Responsive.CallerStyleWins | src/ui/ResponsiveWrapper.tsx:131 | Every key of the caller's `sx` overrides the computed value. |
| Responsive.GridFontFollowsFlags | src/ui/ResponsiveWrapper.tsx:107-130 | The DataGrid bands coincide with the breakpoint flags, with desktop and large merged. |
| MockApi.VesselsFor | src/lib/mock.ts:14-20 | Two vessels per terminal, with ids "v1-"/"v2-" plus the id and names carrying the upper-cased id. |
| MockApi.AllVessels | src/lib/mock.ts:22-24 | Four vessels: t1's two, then t2's two. |
| MockApi.VesselIdNamesTerminal | src/lib/mock.ts:14-20 | A generated vessel id is "v1-" or "v2-" followed by the terminal id. |
| MockApi.VesselsOf | src/lib/mock.ts:22-24 | `flatMap` gives two vessels per terminal, grouped by terminal in order. |
| MockApi.AllVesselIdsDistinct | src/lib/mock.ts:14-24 | The four mock vessels carry pairwise distinct ids. |
| MockApi.Vessels | src/lib/mock.ts:26-53 | A vessel endpoint returns every vessel for "all" and the terminal's vessels otherwise. Only `status` is replaced: "Discharging", "Departing soon" or "Anchored", or kept for arrivals. |
| MockApi.MissingTerminalIsT1 | src/lib/mock.ts:27 | A missing or empty terminal id is "t1". |
| MockApi.AllIsEachTerminal | src/lib/mock.ts:26-53 | For every vessel endpoint, "all" is the t1 answer followed by the t2 answer. |
| MockApi.CargoList | src/lib/mock.ts:55-64 | The plain cargo endpoint returns rows c1 and c2 with references REF-<id>-001 and REF-<id>-002. |
| MockApi.PoolItem | src/lib/mock.ts:85-91 | Row `idx` has id "c<idx+1>-" plus the terminal and the `idx`-th reference. It is a Container exactly when it is Arrived, which is exactly at even `idx`. |
| MockApi.CargoFor | src/lib/mock.ts:85-91 | Four rows for a terminal, row `i` being item `i`. |
| MockApi.CargoOf | src/lib/mock.ts:73-81 | `flatMap` gives four rows per terminal. |
| MockApi.CargoOfGroups | src/lib/mock.ts:73-81 | The `j`-th block of four rows is the `j`-th terminal's rows. |
| MockApi.Pool | src/lib/mock.ts:84-91 | The pool has four rows with a non-empty code and four per mock terminal otherwise. |
| MockApi.PoolOfTerminal | src/lib/mock.ts:84-91 | With a terminal code, the pool has four rows with ids c1 to c4 followed by "-" and the code. |
| MockApi.PoolOfAll | src/lib/mock.ts:72-91 | Without a code, the pool is t1's four rows followed by t2's four rows. |
| MockApi.PoolParity | src/lib/mock.ts:73-91 | References cycle through the fixed list. Type and status alternate by index parity: Container/Arrived at even indices, Bulk/In transit at odd ones. |
| MockApi.Matches | src/lib/mock.ts:93-104 | An empty search matches everything. Otherwise "Equals" is case-insensitive equality and "StartsWith" a case-insensitive prefix. Any other operator is a case-insensitive substring test. |
| MockApi.MissingOperatorIsContains | src/lib/mock.ts:69 | A missing, empty or unknown operator behaves as "Contains". |
| MockApi.OperatorStrength | src/lib/mock.ts:95-103 | An "Equals" match is a "StartsWith" match, which is a "Contains" match. |
| MockApi.Search | src/lib/mock.ts:67-106 | Exactly the pool rows whose reference matches are returned, and every result row comes from the pool. |
| MockApi.SearchKeepsPoolOrder | src/lib/mock.ts:106 | The result is a subsequence of the pool: rows come back in pool order. |
| MockApi.EmptySearchReturnsPool | src/lib/mock.ts:94 | An empty or missing search string returns the whole pool. |
| MockApi.SearchAllIsEachTerminal | src/lib/mock.ts:72-106 | A search over all terminals is the t1 search followed by the t2 search. |
| Seqs.Filter | src/lib/mock.ts:106 | `filter` keeps every passing element and only passing elements of the input. |
| Seqs.FilterIsSubsequence | src/lib/mock.ts:106 | `filter` only deletes elements, so its result keeps the input's order. |
| Seqs.FilterAppend | src/lib/mock.ts:106 | Filtering distributes over concatenation, so the input order is kept. |

## Left out

- Rendering, MUI styling, DataGrid columns, theming and router wiring. They carry no decision logic. Only the route table's three literal locations are modelled, as `Layout.RoutedPage`.
- Layout.RoutedPage: React Router's own path matching is not modelled. Its defaults ignore letter case and accept a trailing slash, so it also renders the cargo page on "/Cargo" or "/cargo/". `Layout.CurrentIndex` compares case-sensitively, so on "/CARGO" the vessel tab would be highlighted. `Layout.HighlightMatchesRoute` speaks only of the three literal locations.
- Responsive.FlagsPartition: `useResponsive` starts with all four flags false and sets them only when its effect first runs the resize handler. "Exactly one flag" describes the state after that first run.
- HTTP calls, response validation and logging in `src/lib/api.ts`. They are thin wrappers over libraries. Only the record shapes are kept. They keep all the record fields, including the quantities, bill-of-lading fields, marks and event date that no modelled rule reads.
- The vessel tracking record type: it is not part of this model. A row keeps only its `callId`.
- React Query fetching and caching, the 500 ms search debounce, and the numeric-search API call with its fallback. These are asynchronous, timer-driven I/O. The model starts from the rows the client filter receives and from the current state of each effect.
- Date and time formatting of the steps and of the vessel columns. It depends on locale, time zone and platform. A step therefore carries no date or time; the raw date string stays on the tracking event.
- Zoom-level and floating-point sizing of the pages, and the window, orientation and viewport listeners. The width is an integer input, and the zoom level is not modelled.
- The mock `/cargo/:id/tracking` endpoint, which parses the URL, and the mock registration itself. The mock is disabled in `src/main.tsx`.
- The terminal store in `src/store/terminalStore.ts`. It is a one-line setter.
- Unicode case mapping and locale-sensitive comparison. Case mapping is ASCII only.
- Strings.IntToString: models `toString` for integers only. It does not model the exponent form JavaScript prints for magnitudes of 1e21 and above, nor non-integer numbers.
- ShipmentTimeline.SortByEventNo: `eventNo` is a JavaScript number and is modelled as an integer. Fractional event numbers are not modelled.
- Responsive.SpreadKeys: style values are plain maps. MUI's array and callback forms of `sx`, and responsive objects inside values, are not modelled.
