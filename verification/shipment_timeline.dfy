/**
 * The shipment timeline of the cargo page: the tracking events of one cargo
 * are sorted by event number, and each becomes a step whose label is chosen
 * by an ordered list of substring rules over the event description, with the
 * vessel name and the order number pulled out of bracketed parts of the
 * description.
 */
module ShipmentTimeline {
  import opened Wrappers
  import opened Strings
  import opened ApiTypes

  // ---------------------------------------------------------------------------
  // Stable sort by event number
  // ---------------------------------------------------------------------------

  predicate SortedByEventNo(s: seq<TrackingEvent>) {
    forall i, j :: 0 <= i < j < |s| ==> s[i].eventNo <= s[j].eventNo
  }

  /** The events of `s` whose number is `k`, in their order in `s`. A sort is
      stable exactly when it leaves this subsequence unchanged for every `k`. */
  function WithEventNo(s: seq<TrackingEvent>, k: int): seq<TrackingEvent>
  {
    if s == [] then []
    else (if s[0].eventNo == k then [s[0]] else []) + WithEventNo(s[1..], k)
  }

  lemma WithEventNoCons(e: TrackingEvent, s: seq<TrackingEvent>, k: int)
    ensures WithEventNo([e] + s, k) == (if e.eventNo == k then [e] else []) + WithEventNo(s, k)
  {
    assert ([e] + s)[1..] == s;
  }

  /** A head below every element of `s` and below `e` can be put in front of a
      sorted arrangement of `s` and `e`. */
  lemma SortedCons(x: TrackingEvent, e: TrackingEvent, s: seq<TrackingEvent>, tail: seq<TrackingEvent>)
    requires SortedByEventNo(tail)
    requires x.eventNo < e.eventNo
    requires forall j :: 0 <= j < |s| ==> x.eventNo <= s[j].eventNo
    requires multiset(tail) == multiset(s) + multiset{e}
    ensures SortedByEventNo([x] + tail)
  {
    forall j | 0 <= j < |tail|
      ensures x.eventNo <= tail[j].eventNo
    {
      assert tail[j] in multiset(tail);
      if tail[j] != e {
        assert tail[j] in multiset(s);
        var t :| 0 <= t < |s| && s[t] == tail[j];
      }
    }
  }

  /** Inserts `e` into the sorted `s` in front of every event whose number is
      not smaller than its own. */
  function Insert(e: TrackingEvent, s: seq<TrackingEvent>): (r: seq<TrackingEvent>)
    requires SortedByEventNo(s)
    ensures |r| == |s| + 1
    ensures SortedByEventNo(r)
    ensures multiset(r) == multiset(s) + multiset{e}
  {
    if s == [] then [e]
    else if e.eventNo <= s[0].eventNo then [e] + s
    else
      var tail := Insert(e, s[1..]);
      assert s == [s[0]] + s[1..];
      SortedCons(s[0], e, s[1..], tail);
      [s[0]] + tail
  }

  /** Insertion puts `e` in front of the events of `s` that share its number. */
  lemma {:induction false} InsertWithEventNo(e: TrackingEvent, s: seq<TrackingEvent>, k: int)
    requires SortedByEventNo(s)
    ensures WithEventNo(Insert(e, s), k) == (if k == e.eventNo then [e] else []) + WithEventNo(s, k)
  {
    if s == [] {
      assert Insert(e, s) == [e] + s;
      WithEventNoCons(e, s, k);
    } else if e.eventNo <= s[0].eventNo {
      assert Insert(e, s) == [e] + s;
      WithEventNoCons(e, s, k);
    } else {
      var tail := Insert(e, s[1..]);
      assert Insert(e, s) == [s[0]] + tail;
      InsertWithEventNo(e, s[1..], k);
      KeepHeadBelow(s, tail, e, k);
    }
  }

  /** Putting back a head whose number is below `e`'s keeps the relation
      between the filtered tail and the filtered rest. */
  lemma KeepHeadBelow(s: seq<TrackingEvent>, tail: seq<TrackingEvent>, e: TrackingEvent, k: int)
    requires s != [] && s[0].eventNo < e.eventNo
    requires WithEventNo(tail, k) == (if k == e.eventNo then [e] else []) + WithEventNo(s[1..], k)
    ensures WithEventNo([s[0]] + tail, k) == (if k == e.eventNo then [e] else []) + WithEventNo(s, k)
  {
    assert s == [s[0]] + s[1..];
    WithEventNoCons(s[0], tail, k);
    WithEventNoCons(s[0], s[1..], k);
    if s[0].eventNo == k {
      assert k != e.eventNo;
    } else {
      assert WithEventNo(s, k) == WithEventNo(s[1..], k);
    }
  }

  /** `[...events].sort((a, b) => a.eventNo - b.eventNo)`: a new sequence of
      the same events in ascending event-number order that keeps events with
      equal numbers in their input order. */
  function SortByEventNo(events: seq<TrackingEvent>): (r: seq<TrackingEvent>)
    ensures |r| == |events|
    ensures SortedByEventNo(r)
    ensures multiset(r) == multiset(events)
    ensures forall k :: WithEventNo(r, k) == WithEventNo(events, k)
  {
    if events == [] then []
    else
      var rest := SortByEventNo(events[1..]);
      var r := Insert(events[0], rest);
      assert events == [events[0]] + events[1..];
      forall k
        ensures WithEventNo(r, k) == WithEventNo(events, k)
      {
        InsertWithEventNo(events[0], rest, k);
        WithEventNoCons(events[0], events[1..], k);
      }
      r
  }

  // ---------------------------------------------------------------------------
  // Event label
  // ---------------------------------------------------------------------------

  /** A label rule fires when every one of its needles occurs in the description. */
  datatype LabelRule = LabelRule(needles: seq<string>, labelText: string)

  /** The rules of `getEventLabel`, in the order in which they are tried. The
      tests are case-sensitive substring tests. */
  const LabelRules: seq<LabelRule> := [
    LabelRule(["expected to arrive"], "Vessel Expected to Arrive"),
    LabelRule(["was created", "Vessel call"], "Vessel Call Created"),
    LabelRule(["Reception Order", "was created"], "Reception Order Created"),
    LabelRule(["Loading Order", "was created"], "Loading Order Created"),
    LabelRule(["Discharge Order", "was created"], "Discharge Order Created"),
    LabelRule(["Delivery Order", "was created"], "Delivery Order Created"),
    LabelRule(["arrived"], "Vessel Arrived"),
    LabelRule(["departed"], "Vessel Departed"),
    LabelRule(["customs"], "Customs Processing"),
    LabelRule(["loaded"], "Cargo Loaded"),
    LabelRule(["discharged"], "Cargo Discharged"),
    LabelRule(["delivered"], "Cargo Delivered")
  ]

  predicate RuleHolds(rule: LabelRule, d: string) {
    forall i :: 0 <= i < |rule.needles| ==> Contains(d, rule.needles[i])
  }

  /** The label of the first rule that holds, if any. */
  function FirstLabel(rules: seq<LabelRule>, d: string): Option<string>
  {
    if rules == [] then None
    else if RuleHolds(rules[0], d) then Some(rules[0].labelText)
    else FirstLabel(rules[1..], d)
  }

  predicate DistinctLabels(rules: seq<LabelRule>) {
    forall a, b :: 0 <= a < b < |rules| ==> rules[a].labelText != rules[b].labelText
  }

  /** A label found by the search is the label of a rule that holds. */
  lemma {:induction false} FirstLabelIsRuleLabel(rules: seq<LabelRule>, d: string)
    requires FirstLabel(rules, d).Some?
    ensures exists a :: 0 <= a < |rules| && RuleHolds(rules[a], d)
                        && FirstLabel(rules, d).value == rules[a].labelText
  {
    if !RuleHolds(rules[0], d) {
      FirstLabelIsRuleLabel(rules[1..], d);
      var a :| 0 <= a < |rules| - 1 && RuleHolds(rules[1..][a], d)
               && FirstLabel(rules[1..], d).value == rules[1..][a].labelText;
      assert rules[1..][a] == rules[a + 1];
    }
  }

  /** With distinct labels, the first-match search returns rule `j`'s label
      exactly when rule `j` holds and no earlier rule does. */
  lemma {:induction false} FirstLabelIff(rules: seq<LabelRule>, d: string, j: nat)
    requires DistinctLabels(rules)
    requires j < |rules|
    ensures FirstLabel(rules, d) == Some(rules[j].labelText) <==>
            RuleHolds(rules[j], d) && forall a :: 0 <= a < j ==> !RuleHolds(rules[a], d)
    decreases j
  {
    if RuleHolds(rules[0], d) {
      if j > 0 {
        assert rules[0].labelText != rules[j].labelText;
      }
    } else {
      var tail := rules[1..];
      if j > 0 {
        assert DistinctLabels(tail) by {
          forall a, b | 0 <= a < b < |tail| ensures tail[a].labelText != tail[b].labelText {
            assert tail[a] == rules[a + 1] && tail[b] == rules[b + 1];
          }
        }
        FirstLabelIff(tail, d, j - 1);
        assert tail[j - 1] == rules[j];
        assert forall a :: 0 <= a < j - 1 ==> tail[a] == rules[a + 1];
        assert forall a :: 0 < a < j ==> rules[a] == tail[a - 1];
      } else if FirstLabel(tail, d).Some? {
        FirstLabelIsRuleLabel(tail, d);
        var a :| 0 <= a < |tail| && RuleHolds(tail[a], d) && FirstLabel(tail, d).value == tail[a].labelText;
        assert tail[a] == rules[a + 1];
      }
    }
  }

  /** The first-match search finds nothing exactly when no rule holds. */
  lemma {:induction false} FirstLabelNoneIff(rules: seq<LabelRule>, d: string)
    ensures FirstLabel(rules, d).None? <==> forall a :: 0 <= a < |rules| ==> !RuleHolds(rules[a], d)
  {
    if rules != [] && !RuleHolds(rules[0], d) {
      FirstLabelNoneIff(rules[1..], d);
      assert forall a :: 0 < a < |rules| ==> rules[a] == rules[1..][a - 1];
    }
  }

  /** The fallback label: the first three space-separated pieces of the
      description, joined with single spaces, followed by "...". */
  function FallbackLabel(d: string): (r: string)
    ensures |r| >= 3 && r[|r| - 3..] == "..."
    ensures r[..|r| - 3] <= d
  {
    JoinFirstPrefix(d, ' ', 3);
    var head := JoinFirst(d, ' ', 3);
    assert (head + "...")[..|head|] == head;
    head + "..."
  }

  /** `getEventLabel`: "Unknown Event" for a null or empty description,
      otherwise the label of the first rule that holds, otherwise the fallback. */
  function EventLabel(description: Option<string>): (r: string)
    ensures r == "Unknown Event" <==> description.None? || description.value == ""
    ensures r != "Unknown Event" ==>
      (exists a :: 0 <= a < |LabelRules| && RuleHolds(LabelRules[a], description.value)
                   && r == LabelRules[a].labelText)
      || (|r| >= 3 && r[|r| - 3..] == "..." && r[..|r| - 3] <= description.value)
  {
    if description.None? || description.value == "" then "Unknown Event"
    else match FirstLabel(LabelRules, description.value)
      case Some(text) =>
        FirstLabelIsRuleLabel(LabelRules, description.value);
        text
      case None =>
        var f := FallbackLabel(description.value);
        assert f[|f| - 1] == '.';
        f
  }

  lemma RuleLabelsShape()
    ensures DistinctLabels(LabelRules)
    ensures forall a :: 0 <= a < |LabelRules| ==>
              |LabelRules[a].labelText| >= 1 && LabelRules[a].labelText[|LabelRules[a].labelText| - 1] != '.'
  {
  }

  /** A null or empty description is labelled "Unknown Event". */
  lemma UnknownEventLabel(description: Option<string>)
    requires description.None? || description.value == ""
    ensures EventLabel(description) == "Unknown Event"
  {
  }

  /** For a non-empty description the label is rule `j`'s exactly when rule
      `j` holds and no earlier rule does: the first match wins. */
  lemma EventLabelRule(d: string, j: nat)
    requires d != ""
    requires j < |LabelRules|
    ensures EventLabel(Some(d)) == LabelRules[j].labelText <==>
            RuleHolds(LabelRules[j], d) && forall a :: 0 <= a < j ==> !RuleHolds(LabelRules[a], d)
  {
    RuleLabelsShape();
    FirstLabelIff(LabelRules, d, j);
    if FirstLabel(LabelRules, d).None? {
      var f := FallbackLabel(d);
      assert f[|f| - 1] == '.';
    }
  }

  /** For a non-empty description the fallback is used exactly when no rule holds. */
  lemma EventLabelFallback(d: string)
    requires d != ""
    ensures EventLabel(Some(d)) == FallbackLabel(d) <==>
            forall a :: 0 <= a < |LabelRules| ==> !RuleHolds(LabelRules[a], d)
  {
    RuleLabelsShape();
    FirstLabelNoneIff(LabelRules, d);
    if FirstLabel(LabelRules, d).Some? {
      FirstLabelIsRuleLabel(LabelRules, d);
      var f := FallbackLabel(d);
      assert f[|f| - 1] == '.';
    }
  }

  /** "expected to arrive" anywhere in the description beats every other rule. */
  lemma ExpectedToArriveWins(d: string)
    requires Contains(d, "expected to arrive")
    ensures EventLabel(Some(d)) == "Vessel Expected to Arrive"
  {
    EventLabelRule(d, 0);
  }

  /** "Vessel call" together with "was created" beats the order-type rules. */
  lemma VesselCallCreatedBeatsOrders(d: string)
    requires !Contains(d, "expected to arrive")
    requires Contains(d, "Vessel call") && Contains(d, "was created")
    ensures EventLabel(Some(d)) == "Vessel Call Created"
  {
    var first := LabelRules[0];
    var second := LabelRules[1];
    assert first.needles == ["expected to arrive"];
    assert second.needles == ["was created", "Vessel call"];
    assert !RuleHolds(first, d) by {
      assert first.needles[0] == "expected to arrive";
    }
    assert RuleHolds(second, d);
    EventLabelRule(d, 1);
  }

  /** An order type together with "was created" beats "arrived" and "departed":
      whichever of those words also occur, the first rule that fires is one of
      rules 0 to 5, never a vessel movement. */
  lemma OrderCreatedBeatsMovement(d: string, j: nat)
    requires d != ""
    requires 2 <= j <= 5
    requires RuleHolds(LabelRules[j], d)
    ensures EventLabel(Some(d)) != "Vessel Arrived" && EventLabel(Some(d)) != "Vessel Departed"
  {
    EventLabelRule(d, 6);
    EventLabelRule(d, 7);
  }

  /** "customs" is tested before "loaded", "discharged" and "delivered". */
  lemma CustomsBeforeCargoRules(d: string)
    requires forall a :: 0 <= a < 8 ==> !RuleHolds(LabelRules[a], d)
    requires Contains(d, "customs")
    ensures EventLabel(Some(d)) == "Customs Processing"
  {
    EventLabelRule(d, 8);
  }

  /** The text in front of the fallback's "..." is the prefix of the
      description that ends just before its third space, or the whole
      description when it has at most two spaces. */
  lemma FallbackLabelShape(d: string)
    ensures var r := JoinFirst(d, ' ', 3);
            && FallbackLabel(d) == r + "..."
            && r <= d
            && Count(r, ' ') <= 2
            && (r == d || (|r| < |d| && d[|r|] == ' ' && Count(r, ' ') == 2))
  {
    JoinFirstPrefix(d, ' ', 3);
  }

  /** A description with at most two spaces becomes itself followed by "...". */
  lemma FallbackOfShortDescription(d: string)
    requires Count(d, ' ') <= 2
    ensures FallbackLabel(d) == d + "..."
  {
    JoinFirstPrefix(d, ' ', 3);
    SpaceAfterPrefix(d, JoinFirst(d, ' ', 3));
  }

  /** A prefix followed by a space has fewer spaces than the whole string. */
  lemma SpaceAfterPrefix(d: string, r: string)
    ensures r <= d && |r| < |d| && d[|r|] == ' ' ==> Count(d, ' ') >= Count(r, ' ') + 1
  {
    if r <= d && |r| < |d| && d[|r|] == ' ' {
      assert d == r + d[|r|..];
      CountAppend(r, d[|r|..], ' ');
      assert d[|r|..] == [' '] + d[|r| + 1..];
      CountAppend([' '], d[|r| + 1..], ' ');
    }
  }

  // ---------------------------------------------------------------------------
  // Vessel name: /\[MV\s+([^\]]+)\]/, group 1 cut at the first ':'
  // ---------------------------------------------------------------------------

  predicate MvOpensAt(s: string, i: nat) {
    i + 3 <= |s| && s[i] == '[' && s[i + 1] == 'M' && s[i + 2] == 'V'
  }

  /** `[i, k]` matches `\[MV\s+([^\]]+)\]` with the whitespace run on
      `[i + 3, m)` and group 1 on `[m, k)`. */
  predicate MvMatch(s: string, i: int, m: int, k: int) {
    && 0 <= i && i + 3 < m < k < |s|
    && MvOpensAt(s, i)
    && (forall t :: i + 3 <= t < m ==> IsWhitespace(s[t]))
    && (forall t :: m <= t < k ==> s[t] != ']')
    && s[k] == ']'
  }

  /** The match a backtracking engine reports: the leftmost start, and at that
      start the longest whitespace run (`\s+` is greedy). */
  ghost predicate MvRegexMatch(s: string, i: int, m: int, k: int) {
    && MvMatch(s, i, m, k)
    && (forall a, m', k' :: 0 <= a < i ==> !MvMatch(s, a, m', k'))
    && (forall m', k' :: MvMatch(s, i, m', k') ==> m' <= m)
  }

  /** Once the start and the end of the whitespace run are fixed, so is the
      closing bracket. */
  lemma MvMatchEndUnique(s: string, i: int, m: int, k: int, k': int)
    requires MvMatch(s, i, m, k) && MvMatch(s, i, m, k')
    ensures k == k'
  {
  }

  datatype Span = Span(start: nat, end: nat)

  /** Any match starting at `i` has its whitespace run inside the maximal
      one, and closes at the first ']' after that run. */
  lemma MvMatchFacts(s: string, i: nat, e: nat)
    requires i + 3 <= |s|
    requires e == WsEnd(s, i + 3)
    ensures forall m, k :: MvMatch(s, i, m, k) ==>
              m <= e && e <= k && IndexOf(s, ']', e) == Some(k)
  {
    forall m, k | MvMatch(s, i, m, k)
      ensures m <= e && e <= k && IndexOf(s, ']', e) == Some(k)
    {
      assert !IsWhitespace(s[k]);
    }
  }

  /** Group 1 of the pattern when the match starts at `i`, if it can. */
  function MvGroupAt(s: string, i: nat): (g: Option<Span>)
    requires i <= |s|
    ensures g.Some? ==> MvMatch(s, i, g.value.start, g.value.end)
    ensures g.Some? ==> forall m, k :: MvMatch(s, i, m, k) ==> m <= g.value.start
    ensures g.None? ==> forall m, k :: !MvMatch(s, i, m, k)
  {
    if !MvOpensAt(s, i) then None
    else
      var e := WsEnd(s, i + 3);
      MvMatchFacts(s, i, e);
      if e == i + 3 then None
      else match IndexOf(s, ']', e)
        case None => None
        case Some(k) =>
          if k > e then Some(Span(e, k))
          else if e - 1 > i + 3 then
            assert IsWhitespace(s[e - 1]);
            Some(Span(e - 1, e))
          else None
  }

  datatype Found = Found(at: nat, group: Span)

  /** The leftmost match of the pattern starting at or after `i`. */
  function MvSearch(s: string, i: nat): (r: Option<Found>)
    requires i <= |s|
    ensures r.None? ==> forall a, m, k :: i <= a ==> !MvMatch(s, a, m, k)
    ensures r.Some? ==> i <= r.value.at && MvMatch(s, r.value.at, r.value.group.start, r.value.group.end)
    ensures r.Some? ==> forall a, m, k :: i <= a < r.value.at ==> !MvMatch(s, a, m, k)
    ensures r.Some? ==> forall m, k :: MvMatch(s, r.value.at, m, k) ==> m <= r.value.group.start
    decreases |s| - i
  {
    if i == |s| then
      None
    else match MvGroupAt(s, i)
      case Some(g) => Some(Found(i, g))
      case None => MvSearch(s, i + 1)
  }

  /** `getVesselName`: null for a null or empty description or when the
      pattern does not match; otherwise group 1 of the reported match up to
      its first ':'. */
  function VesselName(description: Option<string>): (r: Option<string>)
    ensures description.None? ==> r.None?
    ensures description.Some? ==>
              (r.Some? <==> exists i, m, k :: MvMatch(description.value, i, m, k))
    ensures r.Some? ==> exists i, m, k ::
              && MvRegexMatch(description.value, i, m, k)
              && r.value == Split(description.value[m..k], ':')[0]
    ensures r.Some? ==> ':' !in r.value && ']' !in r.value
  {
    if description.None? || description.value == "" then None
    else
      var s := description.value;
      match MvSearch(s, 0)
      case None => None
      case Some(f) =>
        var group := s[f.group.start..f.group.end];
        var name := Split(group, ':')[0];
        assert MvRegexMatch(s, f.at, f.group.start, f.group.end);
        assert ']' !in group;
        assert name == group[..|name|];
        Some(name)
  }

  // ---------------------------------------------------------------------------
  // Order number: /\[([A-Z0-9\/]+)\]/, group 1
  // ---------------------------------------------------------------------------

  predicate IsOrderChar(c: char) {
    ('A' <= c <= 'Z') || IsDigit(c) || c == '/'
  }

  /** `[i, e]` matches `\[([A-Z0-9\/]+)\]` with group 1 on `(i, e)`. */
  predicate OrderMatch(s: string, i: int, e: int) {
    && 0 <= i && i + 1 < e < |s|
    && s[i] == '['
    && (forall t :: i < t < e ==> IsOrderChar(s[t]))
    && s[e] == ']'
  }

  /** The end of the longest run of order characters that starts at `j`. */
  function OrderRunEnd(s: string, j: nat): (e: nat)
    requires j <= |s|
    ensures j <= e <= |s|
    ensures forall t :: j <= t < e ==> IsOrderChar(s[t])
    ensures e == |s| || !IsOrderChar(s[e])
    decreases |s| - j
  {
    if j == |s| || !IsOrderChar(s[j]) then j else OrderRunEnd(s, j + 1)
  }

  /** A match starting at `i` closes just after the maximal run of order
      characters that follows the '['. */
  lemma OrderMatchFacts(s: string, i: nat, e: nat)
    requires i + 1 <= |s|
    requires e == OrderRunEnd(s, i + 1)
    ensures forall e' :: OrderMatch(s, i, e') ==> e' == e
  {
    forall e' | OrderMatch(s, i, e')
      ensures e' == e
    {
      assert !IsOrderChar(s[e']);
    }
  }

  /** The end of group 1 when the match starts at `i`, if it can; at most one
      end is possible. */
  function OrderGroupAt(s: string, i: nat): (r: Option<nat>)
    requires i <= |s|
    ensures r.Some? ==> OrderMatch(s, i, r.value)
    ensures r.Some? ==> forall e :: OrderMatch(s, i, e) ==> e == r.value
    ensures r.None? ==> forall e :: !OrderMatch(s, i, e)
  {
    if i == |s| || s[i] != '[' then None
    else
      var e := OrderRunEnd(s, i + 1);
      OrderMatchFacts(s, i, e);
      if e > i + 1 && e < |s| && s[e] == ']' then Some(e) else None
  }

  /** The leftmost match of the pattern starting at or after `i`. */
  function OrderSearch(s: string, i: nat): (r: Option<Span>)
    requires i <= |s|
    ensures r.None? ==> forall a, e :: i <= a ==> !OrderMatch(s, a, e)
    ensures r.Some? ==> i <= r.value.start && OrderMatch(s, r.value.start, r.value.end)
    ensures r.Some? ==> forall a, e :: i <= a < r.value.start ==> !OrderMatch(s, a, e)
    decreases |s| - i
  {
    if i == |s| then None
    else match OrderGroupAt(s, i)
      case Some(e) => Some(Span(i, e))
      case None => OrderSearch(s, i + 1)
  }

  /** `getOrderNumber`: group 1 of the leftmost match, or null. */
  function OrderNumber(description: Option<string>): (r: Option<string>)
    ensures description.None? ==> r.None?
    ensures description.Some? ==>
              (r.Some? <==> exists i, e :: OrderMatch(description.value, i, e))
    ensures r.Some? ==> exists i, e ::
              && OrderMatch(description.value, i, e)
              && (forall a, e' :: 0 <= a < i ==> !OrderMatch(description.value, a, e'))
              && r.value == description.value[i + 1..e]
    ensures r.Some? ==> |r.value| >= 1 && forall t :: 0 <= t < |r.value| ==> IsOrderChar(r.value[t])
    ensures r.Some? ==> Contains(description.value, "[" + r.value + "]")
  {
    if description.None? || description.value == "" then None
    else
      var s := description.value;
      match OrderSearch(s, 0)
      case None => None
      case Some(sp) =>
        var group := s[sp.start + 1..sp.end];
        assert OccursAt(s, "[" + group + "]", sp.start) by {
          assert s[sp.start..sp.end + 1] == "[" + group + "]";
        }
        ContainsIff(s, "[" + group + "]");
        Some(group)
  }

  // ---------------------------------------------------------------------------
  // Steps
  // ---------------------------------------------------------------------------

  /** One timeline step; the formatted date and time are not modelled. */
  datatype Step = Step(
    labelText: string,
    vessel: Option<string>,
    order: Option<string>,
    fullDescription: Option<string>,
    eventNo: int)

  /** The step shown for one event. It keeps the event's number and raw
      description; an empty description yields the "Unknown Event" label and
      neither a vessel nor an order number. */
  function StepOf(e: TrackingEvent): (s: Step)
    ensures s.eventNo == e.eventNo && s.fullDescription == e.eventDescription
    ensures e.eventDescription.None? || e.eventDescription.value == "" ==>
              s.labelText == "Unknown Event" && s.vessel.None? && s.order.None?
  {
    Step(EventLabel(e.eventDescription), VesselName(e.eventDescription),
         OrderNumber(e.eventDescription), e.eventDescription, e.eventNo)
  }

  /** For a non-empty description a step shows what the three extractors
      make of it: label `j` exactly when rule `j` is the first rule that holds,
      the fallback exactly when no rule holds, and a vessel or an order chip
      exactly when the corresponding pattern matches. */
  lemma StepOfDescribesEvent(e: TrackingEvent, j: nat)
    requires e.eventDescription.Some? && e.eventDescription.value != ""
    requires j < |LabelRules|
    ensures var d := e.eventDescription.value;
            StepOf(e).labelText == LabelRules[j].labelText <==>
              RuleHolds(LabelRules[j], d) && forall a :: 0 <= a < j ==> !RuleHolds(LabelRules[a], d)
    ensures var d := e.eventDescription.value;
            StepOf(e).labelText == FallbackLabel(d) <==>
              forall a :: 0 <= a < |LabelRules| ==> !RuleHolds(LabelRules[a], d)
    ensures StepOf(e).vessel.Some? <==> exists i, m, k :: MvMatch(e.eventDescription.value, i, m, k)
    ensures StepOf(e).order.Some? <==> exists i, x :: OrderMatch(e.eventDescription.value, i, x)
  {
    var d := e.eventDescription.value;
    assert StepOf(e).labelText == EventLabel(Some(d));
    EventLabelRule(d, j);
    EventLabelFallback(d);
  }

  function StepsOf(events: seq<TrackingEvent>): (r: seq<Step>)
    ensures |r| == |events|
    ensures forall i :: 0 <= i < |events| ==> r[i] == StepOf(events[i])
  {
    seq(|events|, i requires 0 <= i < |events| => StepOf(events[i]))
  }

  /** What `ShipmentStepper` renders: the "No tracking events available" note,
      or a timeline with its steps, the active step and its minimum width. */
  datatype Stepper = NoEvents | Timeline(steps: seq<Step>, activeStep: int, minWidth: int)

  function BaseWidth(isMobile: bool, isTablet: bool): int {
    if isMobile then 600 else if isTablet then 800 else 1000
  }

  function StepWidth(isMobile: bool, isTablet: bool): int {
    if isMobile then 200 else if isTablet then 240 else 280
  }

  /** `ShipmentStepper`: no timeline for an absent or empty event list;
      otherwise one step per event in ascending event-number order, every step
      completed (the active step is the last one), and a minimum width large
      enough for the base width and for every step. */
  function ShipmentStepper(events: Option<seq<TrackingEvent>>, isMobile: bool, isTablet: bool): (r: Stepper)
    ensures r.NoEvents? <==> events.None? || |events.value| == 0
    ensures r.Timeline? ==> |r.steps| == |events.value|
    ensures r.Timeline? ==> 0 <= r.activeStep == |r.steps| - 1
    ensures r.Timeline? ==> forall i, j :: 0 <= i < j < |r.steps| ==> r.steps[i].eventNo <= r.steps[j].eventNo
    ensures r.Timeline? ==> forall i :: 0 <= i < |r.steps| ==>
              r.steps[i] == StepOf(SortByEventNo(events.value)[i])
    ensures r.Timeline? ==> r.minWidth >= BaseWidth(isMobile, isTablet)
    ensures r.Timeline? ==> r.minWidth >= |r.steps| * StepWidth(isMobile, isTablet)
    ensures r.Timeline? ==> r.minWidth == BaseWidth(isMobile, isTablet) ||
                            r.minWidth == |r.steps| * StepWidth(isMobile, isTablet)
  {
    if events.None? || |events.value| == 0 then NoEvents
    else
      var sorted := SortByEventNo(events.value);
      var steps := StepsOf(sorted);
      var base := BaseWidth(isMobile, isTablet);
      var wide := |steps| * StepWidth(isMobile, isTablet);
      Timeline(steps, |steps| - 1, if base >= wide then base else wide)
  }

  /** Every event of the input gives exactly one step: the step of each event
      occurs in the timeline. */
  lemma EveryEventHasAStep(events: seq<TrackingEvent>, isMobile: bool, isTablet: bool, e: TrackingEvent)
    requires e in events
    ensures ShipmentStepper(Some(events), isMobile, isTablet).Timeline?
    ensures StepOf(e) in ShipmentStepper(Some(events), isMobile, isTablet).steps
  {
    var sorted := SortByEventNo(events);
    assert e in multiset(sorted);
    var i :| 0 <= i < |sorted| && sorted[i] == e;
    assert ShipmentStepper(Some(events), isMobile, isTablet).steps[i] == StepOf(e);
  }
}
