/**
 * The in-browser mock backend: fixed terminals, generated vessels for the four
 * vessel endpoints, a small cargo list, and a cargo search with an
 * operator-dispatched string matcher. Request parameters arrive as optional
 * strings; a missing or empty one takes the endpoint's default.
 */
module MockApi {
  import opened Wrappers
  import opened Strings
  import opened Seqs

  // ---------------------------------------------------------------------------
  // Terminals and vessels
  // ---------------------------------------------------------------------------

  datatype MockTerminal = MockTerminal(id: string, name: string)

  const MockTerminals: seq<MockTerminal> := [
    MockTerminal("t1", "Terminal A"),
    MockTerminal("t2", "Terminal B")
  ]

  datatype MockVessel = MockVessel(id: string, name: string, eta: string, status: string)

  /** The two vessels generated for a terminal id. */
  function VesselsFor(terminalId: string): (r: seq<MockVessel>)
    ensures |r| == 2
    ensures forall i :: 0 <= i < 2 ==> r[i].id == ['v', DigitChar(i + 1), '-'] + terminalId
    ensures r[0].name == "Evergreen " + Upper(terminalId) && r[1].name == "Maersk " + Upper(terminalId)
  {
    [ MockVessel("v1-" + terminalId, "Evergreen " + Upper(terminalId), "2025-08-20T08:00:00Z", "On route"),
      MockVessel("v2-" + terminalId, "Maersk " + Upper(terminalId), "2025-08-21T10:00:00Z", "Delayed") ]
  }

  /** The terminal id can be read back from every generated vessel id. */
  lemma VesselIdNamesTerminal(terminalId: string, i: nat)
    requires i < 2
    ensures VesselsFor(terminalId)[i].id[3..] == terminalId
  {
  }

  /** `terminals.flatMap(t => vesselsFor(t.id))` over a list of terminals. */
  function VesselsOf(ts: seq<MockTerminal>): (r: seq<MockVessel>)
    ensures |r| == 2 * |ts|
    ensures forall j, i :: 0 <= j < |ts| && 0 <= i < 2 ==> r[2 * j + i] == VesselsFor(ts[j].id)[i]
  {
    if ts == [] then []
    else
      VesselsFor(ts[0].id) + VesselsOf(ts[1..])
  }

  /** Every mock vessel, grouped by terminal in terminal order. */
  function AllVessels(): (r: seq<MockVessel>)
    ensures |r| == 4
    ensures r[..2] == VesselsFor("t1") && r[2..] == VesselsFor("t2")
  {
    VesselsOf(MockTerminals)
  }

  /** All mock vessels carry distinct ids. */
  lemma AllVesselIdsDistinct()
    ensures |AllVessels()| == 4
    ensures forall a, b :: 0 <= a < b < 4 ==> AllVessels()[a].id != AllVessels()[b].id
  {
    var all := AllVessels();
    assert all[0] == VesselsFor("t1")[0] && all[1] == VesselsFor("t1")[1];
    assert all[2] == VesselsFor("t2")[0] && all[3] == VesselsFor("t2")[1];
    assert all[0].id[1] == '1' && all[1].id[1] == '2' && all[2].id[1] == '1' && all[3].id[1] == '2';
    assert all[0].id[4] == '1' && all[1].id[4] == '1' && all[2].id[4] == '2' && all[3].id[4] == '2';
  }

  // ---------------------------------------------------------------------------
  // Vessel endpoints
  // ---------------------------------------------------------------------------

  datatype VesselEndpoint = ExpectedArrivals | Imports | ExpectedDepartures | Anchored

  /** The status an endpoint writes over the generated one, if any. */
  function StatusOverride(e: VesselEndpoint): Option<string> {
    match e
    case ExpectedArrivals => None
    case Imports => Some("Discharging")
    case ExpectedDepartures => Some("Departing soon")
    case Anchored => Some("Anchored")
  }

  /** `config.params?.terminalId || 't1'`. */
  function ResolveTerminalId(param: Option<string>): string {
    OrString(param, "t1")
  }

  /** `{ ...v, status }`. */
  function WithStatus(v: MockVessel, status: Option<string>): MockVessel {
    if status.Some? then v.(status := status.value) else v
  }

  /** The reply of a vessel endpoint: every vessel for "all", the terminal's
      vessels otherwise, with the endpoint's status written over each. */
  function Vessels(e: VesselEndpoint, terminalIdParam: Option<string>): (r: seq<MockVessel>)
    ensures var id := ResolveTerminalId(terminalIdParam);
      var base := if id == "all" then AllVessels() else VesselsFor(id);
      |r| == |base|
      && forall i :: 0 <= i < |r| ==>
           r[i].id == base[i].id && r[i].name == base[i].name && r[i].eta == base[i].eta
           && r[i].status == StatusOverride(e).GetOr(base[i].status)
  {
    var id := ResolveTerminalId(terminalIdParam);
    var base := if id == "all" then AllVessels() else VesselsFor(id);
    seq(|base|, i requires 0 <= i < |base| => WithStatus(base[i], StatusOverride(e)))
  }

  /** A missing or empty terminal id reads as "t1". */
  lemma MissingTerminalIsT1(e: VesselEndpoint)
    ensures Vessels(e, None) == Vessels(e, Some("")) == Vessels(e, Some("t1"))
  {
  }

  /** Asking for "all" is asking for each terminal in turn. */
  lemma AllIsEachTerminal(e: VesselEndpoint)
    ensures Vessels(e, Some("all")) == Vessels(e, Some("t1")) + Vessels(e, Some("t2"))
  {
    var all := Vessels(e, Some("all"));
    var t1 := Vessels(e, Some("t1"));
    var t2 := Vessels(e, Some("t2"));
    assert AllVessels()[..2] == VesselsFor("t1");
    assert AllVessels()[2..] == VesselsFor("t2");
    assert all[..2] == t1;
    assert all[2..] == t2;
    assert all == all[..2] + all[2..];
  }

  // ---------------------------------------------------------------------------
  // Cargo list
  // ---------------------------------------------------------------------------

  datatype MockCargo = MockCargo(id: string, reference: string, cargoType: string, status: string, lastUpdated: string)

  /** The reply of the plain cargo endpoint: two fixed rows for the terminal. */
  function CargoList(terminalIdParam: Option<string>): (r: seq<MockCargo>)
    ensures |r| == 2
    ensures var id := ResolveTerminalId(terminalIdParam);
      r[0].id == "c1-" + id && r[1].id == "c2-" + id
      && r[0].reference == "REF-" + id + "-001" && r[1].reference == "REF-" + id + "-002"
  {
    var id := ResolveTerminalId(terminalIdParam);
    [ MockCargo("c1-" + id, "REF-" + id + "-001", "Container", "Arrived", "2025-08-18T09:00:00Z"),
      MockCargo("c2-" + id, "REF-" + id + "-002", "Bulk", "In transit", "2025-08-17T12:00:00Z") ]
  }

  // ---------------------------------------------------------------------------
  // Cargo search
  // ---------------------------------------------------------------------------

  const References: seq<string> := ["600BRG40-001", "600BRG40-XYZ", "ABCD1234", "EFGH5678"]

  /** The generated cargo of index `idx` for a terminal: type and status by parity. */
  function PoolItem(terminal: string, idx: nat): (r: MockCargo)
    requires idx < |References|
    ensures r.id == ['c', DigitChar(idx + 1), '-'] + terminal
    ensures r.reference == References[idx]
    ensures (r.cargoType == "Container") == (r.status == "Arrived") == (idx % 2 == 0)
  {
    assert NatToString(idx + 1) == [DigitChar(idx + 1)];
    MockCargo("c" + NatToString(idx + 1) + "-" + terminal, References[idx],
              if idx % 2 == 0 then "Container" else "Bulk",
              if idx % 2 == 0 then "Arrived" else "In transit",
              "2025-08-18T09:00:00Z")
  }

  /** The four searchable cargo rows of one terminal. */
  function CargoFor(terminal: string): (r: seq<MockCargo>)
    ensures |r| == 4
    ensures forall i :: 0 <= i < 4 ==> r[i] == PoolItem(terminal, i)
  {
    seq(4, i requires 0 <= i < 4 => PoolItem(terminal, i))
  }

  /** The rows of every terminal, grouped by terminal in terminal order. */
  function CargoOf(ts: seq<MockTerminal>): (r: seq<MockCargo>)
    ensures |r| == 4 * |ts|
  {
    if ts == [] then [] else CargoFor(ts[0].id) + CargoOf(ts[1..])
  }

  /** The rows of the `j`-th terminal form the `j`-th block of four. */
  lemma {:induction false} CargoOfGroups(ts: seq<MockTerminal>, j: nat)
    requires j < |ts|
    ensures CargoOf(ts)[4 * j..4 * j + 4] == CargoFor(ts[j].id)
  {
    var r := CargoOf(ts);
    if j == 0 {
      assert r[..4] == CargoFor(ts[0].id);
    } else {
      CargoOfGroups(ts[1..], j - 1);
      assert r[4..] == CargoOf(ts[1..]);
      assert r[4 * j..4 * j + 4] == CargoOf(ts[1..])[4 * (j - 1)..4 * (j - 1) + 4];
    }
  }

  /** The search pool: one terminal's rows when a code is given, every
      terminal's rows otherwise. */
  function Pool(terminalCode: Option<string>): (r: seq<MockCargo>)
    ensures |r| == if terminalCode.Some? && terminalCode.value != "" then 4 else 4 * |MockTerminals|
  {
    if terminalCode.Some? && terminalCode.value != "" then CargoFor(terminalCode.value)
    else CargoOf(MockTerminals)
  }

  /** With a terminal code the pool is that terminal's four rows, c1..c4. */
  lemma PoolOfTerminal(code: string)
    requires code != ""
    ensures |Pool(Some(code))| == 4
    ensures forall i :: 0 <= i < 4 ==> Pool(Some(code))[i].id == ['c', DigitChar(i + 1), '-'] + code
  {
    forall i | 0 <= i < 4
      ensures Pool(Some(code))[i].id == ['c', DigitChar(i + 1), '-'] + code
    {
      assert NatToString(i + 1) == [DigitChar(i + 1)];
    }
  }

  /** Without a terminal code the pool is every terminal's rows, grouped by
      terminal in terminal order. */
  lemma PoolOfAll(terminalCode: Option<string>)
    requires terminalCode.None? || terminalCode.value == ""
    ensures Pool(terminalCode) == CargoFor("t1") + CargoFor("t2")
  {
    assert MockTerminals[1..] == [MockTerminal("t2", "Terminal B")];
    assert CargoOf(MockTerminals[1..]) == CargoFor("t2") + CargoOf([]);
  }

  /** In every pool the references cycle through the fixed list, and type and
      status alternate with the index. */
  lemma PoolParity(terminalCode: Option<string>, i: nat)
    requires i < |Pool(terminalCode)|
    ensures Pool(terminalCode)[i].reference == References[i % 4]
    ensures Pool(terminalCode)[i].cargoType == (if i % 2 == 0 then "Container" else "Bulk")
    ensures Pool(terminalCode)[i].status == (if i % 2 == 0 then "Arrived" else "In transit")
  {
    var pool := Pool(terminalCode);
    var terminal, k;
    if terminalCode.Some? && terminalCode.value != "" {
      terminal, k := terminalCode.value, i;
    } else {
      PoolOfAll(terminalCode);
      if i < 4 {
        terminal, k := "t1", i;
      } else {
        terminal, k := "t2", i - 4;
        assert pool[i] == CargoFor("t2")[k];
      }
    }
    assert pool[i] == PoolItem(terminal, k);
    assert k == i % 4 && k % 2 == i % 2;
  }

  /** The search operator: the parameter, or "Contains" when it is missing or empty. */
  function ResolveOperator(param: Option<string>): string {
    OrString(param, "Contains")
  }

  /** `matches(ref)`: an empty search matches everything; otherwise the operator
      chooses equality, prefix or substring, all ignoring ASCII case; an
      unknown operator falls through to the substring test. */
  function Matches(reference: string, search: string, operator: string): (b: bool)
    ensures search == "" ==> b
    ensures search != "" && operator == "Equals" ==> (b <==> EqualsIgnoreCase(reference, search))
    ensures search != "" && operator == "StartsWith" ==> (b <==> Lower(search) <= Lower(reference))
    ensures search != "" && operator != "Equals" && operator != "StartsWith" ==>
      (b <==> exists i :: OccursAt(Lower(reference), Lower(search), i))
  {
    ContainsIff(Lower(reference), Lower(search));
    if search == "" then true
    else if operator == "Equals" then Lower(reference) == Lower(search)
    else if operator == "StartsWith" then StartsWith(Lower(reference), Lower(search))
    else Contains(Lower(reference), Lower(search))
  }

  /** A missing or empty operator behaves as "Contains", and so does any
      operator the matcher does not know. */
  lemma MissingOperatorIsContains(reference: string, search: string, unknown: string)
    requires unknown != "Equals" && unknown != "StartsWith"
    ensures Matches(reference, search, ResolveOperator(None)) == Matches(reference, search, "Contains")
    ensures Matches(reference, search, ResolveOperator(Some(""))) == Matches(reference, search, "Contains")
    ensures Matches(reference, search, unknown) == Matches(reference, search, "Contains")
  {
  }

  /** The operators are ordered by strength: an equal reference starts with the
      search, and a reference that starts with it contains it. */
  lemma OperatorStrength(reference: string, search: string)
    ensures Matches(reference, search, "Equals") ==> Matches(reference, search, "StartsWith")
    ensures Matches(reference, search, "StartsWith") ==> Matches(reference, search, "Contains")
  {
    if search != "" && Lower(search) <= Lower(reference) {
      assert OccursAt(Lower(reference), Lower(search), 0);
    }
  }

  /** The cargo search: the pool rows whose reference matches, in pool order. */
  function Search(searchParam: Option<string>, operatorParam: Option<string>, terminalCode: Option<string>)
    : (r: seq<MockCargo>)
    ensures |r| <= |Pool(terminalCode)|
    ensures forall j :: 0 <= j < |r| ==>
      r[j] in Pool(terminalCode)
      && Matches(r[j].reference, searchParam.GetOr(""), ResolveOperator(operatorParam))
    ensures forall i :: 0 <= i < |Pool(terminalCode)| ==>
      (Matches(Pool(terminalCode)[i].reference, searchParam.GetOr(""), ResolveOperator(operatorParam))
       ==> Pool(terminalCode)[i] in r)
  {
    var search := searchParam.GetOr("");
    var op := ResolveOperator(operatorParam);
    Filter((c: MockCargo) => Matches(c.reference, search, op), Pool(terminalCode))
  }

  /** The rows come back in pool order. */
  lemma SearchKeepsPoolOrder(searchParam: Option<string>, operatorParam: Option<string>, terminalCode: Option<string>)
    ensures Subsequence(Search(searchParam, operatorParam, terminalCode), Pool(terminalCode))
  {
    var search := searchParam.GetOr("");
    var op := ResolveOperator(operatorParam);
    FilterIsSubsequence((c: MockCargo) => Matches(c.reference, search, op), Pool(terminalCode));
  }

  /** An empty or missing search string returns the whole pool. */
  lemma EmptySearchReturnsPool(searchParam: Option<string>, operatorParam: Option<string>, terminalCode: Option<string>)
    requires searchParam.GetOr("") == ""
    ensures Search(searchParam, operatorParam, terminalCode) == Pool(terminalCode)
  {
    FilterAll((c: MockCargo) => Matches(c.reference, "", ResolveOperator(operatorParam)), Pool(terminalCode));
  }

  /** Searching every terminal is searching each terminal in turn. */
  lemma SearchAllIsEachTerminal(searchParam: Option<string>, operatorParam: Option<string>)
    ensures Search(searchParam, operatorParam, None)
         == Search(searchParam, operatorParam, Some("t1")) + Search(searchParam, operatorParam, Some("t2"))
  {
    var search := searchParam.GetOr("");
    var op := ResolveOperator(operatorParam);
    PoolOfAll(None);
    FilterAppend((c: MockCargo) => Matches(c.reference, search, op), CargoFor("t1"), CargoFor("t2"));
  }
}
