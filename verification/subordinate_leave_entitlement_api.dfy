/**
 * The subordinate leave-entitlement endpoint: request filters (access check,
 * date-range defaulting or validation, the `deletedLeaveTypes` flag), the
 * entitlement search parameters, and the loop that drops entitlements of
 * deleted leave types and attaches balance and leave type to the rest.
 *
 * The collaborators are inputs: the caller's accessible employee numbers, the
 * current leave period, the leave-period validator, the entitlement search and
 * the balance lookup.
 */
module SubordinateLeaveEntitlementApi {
  import opened Wrappers

  /** The exceptions the endpoint raises, with their messages. */
  datatype ApiError =
    | BadRequest(message: string)
    | InvalidParam(message: string)
    | RecordNotFound(message: string)

  const AccessDeniedMessage: string := "Access Denied"
  const NoLeavePeriodMessage: string := "No Leave Period Found"
  const InvalidDeletedLeaveTypesMessage: string := "Invalid `deletedLeaveTypes` Value"
  const NoRecordsMessage: string := "No Records Found"

  /** The flag's value when the query parameter is absent. */
  const DefaultDeletedLeaveTypes: string := "false"

  /** The request: URL parameter `id` and query parameters `fromDate`, `toDate`, `deletedLeaveTypes`. */
  datatype Request = Request(
    empNumber: int,
    fromDate: Option<string>,
    toDate: Option<string>,
    deletedLeaveTypes: Option<string>)

  /** The current leave period's bounds, entries [0] and [1]. */
  datatype Period = Period(from: string, to: string)

  datatype Filters = Filters(
    empNumber: int,
    fromDate: Option<string>,
    toDate: Option<string>,
    withDeletedLeaveTypes: bool)

  /** The entitlement search parameter holder. */
  datatype SearchParams = SearchParams(empNumber: int, fromDate: Option<string>, toDate: Option<string>)

  datatype LeaveType = LeaveType(id: int, name: string, deleted: bool)

  datatype Entitlement = Entitlement(
    id: int,
    empNumber: int,
    leaveTypeId: int,
    leaveType: LeaveType,
    fromDate: string,
    toDate: string,
    noOfDays: real)

  datatype LeaveBalance = LeaveBalance(entitlement: real, used: real, balance: real)

  /** One response entry: the entitlement merged with its `leaveBalance` and `leaveType`. */
  datatype EntitlementRecord = EntitlementRecord(
    entitlement: Entitlement,
    leaveBalance: LeaveBalance,
    leaveType: LeaveType)

  // ---------------------------------------------------------------------
  // Filters
  // ---------------------------------------------------------------------

  /** PHP `empty` on a query parameter: absent, "" or "0". */
  predicate IsEmpty(p: Option<string>) {
    p.None? || p.value == "" || p.value == "0"
  }

  predicate NoDates(req: Request) {
    IsEmpty(req.fromDate) && IsEmpty(req.toDate)
  }

  /** The `deletedLeaveTypes` text, "false" when absent. */
  function DeletedLeaveTypesText(req: Request): string {
    match req.deletedLeaveTypes
    case Some(v) => v
    case None => DefaultDeletedLeaveTypes
  }

  /** `getFilters`. */
  function GetFilters(
    req: Request,
    accessible: set<int>,
    current: Period,
    periodExists: (Option<string>, Option<string>) -> bool): (r: Result<Filters, ApiError>)
    ensures req.empNumber !in accessible ==> r == Err(BadRequest(AccessDeniedMessage))
    ensures req.empNumber in accessible && !NoDates(req) && !periodExists(req.fromDate, req.toDate)
            ==> r == Err(InvalidParam(NoLeavePeriodMessage))
    ensures req.empNumber in accessible && (NoDates(req) || periodExists(req.fromDate, req.toDate))
            && DeletedLeaveTypesText(req) !in {"true", "false"}
            ==> r == Err(InvalidParam(InvalidDeletedLeaveTypesMessage))
    ensures r.Ok? <==> req.empNumber in accessible
                       && (NoDates(req) || periodExists(req.fromDate, req.toDate))
                       && DeletedLeaveTypesText(req) in {"true", "false"}
    ensures r.Ok? ==> r.value.empNumber == req.empNumber
    ensures r.Ok? ==> (r.value.withDeletedLeaveTypes <==> DeletedLeaveTypesText(req) == "true")
    ensures r.Ok? && NoDates(req) ==> r.value.fromDate == Some(current.from) && r.value.toDate == Some(current.to)
    ensures r.Ok? && !NoDates(req) ==> r.value.fromDate == req.fromDate && r.value.toDate == req.toDate
  {
    if req.empNumber !in accessible then Err(BadRequest(AccessDeniedMessage))
    else
      var dates :=
        if NoDates(req) then Ok((Some(current.from), Some(current.to)))
        else if !periodExists(req.fromDate, req.toDate) then Err(InvalidParam(NoLeavePeriodMessage))
        else Ok((req.fromDate, req.toDate));
      if dates.Err? then Err(dates.error)
      else
        var flag := DeletedLeaveTypesText(req);
        if !(flag == "true" || flag == "false") then Err(InvalidParam(InvalidDeletedLeaveTypesMessage))
        else Ok(Filters(req.empNumber, dates.value.0, dates.value.1, flag == "true"))
  }

  /** `getEntitlementSearchParams`. */
  function EntitlementSearchParams(filters: Filters): SearchParams {
    SearchParams(filters.empNumber, filters.fromDate, filters.toDate)
  }

  /** The search runs for the requested employee over the supplied dates, or over the current period when none are given. */
  lemma SearchParamsFollowRequest(
    req: Request,
    accessible: set<int>,
    current: Period,
    periodExists: (Option<string>, Option<string>) -> bool)
    requires GetFilters(req, accessible, current, periodExists).Ok?
    ensures var p := EntitlementSearchParams(GetFilters(req, accessible, current, periodExists).value);
            && p.empNumber == req.empNumber
            && (NoDates(req) ==> p.fromDate == Some(current.from) && p.toDate == Some(current.to))
            && (!NoDates(req) ==> p.fromDate == req.fromDate && p.toDate == req.toDate)
  {
  }

  // ---------------------------------------------------------------------
  // Entitlements
  // ---------------------------------------------------------------------

  /** Whether an entitlement survives the deleted-leave-type filter. */
  predicate Visible(e: Entitlement, withDeletedLeaveTypes: bool) {
    withDeletedLeaveTypes || !e.leaveType.deleted
  }

  /** The search results that survive the filter, in search order. */
  function Survivors(s: seq<Entitlement>, withDeletedLeaveTypes: bool): (u: seq<Entitlement>)
    ensures |u| <= |s|
    ensures forall e :: e in u <==> e in s && Visible(e, withDeletedLeaveTypes)
  {
    if s == [] then []
    else
      assert forall e :: e in s <==> e == s[0] || e in s[1..];
      (if Visible(s[0], withDeletedLeaveTypes) then [s[0]] else []) + Survivors(s[1..], withDeletedLeaveTypes)
  }

  /** Every position moved one place later. */
  function Shift(idx: seq<nat>): (r: seq<nat>)
    ensures |r| == |idx|
    ensures forall k :: 0 <= k < |r| ==> r[k] == idx[k] + 1
    ensures forall j: nat :: j + 1 in r <==> j in idx
    ensures 0 !in r
  {
    var r := seq(|idx|, k requires 0 <= k < |idx| => idx[k] + 1);
    assert forall j: nat :: j in idx ==> j + 1 in r by {
      forall j: nat | j in idx
        ensures j + 1 in r
      {
        var k :| 0 <= k < |idx| && idx[k] == j;
        assert r[k] == j + 1;
      }
    }
    r
  }

  /** Where each survivor came from: its position in the search result. */
  function SurvivorPositions(s: seq<Entitlement>, withDeletedLeaveTypes: bool): (idx: seq<nat>)
    ensures |idx| == |Survivors(s, withDeletedLeaveTypes)|
  {
    if s == [] then []
    else
      (if Visible(s[0], withDeletedLeaveTypes) then [0] else [])
      + Shift(SurvivorPositions(s[1..], withDeletedLeaveTypes))
  }

  /** `idx` lists, for each entry of `u`, a position of `s` holding it. */
  predicate PositionsOf(idx: seq<nat>, s: seq<Entitlement>, u: seq<Entitlement>) {
    |idx| == |u| && forall k :: 0 <= k < |idx| ==> idx[k] < |s| && s[idx[k]] == u[k]
  }

  lemma {:induction false} SurvivorPositionsPick(s: seq<Entitlement>, withDeletedLeaveTypes: bool)
    ensures PositionsOf(SurvivorPositions(s, withDeletedLeaveTypes), s, Survivors(s, withDeletedLeaveTypes))
  {
    if s != [] {
      var w := withDeletedLeaveTypes;
      var tail := s[1..];
      SurvivorPositionsPick(tail, w);
      var rest := SurvivorPositions(tail, w);
      var kept := Survivors(tail, w);
      var shifted := Shift(rest);
      assert PositionsOf(shifted, s, kept) by {
        forall k | 0 <= k < |shifted|
          ensures shifted[k] < |s| && s[shifted[k]] == kept[k]
        {
          assert s[rest[k] + 1] == tail[rest[k]];
        }
      }
      if Visible(s[0], w) {
        var idx := [0] + shifted;
        var u := [s[0]] + kept;
        assert forall k :: 0 < k < |idx| ==> idx[k] == shifted[k - 1] && u[k] == kept[k - 1];
        assert PositionsOf(idx, s, u);
      }
    }
  }

  predicate StrictlyIncreasing(idx: seq<nat>) {
    forall k, l :: 0 <= k < l < |idx| ==> idx[k] < idx[l]
  }

  lemma ShiftIncreasing(idx: seq<nat>, head: seq<nat>)
    requires StrictlyIncreasing(idx)
    requires head == [] || head == [0]
    ensures StrictlyIncreasing(head + Shift(idx))
  {
    var shifted := Shift(idx);
    var r := head + shifted;
    forall k, l | 0 <= k < l < |r|
      ensures r[k] < r[l]
    {
      var d := |head|;
      assert r[l] == idx[l - d] + 1;
      if k >= d {
        assert r[k] == idx[k - d] + 1;
      }
    }
  }

  lemma {:induction false} SurvivorPositionsIncrease(s: seq<Entitlement>, withDeletedLeaveTypes: bool)
    ensures StrictlyIncreasing(SurvivorPositions(s, withDeletedLeaveTypes))
  {
    if s != [] {
      SurvivorPositionsIncrease(s[1..], withDeletedLeaveTypes);
      ShiftIncreasing(SurvivorPositions(s[1..], withDeletedLeaveTypes),
                      if Visible(s[0], withDeletedLeaveTypes) then [0] else []);
    }
  }

  lemma {:induction false} SurvivorPositionsCover(s: seq<Entitlement>, withDeletedLeaveTypes: bool)
    ensures var idx := SurvivorPositions(s, withDeletedLeaveTypes);
            forall j :: 0 <= j < |s| ==> (Visible(s[j], withDeletedLeaveTypes) <==> j in idx)
  {
    if s != [] {
      var w := withDeletedLeaveTypes;
      SurvivorPositionsCover(s[1..], w);
      var rest := SurvivorPositions(s[1..], w);
      var shifted := Shift(rest);
      var head: seq<nat> := if Visible(s[0], w) then [0] else [];
      var idx := SurvivorPositions(s, w);
      assert idx == head + shifted;
      forall j | 0 <= j < |s|
        ensures Visible(s[j], w) <==> j in idx
      {
        if j > 0 {
          assert s[j] == s[1..][j - 1];
          assert (j - 1) + 1 in shifted <==> j - 1 in rest;
        }
      }
    }
  }

  /**
   * The survivors are the visible search results in search order: they sit at
   * strictly increasing positions of the search result, and those positions
   * are exactly the visible ones.
   */
  lemma SurvivorsInSearchOrder(s: seq<Entitlement>, withDeletedLeaveTypes: bool)
    ensures var idx := SurvivorPositions(s, withDeletedLeaveTypes);
            && PositionsOf(idx, s, Survivors(s, withDeletedLeaveTypes))
            && StrictlyIncreasing(idx)
            && (forall j :: 0 <= j < |s| ==> (Visible(s[j], withDeletedLeaveTypes) <==> j in idx))
  {
    SurvivorPositionsPick(s, withDeletedLeaveTypes);
    SurvivorPositionsIncrease(s, withDeletedLeaveTypes);
    SurvivorPositionsCover(s, withDeletedLeaveTypes);
  }

  lemma {:induction false} SurvivorsAppend(s: seq<Entitlement>, e: Entitlement, withDeletedLeaveTypes: bool)
    ensures Survivors(s + [e], withDeletedLeaveTypes)
            == Survivors(s, withDeletedLeaveTypes) + (if Visible(e, withDeletedLeaveTypes) then [e] else [])
  {
    if s == [] {
      assert [e][1..] == [];
    } else {
      assert (s + [e])[1..] == s[1..] + [e];
      SurvivorsAppend(s[1..], e, withDeletedLeaveTypes);
    }
  }

  /** With `deletedLeaveTypes=true` every search result is kept. */
  lemma {:induction false} SurvivorsKeepAll(s: seq<Entitlement>)
    ensures Survivors(s, true) == s
  {
    if s != [] {
      SurvivorsKeepAll(s[1..]);
    }
  }

  /** When every result has a deleted leave type and the flag is off, nothing survives. */
  lemma AllDeletedLeavesNothing(s: seq<Entitlement>)
    requires forall e :: e in s ==> e.leaveType.deleted
    ensures Survivors(s, false) == []
  {
  }

  /** The response entry built for a surviving entitlement. */
  function Enrich(e: Entitlement, empNumber: int, balanceOf: (int, int) -> LeaveBalance): EntitlementRecord {
    EntitlementRecord(e, balanceOf(empNumber, e.leaveTypeId), e.leaveType)
  }

  /**
   * `out` holds one entry per kept entitlement, in the same order; each carries
   * the balance for (employee, its leave type id) and its own leave type.
   */
  predicate Aggregates(
    out: seq<EntitlementRecord>,
    kept: seq<Entitlement>,
    empNumber: int,
    balanceOf: (int, int) -> LeaveBalance)
  {
    && |out| == |kept|
    && forall k :: 0 <= k < |out| ==>
         && out[k].entitlement == kept[k]
         && out[k].leaveBalance == balanceOf(empNumber, kept[k].leaveTypeId)
         && out[k].leaveType == kept[k].leaveType
  }

  /**
   * `getLeaveEntitlements`: not-found only when the search itself is empty;
   * otherwise one entry per entitlement that survives the filter, in search order.
   */
  method GetLeaveEntitlements(
    filters: Filters,
    search: SearchParams -> seq<Entitlement>,
    balanceOf: (int, int) -> LeaveBalance)
    returns (r: Result<seq<EntitlementRecord>, ApiError>)
    ensures r.Err? <==> search(EntitlementSearchParams(filters)) == []
    ensures r.Err? ==> r.error == RecordNotFound(NoRecordsMessage)
    ensures r.Ok? ==> Aggregates(r.value,
                                 Survivors(search(EntitlementSearchParams(filters)), filters.withDeletedLeaveTypes),
                                 filters.empNumber, balanceOf)
  {
    var searchParameters := EntitlementSearchParams(filters);
    var results := search(searchParameters);
    var empNumber := filters.empNumber;
    if |results| == 0 {
      return Err(RecordNotFound(NoRecordsMessage));
    }
    var withDeletedLeaveTypes := filters.withDeletedLeaveTypes;
    var response: seq<EntitlementRecord> := [];
    var i := 0;
    while i < |results|
      invariant 0 <= i <= |results|
      invariant Aggregates(response, Survivors(results[..i], withDeletedLeaveTypes), empNumber, balanceOf)
    {
      var entitlement := results[i];
      assert results[..i + 1] == results[..i] + [entitlement];
      SurvivorsAppend(results[..i], entitlement, withDeletedLeaveTypes);
      if !withDeletedLeaveTypes && entitlement.leaveType.deleted {
        i := i + 1;
        continue;
      }
      response := response + [Enrich(entitlement, empNumber, balanceOf)];
      i := i + 1;
    }
    assert results[..i] == results;
    r := Ok(response);
  }

  /** `getSubordinateLeaveEntitlement`: the filters, then the entitlements; the first exception wins. */
  method GetSubordinateLeaveEntitlement(
    req: Request,
    accessible: set<int>,
    current: Period,
    periodExists: (Option<string>, Option<string>) -> bool,
    search: SearchParams -> seq<Entitlement>,
    balanceOf: (int, int) -> LeaveBalance)
    returns (r: Result<seq<EntitlementRecord>, ApiError>)
    ensures req.empNumber !in accessible ==> r == Err(BadRequest(AccessDeniedMessage))
    ensures GetFilters(req, accessible, current, periodExists).Err?
            ==> r == Err(GetFilters(req, accessible, current, periodExists).error)
    ensures GetFilters(req, accessible, current, periodExists).Ok? ==>
              var f := GetFilters(req, accessible, current, periodExists).value;
              && (r.Err? <==> search(EntitlementSearchParams(f)) == [])
              && (r.Err? ==> r.error == RecordNotFound(NoRecordsMessage))
              && (r.Ok? ==> Aggregates(r.value, Survivors(search(EntitlementSearchParams(f)), f.withDeletedLeaveTypes),
                                       req.empNumber, balanceOf))
  {
    var filters := GetFilters(req, accessible, current, periodExists);
    if filters.Err? {
      return Err(filters.error);
    }
    r := GetLeaveEntitlements(filters.value, search, balanceOf);
  }

  /**
   * Employee 5, no dates, current period 2024-01-01..2024-12-31, default flag,
   * a search returning an entitlement of a live leave type and one of a deleted
   * one: the filters take the current period and only the first entitlement
   * survives.
   */
  lemma DefaultRequestExample(balanceOf: (int, int) -> LeaveBalance)
    ensures var annual := Entitlement(1, 5, 1, LeaveType(1, "Annual", false), "2024-01-01", "2024-12-31", 10.0);
            var casual := Entitlement(2, 5, 2, LeaveType(2, "Casual", true), "2024-01-01", "2024-12-31", 5.0);
            var f := GetFilters(Request(5, None, None, None), {5}, Period("2024-01-01", "2024-12-31"),
                                (from, to) => false);
            && f == Ok(Filters(5, Some("2024-01-01"), Some("2024-12-31"), false))
            && Survivors([annual, casual], f.value.withDeletedLeaveTypes) == [annual]
  {
    var annual := Entitlement(1, 5, 1, LeaveType(1, "Annual", false), "2024-01-01", "2024-12-31", 10.0);
    var casual := Entitlement(2, 5, 2, LeaveType(2, "Casual", true), "2024-01-01", "2024-12-31", 5.0);
    assert [annual, casual][1..] == [casual];
    assert [casual][1..] == [];
  }
}
