/** The search page's submit handler (app/components/SearchClient.tsx): the request
    body it sends, the order in which it lists the hospitals of the response, and
    the `loading` / `results` state it keeps around the request. */
module SearchClient {
  import opened Wrappers
  import opened SearchRoute

  /* ---------------- Data model ---------------- */

  datatype SearchMode = Now | DateTime

  datatype Location = Location(lat: real, lng: real)

  /** One hospital of the response; `distance` is missing when the place had no coordinates. */
  datatype Hospital = Hospital(
    name: string,
    address: string,
    lat: real,
    lng: real,
    distance: Option<real>,
    openStatus: OpenStatus,
    minutesToOpen: Option<int>,
    breakTime: Option<string>,
    placeId: string,
    website: Option<string>,
    phone: Option<string>)

  /** The JSON body posted to the search endpoint; the visit fields are absent outside `datetime` mode. */
  datatype RequestBody = RequestBody(
    department: string,
    lat: real,
    lng: real,
    mode: string,
    visitDate: Option<string>,
    visitTime: Option<string>)

  /** What the `fetch` and `res.json()` of one submission give: the hospitals, or a thrown error. */
  datatype FetchOutcome = Received(data: seq<Hospital>) | Failed

  /** The department searched for when the symptom field is empty ("internal medicine"). */
  const DefaultDepartment: string := "\U{5185}\U{79D1}"

  /* ---------------- Request body ---------------- */

  function ModeName(mode: SearchMode): string
  {
    match mode
    case Now => "now"
    case DateTime => "datetime"
  }

  /** The body built in `handleSubmit`: `symptom || "内科"`, the location, the mode, and the visit date and time in `datetime` mode only. */
  function BuildRequestBody(symptom: string, loc: Location, mode: SearchMode, visitDate: string, visitTime: string): (b: RequestBody)
    ensures b.department != ""
    ensures symptom != "" ==> b.department == symptom
    ensures symptom == "" ==> b.department == DefaultDepartment
    ensures b.lat == loc.lat && b.lng == loc.lng
    ensures b.mode == ModeName(mode)
    ensures b.visitDate.Some? <==> mode == DateTime
    ensures b.visitTime.Some? <==> mode == DateTime
    ensures mode == DateTime ==> b.visitDate == Some(visitDate) && b.visitTime == Some(visitTime)
  {
    var department := if symptom != "" then symptom else DefaultDepartment;
    var base := RequestBody(department, loc.lat, loc.lng, ModeName(mode), None, None);
    if mode == DateTime then base.(visitDate := Some(visitDate), visitTime := Some(visitTime)) else base
  }

  /** The endpoint takes `open_now` exactly for a "now" search, and the chosen visit date and time
      exactly for a `datetime` search whose date and time fields are both filled. */
  lemma RequestSelectsStatusSource(symptom: string, loc: Location, mode: SearchMode, visitDate: string, visitTime: string)
    ensures var b := BuildRequestBody(symptom, loc, mode, visitDate, visitTime);
      && (IsNowMode(b.mode) <==> mode == Now)
      && (UsesVisitTime(b.mode, b.visitDate, b.visitTime) <==> mode == DateTime && visitDate != "" && visitTime != "")
  {
  }

  /* ---------------- Result order ---------------- */

  /** The `order` table of the comparator. */
  function StatusRank(s: OpenStatus): (r: nat)
    ensures r < 4
  {
    match s
    case Open => 0
    case Break => 1
    case Closed => 2
    case Unknown => 3
  }

  /** The listing order the page promises: open, then on a break, then closed, then unknown. */
  predicate StatusBefore(s: OpenStatus, t: OpenStatus)
  {
    (s == Open && t != Open) || (s == Break && (t == Closed || t == Unknown)) || (s == Closed && t == Unknown)
  }

  /** The rank table lists the statuses in the promised order and gives each its own rank. */
  lemma RankFollowsListingOrder(s: OpenStatus, t: OpenStatus)
    ensures StatusRank(s) < StatusRank(t) <==> StatusBefore(s, t)
    ensures StatusRank(s) == StatusRank(t) <==> s == t
  {
  }

  /** The sort comparator: negative when `a` goes first. Hospitals with different statuses are
      never tied and go in the listing order of their statuses; hospitals with the same status are
      tied as soon as one distance is missing. */
  function Compare(a: Hospital, b: Hospital): (r: real)
    ensures a.openStatus != b.openStatus ==> r != 0.0 && (r < 0.0 <==> StatusBefore(a.openStatus, b.openStatus))
    ensures a.openStatus == b.openStatus && (a.distance.None? || b.distance.None?) ==> r == 0.0
  {
    if a.openStatus != b.openStatus then
      (StatusRank(a.openStatus) - StatusRank(b.openStatus)) as real
    else if a.distance.Some? && b.distance.Some? then
      a.distance.value - b.distance.value
    else
      0.0
  }

  /** `a` may come before `b`. */
  predicate Precedes(a: Hospital, b: Hospital)
  {
    Compare(a, b) <= 0.0
  }

  /** Swapping the arguments negates the result. */
  lemma CompareAntisymmetric(a: Hospital, b: Hospital)
    ensures Compare(a, b) == -Compare(b, a)
  {
  }

  /** Hospitals with the same status and both distances known go nearest first. */
  lemma CompareByDistance(a: Hospital, b: Hospital)
    requires a.openStatus == b.openStatus && a.distance.Some? && b.distance.Some?
    ensures Compare(a, b) < 0.0 <==> a.distance.value < b.distance.value
    ensures Compare(a, b) == 0.0 <==> a.distance.value == b.distance.value
  {
  }

  predicate HasDistance(h: Hospital) { h.distance.Some? }

  /** With every distance known, `Precedes` is a total preorder and ties are an equivalence. */
  lemma TotalPreorderWithDistances(a: Hospital, b: Hospital, c: Hospital)
    requires HasDistance(a) && HasDistance(b) && HasDistance(c)
    ensures Precedes(a, a)
    ensures Precedes(a, b) || Precedes(b, a)
    ensures Precedes(a, b) && Precedes(b, c) ==> Precedes(a, c)
    ensures Compare(a, b) == 0.0 && Compare(b, c) == 0.0 ==> Compare(a, c) == 0.0
  {
  }

  /** One hospital without a distance, tied with two others that are not tied with each other:
      `Precedes` is not transitive and the comparator is not consistent. */
  lemma MissingDistanceBreaksTransitivity()
    ensures exists a, b, c :: (Precedes(a, b) && Precedes(b, c) && !Precedes(a, c)
      && Compare(a, b) == 0.0 && Compare(b, c) == 0.0 && Compare(a, c) != 0.0)
  {
    var far := Hospital("A", "", 0.0, 0.0, Some(3.0), Open, None, None, "a", None, None);
    var unplaced := Hospital("B", "", 0.0, 0.0, None, Open, None, None, "b", None, None);
    var near := Hospital("C", "", 0.0, 0.0, Some(1.0), Open, None, None, "c", None, None);
    assert Compare(far, unplaced) == 0.0 && Compare(unplaced, near) == 0.0 && Compare(far, near) == 2.0;
  }

  /* ---------------- Sorting the response ---------------- */

  /** Inserts `x` before the first element that the comparator does not put strictly before it,
      so `x` stays ahead of the elements it ties with: the sort is stable. */
  function Insert(x: Hospital, s: seq<Hospital>): (r: seq<Hospital>)
    ensures multiset(r) == multiset(s) + multiset{x}
  {
    if s == [] then [x]
    else
      assert s == [s[0]] + s[1..];
      if Compare(x, s[0]) > 0.0 then [s[0]] + Insert(x, s[1..]) else [x] + s
  }

  /** `[...data].sort(compare)`, as an insertion sort. */
  function SortHospitals(data: seq<Hospital>): (r: seq<Hospital>)
    ensures multiset(r) == multiset(data)
  {
    if data == [] then []
    else
      assert data == [data[0]] + data[1..];
      Insert(data[0], SortHospitals(data[1..]))
  }

  ghost predicate RankSorted(s: seq<Hospital>)
  {
    forall i, j :: 0 <= i < j < |s| ==> StatusRank(s[i].openStatus) <= StatusRank(s[j].openStatus)
  }

  ghost predicate Sorted(s: seq<Hospital>)
  {
    forall i, j :: 0 <= i < j < |s| ==> Precedes(s[i], s[j])
  }

  lemma {:induction false} InsertRankSorted(x: Hospital, s: seq<Hospital>)
    requires RankSorted(s)
    ensures RankSorted(Insert(x, s))
  {
    if s != [] && Compare(x, s[0]) > 0.0 {
      InsertRankSorted(x, s[1..]);
      var r := Insert(x, s[1..]);
      forall y | y in r ensures StatusRank(s[0].openStatus) <= StatusRank(y.openStatus) {
        assert y in multiset(r);
        if y != x {
          assert y in s[1..];
        }
      }
      assert forall j :: 0 < j < |[s[0]] + r| ==> ([s[0]] + r)[j] in r;
    }
  }

  /** Whatever the distances, the sorted list is a permutation of the response in status order. */
  lemma {:induction false} SortedByStatus(data: seq<Hospital>)
    ensures RankSorted(SortHospitals(data))
    ensures multiset(SortHospitals(data)) == multiset(data)
  {
    if data != [] {
      SortedByStatus(data[1..]);
      InsertRankSorted(data[0], SortHospitals(data[1..]));
    }
  }

  lemma {:induction false} InsertSorted(x: Hospital, s: seq<Hospital>)
    requires Sorted(s)
    requires HasDistance(x) && forall h :: h in s ==> HasDistance(h)
    ensures Sorted(Insert(x, s))
  {
    if s != [] {
      if Compare(x, s[0]) > 0.0 {
        CompareAntisymmetric(x, s[0]);
        InsertSorted(x, s[1..]);
        var r := Insert(x, s[1..]);
        forall y | y in r ensures Precedes(s[0], y) {
          assert y in multiset(r);
          if y != x {
            assert y in s[1..];
          }
        }
        assert forall j :: 0 < j < |[s[0]] + r| ==> ([s[0]] + r)[j] in r;
      } else {
        forall j | 0 <= j < |s| ensures Precedes(x, s[j]) {
          TotalPreorderWithDistances(x, s[0], s[j]);
        }
      }
    }
  }

  /** With every distance known, the sorted list is ordered by the comparator: status first, then nearest first. */
  lemma {:induction false} SortedWhenDistancesKnown(data: seq<Hospital>)
    requires forall h :: h in data ==> HasDistance(h)
    ensures Sorted(SortHospitals(data))
  {
    if data != [] {
      SortedWhenDistancesKnown(data[1..]);
      var rest := SortHospitals(data[1..]);
      forall h | h in rest ensures HasDistance(h) {
        assert h in multiset(rest);
        assert h in data[1..];
      }
      InsertSorted(data[0], rest);
    }
  }

  /** The hospitals of `s` that the comparator ties with `h`, in their order in `s`. */
  function TiedWith(s: seq<Hospital>, h: Hospital): (r: seq<Hospital>)
    ensures forall y :: y in r <==> y in s && Compare(y, h) == 0.0
  {
    if s == [] then []
    else (if Compare(s[0], h) == 0.0 then [s[0]] else []) + TiedWith(s[1..], h)
  }

  lemma SwapPrefixes(a: seq<Hospital>, b: seq<Hospital>, c: seq<Hospital>)
    requires a == [] || b == []
    ensures a + (b + c) == b + (a + c)
  {
  }

  /** `[y]` when the comparator ties `y` with `h`, else nothing. */
  function TieHead(y: Hospital, h: Hospital): seq<Hospital>
  {
    if Compare(y, h) == 0.0 then [y] else []
  }

  /** Unfolds `TiedWith` on a list with a known head. */
  lemma TiedWithCons(y: Hospital, t: seq<Hospital>, h: Hospital)
    ensures TiedWith([y] + t, h) == TieHead(y, h) + TiedWith(t, h)
  {
    assert ([y] + t)[1..] == t;
  }

  /** One step of `Insert` past `s[0]` keeps the tie classes of `[x] + s`, given that it keeps
      those of `[x] + s[1..]` and that `x` and `s[0]` are not both tied with `h`. */
  lemma InsertStepKeepsTieOrder(x: Hospital, s: seq<Hospital>, h: Hospital)
    requires s != [] && Compare(x, s[0]) > 0.0
    requires TiedWith(Insert(x, s[1..]), h) == TiedWith([x] + s[1..], h)
    requires Compare(x, h) != 0.0 || Compare(s[0], h) != 0.0
    ensures TiedWith(Insert(x, s), h) == TiedWith([x] + s, h)
  {
    var head, tail := s[0], s[1..];
    var inserted := Insert(x, tail);
    var rest := TiedWith(tail, h);
    assert Insert(x, s) == [head] + inserted;
    assert s == [head] + tail;
    TiedWithCons(head, inserted, h);
    TiedWithCons(x, tail, h);
    TiedWithCons(head, tail, h);
    TiedWithCons(x, s, h);
    assert TiedWith(Insert(x, s), h) == TieHead(head, h) + (TieHead(x, h) + rest);
    assert TiedWith([x] + s, h) == TieHead(x, h) + (TieHead(head, h) + rest);
    SwapPrefixes(TieHead(head, h), TieHead(x, h), rest);
  }

  /** With every distance known, inserting `x` leaves every class of tied hospitals in the order
      of `[x] + s`: `x` moves past only hospitals it is not tied with. */
  lemma {:induction false} InsertKeepsTieOrder(x: Hospital, s: seq<Hospital>, h: Hospital)
    requires HasDistance(x) && HasDistance(h) && forall y :: y in s ==> HasDistance(y)
    ensures TiedWith(Insert(x, s), h) == TiedWith([x] + s, h)
  {
    if s != [] && Compare(x, s[0]) > 0.0 {
      InsertKeepsTieOrder(x, s[1..], h);
      // `x` and `s[0]` are not tied, so at most one of them is tied with `h`.
      TotalPreorderWithDistances(x, h, s[0]);
      CompareAntisymmetric(s[0], h);
      InsertStepKeepsTieOrder(x, s, h);
    }
  }

  /** With every distance known, the sort is stable: hospitals the comparator ties keep the
      order they had in the response. */
  lemma {:induction false} SortKeepsTieOrder(data: seq<Hospital>, h: Hospital)
    requires HasDistance(h) && forall y :: y in data ==> HasDistance(y)
    ensures TiedWith(SortHospitals(data), h) == TiedWith(data, h)
  {
    if data != [] {
      SortKeepsTieOrder(data[1..], h);
      var rest := SortHospitals(data[1..]);
      forall y | y in rest ensures HasDistance(y) {
        assert y in multiset(rest);
        assert y in data[1..];
      }
      InsertKeepsTieOrder(data[0], rest, h);
      assert ([data[0]] + rest)[1..] == rest;
    }
  }

  /** Whatever the distances, a response already in comparator order comes back unchanged; in
      particular hospitals tied because a distance is missing keep the response's order. */
  lemma {:induction false} SortKeepsSortedInput(data: seq<Hospital>)
    requires Sorted(data)
    ensures SortHospitals(data) == data
  {
    if data != [] {
      assert Sorted(data[1..]);
      SortKeepsSortedInput(data[1..]);
      assert data == [data[0]] + data[1..];
      if |data| > 1 {
        assert Precedes(data[0], data[1]);
      }
    }
  }

  /** Two open hospitals without coordinates are listed in the order the endpoint returned them. */
  lemma TiesKeepResponseOrder()
    ensures var first := Hospital("A", "", 0.0, 0.0, None, Open, None, None, "a", None, None);
      var second := Hospital("B", "", 0.0, 0.0, None, Open, None, None, "b", None, None);
      SortHospitals([first, second]) == [first, second]
      && SortHospitals([second, first]) == [second, first]
  {
    var first := Hospital("A", "", 0.0, 0.0, None, Open, None, None, "a", None, None);
    var second := Hospital("B", "", 0.0, 0.0, None, Open, None, None, "b", None, None);
    assert [first, second][1..] == [second];
    assert [second, first][1..] == [first];
  }

  /* ---------------- Submission state ---------------- */

  /** `s.slice(0, n)`: the first `n` characters, or all of `s` when it is shorter. */
  function Prefix(s: string, n: nat): (r: string)
    ensures |r| == if |s| < n then |s| else n
    ensures forall i :: 0 <= i < |r| ==> r[i] == s[i]
  {
    if |s| <= n then s else s[..n]
  }

  /** The component state that `handleSubmit` reads and writes. */
  class SearchPage {
    var symptom: string
    var results: seq<Hospital>
    var location: Option<Location>
    var searchMode: SearchMode
    var visitDate: string
    var visitTime: string
    var loading: bool

    /** The initial state. The visit date is the first ten characters of `toISOString()` of the
        mount time, a UTC calendar date, and the visit time the first five of `toTimeString()`, a
        local clock time; both strings are passed in as the clock gives them. */
    constructor (isoString: string, timeString: string)
      ensures symptom == "" && results == [] && location.None? && searchMode == Now
      ensures visitDate == Prefix(isoString, 10) && visitTime == Prefix(timeString, 5) && !loading
    {
      symptom := "";
      results := [];
      location := None;
      searchMode := Now;
      visitDate := Prefix(isoString, 10);
      visitTime := Prefix(timeString, 5);
      loading := false;
    }

    /** `handleSubmit` up to the `fetch`: nothing without a location; otherwise `loading` is
        set, the previous results are cleared, and the body to post is returned. */
    method Submit() returns (request: Option<RequestBody>)
      modifies this
      ensures old(location).None? ==> request.None? && unchanged(this)
      ensures old(location).Some? ==>
        && location.Some?
        && request == Some(BuildRequestBody(symptom, location.value, searchMode, visitDate, visitTime))
        && loading && results == []
      ensures symptom == old(symptom) && location == old(location) && searchMode == old(searchMode)
      ensures visitDate == old(visitDate) && visitTime == old(visitTime)
    {
      if location.None? {
        return None;
      }
      loading := true;
      results := [];
      request := Some(BuildRequestBody(symptom, location.value, searchMode, visitDate, visitTime));
    }

    /** `handleSubmit` after the `fetch`: on a response the sorted copy becomes the results;
        on an error they stay as they were; `loading` is cleared either way. */
    method Complete(outcome: FetchOutcome)
      modifies this
      ensures !loading
      ensures outcome.Received? ==> results == SortHospitals(outcome.data)
      ensures outcome.Received? ==> multiset(results) == multiset(outcome.data) && RankSorted(results)
      ensures outcome.Failed? ==> results == old(results)
      ensures symptom == old(symptom) && location == old(location) && searchMode == old(searchMode)
      ensures visitDate == old(visitDate) && visitTime == old(visitTime)
    {
      if outcome.Received? {
        SortedByStatus(outcome.data);
        results := SortHospitals(outcome.data);
      }
      loading := false;
    }
  }
}
