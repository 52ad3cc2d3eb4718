/**
  `find_routes`: station resolution, the cache shortcut, the switches
  parameter, the three buckets, the final order and the 250-route cap.
  Station resolution, the cache read and the three timetable queries are
  inputs: the resolved codes, the cached document (if any) and the rows the
  queries return.
 */
module Search {
  import opened Wrappers
  import opened Calendar
  import opened Timestamps
  import opened Json
  import opened CacheRebase
  import opened Routes
  import opened TrainKeys
  import opened Buckets
  import opened Ordering
  import opened SwitchList

  /** The rows the three timetable queries return for one source and destination. */
  datatype Timetable = Timetable(direct: seq<Ride>, conn1: seq<Conn1Row>, conn2: seq<Conn2Row>)

  /** The rows satisfy the join conditions of their queries. */
  predicate TimetableFor(src: string, dst: string, tt: Timetable) {
    && (forall i :: 0 <= i < |tt.direct| ==> DirectJoin(src, dst, tt.direct[i]))
    && Conn1Rows(src, dst, tt.conn1)
    && Conn2Rows(src, dst, tt.conn2)
  }

  /** Every bucket the request asks for, in bucket order, before sorting.
      The connecting buckets exist only when some direct row exists. */
  function AllRoutes(src: string, dst: string, d: Date, counts: seq<int>, tt: Timetable): seq<Route>
    requires ValidDate(d) && TimetableFor(src, dst, tt)
  {
    assert RideRows(tt.direct);
    var fastest := MinDirect(tt.direct);
    var trains := DirectTrains(tt.direct);
    (if 0 in counts then DirectBucket(d, tt.direct) else [])
      + (if 1 in counts && fastest.Some? then OneSwitchBucket(trains, fastest.value, d, src, dst, tt.conn1) else [])
      + (if 2 in counts && fastest.Some? then TwoSwitchBucket(trains, fastest.value, d, src, dst, tt.conn2) else [])
  }

  /** The live search on a parsed date and switch list. */
  function LiveRoutes(src: string, dst: string, d: Date, crit: Criterion, counts: seq<int>, tt: Timetable): seq<Route>
    requires ValidDate(d) && TimetableFor(src, dst, tt)
  {
    Cap(Arrange(crit, AllRoutes(src, dst, d, counts, tt)))
  }

  /** What the search answers: the rebased cached document, or routes. */
  datatype Answer = FromCache(document: Value) | Live(routes: seq<Route>)

  /** Why the search raises. */
  datatype SearchError = BadSwitches(reason: SwitchError) | BadDate

  /** `find_routes`. `srcCode` and `dstCode` are the resolved station codes
      (`None` when a name does not resolve), `cached` the cache entry for
      the pair (`None` when there is no cache, no entry, or the read fails). */
  function FindRoutes(
    srcCode: Option<string>, dstCode: Option<string>, cached: Option<Value>,
    dateText: string, criteria: string, switches: string, tt: Timetable): (r: Result<Answer, SearchError>)
    requires srcCode.Some? && dstCode.Some? ==> TimetableFor(srcCode.value, dstCode.value, tt)
    ensures srcCode.None? || dstCode.None? ==> r == Success(Live([]))
    ensures r.Success? && r.value.FromCache? ==>
              && cached.Some? && ParseDate(dateText).Some?
              && Moved(cached.value, r.value.document, DaysBetween(CanonicalDate, ParseDate(dateText).value))
    ensures r.Success? && r.value.Live? ==> |r.value.routes| <= ResultCap
    ensures r.Failure? ==> srcCode.Some? && dstCode.Some?
    ensures r.Failure? ==> (r.error.BadSwitches? <==> ParseSwitches(switches).Failure?)
    ensures r == Failure(BadDate) ==> ParseDate(dateText).None? && tt.direct != []
  {
    if srcCode.None? || dstCode.None? then Success(Live([]))
    else if cached.Some? && OffsetCachedDates(cached.value, dateText).Success? then
      Success(FromCache(OffsetCachedDates(cached.value, dateText).value))
    else
      match ParseSwitches(switches)
      case Failure(e) => Failure(BadSwitches(e))
      case Success(counts) =>
        match ParseDate(dateText)
        case None => if tt.direct == [] then Success(Live([])) else Failure(BadDate)
        case Some(d) =>
          Success(Live(LiveRoutes(srcCode.value, dstCode.value, d, CriterionOf(criteria), counts, tt)))
  }

  // ---------------------------------------------------------------------------
  // What the search promises

  /** A route the search may return for a request, by shape. */
  predicate Admissible(src: string, dst: string, d: Date, counts: seq<int>, tt: Timetable, r: Route)
    requires ValidDate(d) && TimetableFor(src, dst, tt)
  {
    assert RideRows(tt.direct);
    var fastest := MinDirect(tt.direct);
    var trains := DirectTrains(tt.direct);
    var capped := Capped(tt.conn2);
    Conn2Prefix(src, dst, tt.conn2, |capped|);
    match r
    case Direct(_, _, _, _, _) =>
      && 0 in counts
      && exists i :: 0 <= i < |tt.direct| && r == DirectRoute(d, tt.direct[i])
    case OneSwitch(_, _, _, _, _, _) =>
      && 1 in counts && fastest.Some?
      && Good1(trains, fastest.value, src, dst, r)
      && var acc := Accepted1(trains, fastest.value, d, src, dst, tt.conn1);
         KeyOf(r) in Keys(acc) && r == First(acc, KeyOf(r))
    case TwoSwitch(_, _, _, _, _, _, _, _, _, _) =>
      && 2 in counts && fastest.Some?
      && Good2(trains, fastest.value, src, dst, r)
      && var acc := Accepted2(trains, fastest.value, d, src, dst, capped);
         r in acc && Shortest(acc, r)
  }

  lemma DirectBucketAdmissible(src: string, dst: string, d: Date, counts: seq<int>, tt: Timetable)
    requires ValidDate(d) && TimetableFor(src, dst, tt) && 0 in counts
    ensures forall r :: r in DirectBucket(d, tt.direct) ==> Admissible(src, dst, d, counts, tt, r)
  {
    assert RideRows(tt.direct);
    var b := DirectBucket(d, tt.direct);
    forall r | r in b ensures Admissible(src, dst, d, counts, tt, r) {
      var i :| 0 <= i < |b| && b[i] == r;
      assert r == DirectRoute(d, tt.direct[i]);
    }
  }

  lemma OneSwitchAdmissible(src: string, dst: string, d: Date, counts: seq<int>, tt: Timetable, fastest: int)
    requires ValidDate(d) && TimetableFor(src, dst, tt) && 1 in counts
    requires MinDirect(tt.direct) == Some(fastest)
    ensures forall r :: r in OneSwitchBucket(DirectTrains(tt.direct), fastest, d, src, dst, tt.conn1)
                        ==> Admissible(src, dst, d, counts, tt, r)
  {
    OneSwitchBucketFacts(DirectTrains(tt.direct), fastest, d, src, dst, tt.conn1);
  }

  lemma TwoSwitchAdmissible(src: string, dst: string, d: Date, counts: seq<int>, tt: Timetable, fastest: int)
    requires ValidDate(d) && TimetableFor(src, dst, tt) && 2 in counts
    requires MinDirect(tt.direct) == Some(fastest)
    ensures forall r :: r in TwoSwitchBucket(DirectTrains(tt.direct), fastest, d, src, dst, tt.conn2)
                        ==> Admissible(src, dst, d, counts, tt, r)
  {
    TwoSwitchBucketFacts(DirectTrains(tt.direct), fastest, d, src, dst, tt.conn2);
  }

  lemma AdmissibleConcat(src: string, dst: string, d: Date, counts: seq<int>, tt: Timetable, s: seq<Route>, t: seq<Route>)
    requires ValidDate(d) && TimetableFor(src, dst, tt)
    requires forall r :: r in s ==> Admissible(src, dst, d, counts, tt, r)
    requires forall r :: r in t ==> Admissible(src, dst, d, counts, tt, r)
    ensures forall r :: r in s + t ==> Admissible(src, dst, d, counts, tt, r)
  {
  }

  /** Every route of every requested bucket is admissible. */
  lemma AllRoutesAdmissible(src: string, dst: string, d: Date, counts: seq<int>, tt: Timetable)
    requires ValidDate(d) && TimetableFor(src, dst, tt)
    ensures forall r :: r in AllRoutes(src, dst, d, counts, tt) ==> Admissible(src, dst, d, counts, tt, r)
  {
    assert RideRows(tt.direct);
    var fastest := MinDirect(tt.direct);
    var trains := DirectTrains(tt.direct);
    var b0 := if 0 in counts then DirectBucket(d, tt.direct) else [];
    var b1 := if 1 in counts && fastest.Some? then OneSwitchBucket(trains, fastest.value, d, src, dst, tt.conn1) else [];
    var b2 := if 2 in counts && fastest.Some? then TwoSwitchBucket(trains, fastest.value, d, src, dst, tt.conn2) else [];
    assert AllRoutes(src, dst, d, counts, tt) == b0 + b1 + b2;
    if 0 in counts {
      DirectBucketAdmissible(src, dst, d, counts, tt);
    }
    if 1 in counts && fastest.Some? {
      OneSwitchAdmissible(src, dst, d, counts, tt, fastest.value);
    }
    if 2 in counts && fastest.Some? {
      TwoSwitchAdmissible(src, dst, d, counts, tt, fastest.value);
    }
    AdmissibleConcat(src, dst, d, counts, tt, b0, b1);
    AdmissibleConcat(src, dst, d, counts, tt, b0 + b1, b2);
  }

  /** Connecting routes in the buckets never share their trains, and without
      a direct row there are no routes at all. */
  lemma AllRoutesApart(src: string, dst: string, d: Date, counts: seq<int>, tt: Timetable)
    requires ValidDate(d) && TimetableFor(src, dst, tt)
    ensures ConnectionsApart(AllRoutes(src, dst, d, counts, tt))
    ensures tt.direct == [] ==> AllRoutes(src, dst, d, counts, tt) == []
  {
    assert RideRows(tt.direct);
    var fastest := MinDirect(tt.direct);
    var trains := DirectTrains(tt.direct);
    var b0 := if 0 in counts then DirectBucket(d, tt.direct) else [];
    var b1 := if 1 in counts && fastest.Some? then OneSwitchBucket(trains, fastest.value, d, src, dst, tt.conn1) else [];
    var b2 := if 2 in counts && fastest.Some? then TwoSwitchBucket(trains, fastest.value, d, src, dst, tt.conn2) else [];
    assert AllRoutes(src, dst, d, counts, tt) == b0 + b1 + b2;
    if 0 in counts {
      DirectBucketShape(d, tt.direct);
    }
    if 1 in counts && fastest.Some? {
      OneSwitchBucketShape(trains, fastest.value, d, src, dst, tt.conn1);
    }
    if 2 in counts && fastest.Some? {
      TwoSwitchBucketShape(trains, fastest.value, d, src, dst, tt.conn2);
    }
    BucketsApart(b0, b1, b2);
  }

  /** Direct routes, then one-switch routes on distinct train pairs, then
      two-switch routes on distinct train triples never put two connecting
      routes on the same trains. */
  lemma BucketsApart(b0: seq<Route>, b1: seq<Route>, b2: seq<Route>)
    requires forall r :: r in b0 ==> r.Direct?
    requires DistinctKeys(b1) && forall r :: r in b1 ==> r.OneSwitch?
    requires DistinctKeys(b2) && forall r :: r in b2 ==> r.TwoSwitch?
    ensures ConnectionsApart(b0 + b1 + b2)
  {
    DirectsApart(b0);
    DistinctApart(b1);
    DistinctApart(b2);
    ConcatApart(b0, b1);
    ConcatApart(b0 + b1, b2);
  }

  lemma DirectsApart(s: seq<Route>)
    requires forall r :: r in s ==> r.Direct?
    ensures ConnectionsApart(s)
  {
    forall i, j | 0 <= i < |s| && 0 <= j < |s| && i != j ensures Apart(s[i], s[j]) {
      assert s[i] in s;
    }
  }

  lemma DistinctApart(s: seq<Route>)
    requires DistinctKeys(s)
    ensures ConnectionsApart(s)
  {
  }

  /** Two apart sequences whose routes have different shapes across them stay apart when joined. */
  lemma ConcatApart(s: seq<Route>, t: seq<Route>)
    requires ConnectionsApart(s) && ConnectionsApart(t)
    requires forall x, y :: x in s && y in t ==> Apart(x, y)
    ensures ConnectionsApart(s + t)
  {
    var r := s + t;
    forall i, j | 0 <= i < |r| && 0 <= j < |r| && i != j ensures Apart(r[i], r[j]) {
      if i < |s| && j < |s| {
        assert r[i] == s[i] && r[j] == s[j];
      } else if i >= |s| && j >= |s| {
        assert r[i] == t[i - |s|] && r[j] == t[j - |s|];
      } else if i < |s| {
        assert r[i] == s[i] && r[i] in s && r[j] == t[j - |s|] && r[j] in t;
      } else {
        assert r[j] == s[j] && r[j] in s && r[i] == t[i - |s|] && r[i] in t;
      }
    }
  }

  lemma PrefixApart(s: seq<Route>, n: nat)
    requires ConnectionsApart(s) && n <= |s|
    ensures ConnectionsApart(s[..n])
  {
    forall i, j | 0 <= i < n && 0 <= j < n && i != j ensures Apart(s[..n][i], s[..n][j]) {
      assert s[..n][i] == s[i] && s[..n][j] == s[j];
    }
  }

  lemma PrefixSorted(c: Criterion, s: seq<Route>, n: nat)
    requires SortedBy(c, s) && n <= |s|
    ensures SortedBy(c, s[..n])
  {
    forall i, j | 0 <= i < j < n ensures SortKey(c, s[..n][i]) <= SortKey(c, s[..n][j]) {
      assert s[..n][i] == s[i] && s[..n][j] == s[j];
    }
  }

  lemma ArrangeFacts(c: Criterion, s: seq<Route>)
    ensures multiset(Arrange(c, s)) == multiset(s)
    ensures c != Unordered ==> SortedBy(c, Arrange(c, s))
    ensures c != Unordered ==> forall k :: WithKey(c, Arrange(c, s), k) == WithKey(c, s, k)
    ensures ConnectionsApart(s) ==> ConnectionsApart(Arrange(c, s))
  {
    if c != Unordered {
      SortCorrect(c, s);
      forall k ensures WithKey(c, Arrange(c, s), k) == WithKey(c, s, k) {
        SortStable(c, s, k);
      }
      if ConnectionsApart(s) {
        SortApart(c, s);
      }
    }
  }

  /** What the live search returns: at most 250 routes, each admissible
      (requested switch count, layovers of 15 minutes to 12 hours, totals
      within 1.25 or 1.5 times the fastest direct journey, no train that
      already runs direct, consistent timestamps, the surviving candidate of
      its trains), no two connecting routes on the same trains, ordered as
      the criterion asks, all of them when there are at most 250, and none
      when no direct train runs. */
  lemma LiveRoutesFacts(src: string, dst: string, d: Date, crit: Criterion, counts: seq<int>, tt: Timetable)
    requires ValidDate(d) && TimetableFor(src, dst, tt)
    ensures var all := AllRoutes(src, dst, d, counts, tt);
            var r := LiveRoutes(src, dst, d, crit, counts, tt);
            && |r| <= ResultCap
            && (forall x :: x in r ==> Admissible(src, dst, d, counts, tt, x))
            && ConnectionsApart(r)
            && (crit != Unordered ==> SortedBy(crit, r))
            && (crit == Unordered ==> r == all[..|r|])
            && (|all| <= ResultCap ==> multiset(r) == multiset(all))
            && (tt.direct == [] ==> r == [])
  {
    var all := AllRoutes(src, dst, d, counts, tt);
    var arranged := Arrange(crit, all);
    var r := Cap(arranged);
    AllRoutesAdmissible(src, dst, d, counts, tt);
    AllRoutesApart(src, dst, d, counts, tt);
    ArrangeFacts(crit, all);
    PrefixApart(arranged, |r|);
    if crit != Unordered {
      PrefixSorted(crit, arranged, |r|);
    }
    forall x | x in r ensures Admissible(src, dst, d, counts, tt, x) {
      assert x in arranged;
      assert x in multiset(arranged);
    }
    if tt.direct == [] {
      assert all == [];
    }
  }

  /** Fastest order puts every route no later than any slower one, and routes
      of equal duration keep their bucket order. */
  lemma FastestIsStable(src: string, dst: string, d: Date, counts: seq<int>, tt: Timetable, k: int)
    requires ValidDate(d) && TimetableFor(src, dst, tt)
    ensures var all := AllRoutes(src, dst, d, counts, tt);
            WithKey(Fastest, Arrange(Fastest, all), k) == WithKey(Fastest, all, k)
  {
    ArrangeFacts(Fastest, AllRoutes(src, dst, d, counts, tt));
  }

  // ---------------------------------------------------------------------------
  // The outcomes of `find_routes`

  /** An unresolved station name gives an empty answer, whatever else is asked. */
  lemma UnresolvedIsEmpty(srcCode: Option<string>, dstCode: Option<string>, cached: Option<Value>,
                          dateText: string, criteria: string, switches: string, tt: Timetable)
    requires srcCode.None? || dstCode.None?
    ensures FindRoutes(srcCode, dstCode, cached, dateText, criteria, switches, tt) == Success(Live([]))
  {
  }

  /** A cached document is served, rebased to the requested date, whenever
      the rebase succeeds; at the canonical date it is served unchanged. */
  lemma CacheHit(src: string, dst: string, doc: Value, dateText: string, criteria: string, switches: string, tt: Timetable)
    requires TimetableFor(src, dst, tt)
    requires OffsetCachedDates(doc, dateText).Success?
    ensures FindRoutes(Some(src), Some(dst), Some(doc), dateText, criteria, switches, tt)
         == Success(FromCache(OffsetCachedDates(doc, dateText).value))
    ensures dateText == FormatDate(CanonicalDate)
         ==> FindRoutes(Some(src), Some(dst), Some(doc), dateText, criteria, switches, tt) == Success(FromCache(doc))
  {
    if dateText == FormatDate(CanonicalDate) {
      CanonicalIsIdentity(doc);
    }
  }

  /** A cache entry whose rebase fails is ignored: the answer is the live one. */
  lemma CacheFailureFallsBack(src: string, dst: string, doc: Value, dateText: string, criteria: string, switches: string, tt: Timetable)
    requires TimetableFor(src, dst, tt)
    requires OffsetCachedDates(doc, dateText).Failure?
    ensures FindRoutes(Some(src), Some(dst), Some(doc), dateText, criteria, switches, tt)
         == FindRoutes(Some(src), Some(dst), None, dateText, criteria, switches, tt)
  {
  }

  /** Without a cached document: a switches text that does not read as
      integers raises; otherwise an unreadable date raises exactly when a
      direct row exists, and a readable one gives the live search. */
  lemma LiveOutcome(src: string, dst: string, dateText: string, criteria: string, switches: string, tt: Timetable)
    requires TimetableFor(src, dst, tt)
    ensures var r := FindRoutes(Some(src), Some(dst), None, dateText, criteria, switches, tt);
            && (ParseSwitches(switches).Failure? <==> r.Failure? && r.error.BadSwitches?)
            && ((ParseSwitches(switches).Success? && ParseDate(dateText).None?)
                  ==> (r == Failure(BadDate) <==> tt.direct != []))
            && ((ParseSwitches(switches).Success? && ParseDate(dateText).Some?)
                  ==> r == Success(Live(LiveRoutes(src, dst, ParseDate(dateText).value,
                                                    CriterionOf(criteria), ParseSwitches(switches).value, tt))))
  {
  }

  /** "all" asks for every bucket. */
  lemma AllSwitches(src: string, dst: string, d: Date, tt: Timetable)
    requires ValidDate(d) && TimetableFor(src, dst, tt)
    ensures ParseSwitches("all") == Success([0, 1, 2])
    ensures forall r :: r in AllRoutes(src, dst, d, [0], tt) ==> r in AllRoutes(src, dst, d, [0, 1, 2], tt)
  {
  }
}
