/**
  The three route buckets of the search: the direct routes with their
  fastest duration, the one-switch routes and the two-switch routes, each
  computed the way the search loops compute them, and each related to an
  independent description of what it keeps.
 */
module Buckets {
  import opened Wrappers
  import opened Calendar
  import opened TimeHelpers
  import opened Routes
  import opened TrainKeys

  // ---------------------------------------------------------------------------
  // Direct routes

  predicate RideRows(rows: seq<Ride>) {
    forall i :: 0 <= i < |rows| ==> RideJoin(rows[i])
  }

  /** The fastest direct journey time; `None` stands for the infinite
      starting value when there is no direct row. */
  function MinDirect(rows: seq<Ride>): (m: Option<int>)
    requires RideRows(rows)
    ensures m.None? <==> rows == []
    ensures m.Some? ==> forall i :: 0 <= i < |rows| ==> m.value <= RideMinutes(rows[i])
    ensures m.Some? ==> exists i :: 0 <= i < |rows| && RideMinutes(rows[i]) == m.value
  {
    if rows == [] then None
    else
      RideRowsTail(rows);
      var m := MinDirect(rows[1..]);
      var duration := RideMinutes(rows[0]);
      assert forall i :: 1 <= i < |rows| ==> rows[i] == rows[1..][i - 1];
      if m.None? || duration < m.value then Some(duration) else m
  }

  lemma RideRowsTail(rows: seq<Ride>)
    requires RideRows(rows) && rows != []
    ensures RideRows(rows[1..])
  {
    forall i | 0 <= i < |rows| - 1 ensures RideJoin(rows[1..][i]) {
      assert rows[1..][i] == rows[i + 1];
    }
  }

  /** The train numbers of the direct rows. */
  function DirectTrains(rows: seq<Ride>): set<string> {
    set i | 0 <= i < |rows| :: Train(rows[i])
  }

  /** One direct route per direct row, in row order, none dropped. */
  function DirectBucket(d: Date, rows: seq<Ride>): (r: seq<Route>)
    requires ValidDate(d) && RideRows(rows)
    ensures |r| == |rows|
    ensures forall i :: 0 <= i < |r| ==> r[i] == DirectRoute(d, rows[i])
  {
    if rows == [] then []
    else
      RideRowsTail(rows);
      [DirectRoute(d, rows[0])] + DirectBucket(d, rows[1..])
  }

  // ---------------------------------------------------------------------------
  // One-switch routes

  predicate Conn1Rows(src: string, dst: string, rows: seq<Conn1Row>) {
    forall i :: 0 <= i < |rows| ==> Conn1Join(src, dst, rows[i])
  }

  lemma Conn1Prefix(src: string, dst: string, rows: seq<Conn1Row>, n: nat)
    requires Conn1Rows(src, dst, rows) && n <= |rows|
    ensures Conn1Rows(src, dst, rows[..n])
  {
    forall i | 0 <= i < n ensures Conn1Join(src, dst, rows[..n][i]) {
      assert rows[..n][i] == rows[i];
    }
  }

  /** A row one of whose trains already runs direct is skipped outright. */
  predicate Skip1(trains: set<string>, row: Conn1Row) {
    Train(row.ride1) in trains || Train(row.ride2) in trains
  }

  /** What the one-switch loop accepts: a row not skipped, an allowed
      layover and a total within 1.25 times the fastest direct duration. */
  predicate Accept1(trains: set<string>, fastest: int, d: Date, src: string, dst: string, row: Conn1Row)
    requires ValidDate(d) && Conn1Join(src, dst, row)
  {
    var c := Candidate1(d, src, dst, row);
    !Skip1(trains, row) && LayoverAllowed(c.layover) && 4 * c.total <= 5 * fastest
  }

  /** A one-switch route the search may return. */
  predicate Good1(trains: set<string>, fastest: int, src: string, dst: string, r: Route) {
    && r.OneSwitch? && Consistent(src, dst, r)
    && LayoverAllowed(r.layover)
    && 4 * r.total <= 5 * fastest
    && r.leg1.train !in trains && r.leg2.train !in trains
  }

  /** The accepted candidates, in row order. */
  function Accepted1(trains: set<string>, fastest: int, d: Date, src: string, dst: string, rows: seq<Conn1Row>): seq<Route>
    requires ValidDate(d) && Conn1Rows(src, dst, rows)
  {
    if rows == [] then []
    else
      var init := rows[..|rows| - 1];
      var row := rows[|rows| - 1];
      Conn1Prefix(src, dst, rows, |rows| - 1);
      Accepted1(trains, fastest, d, src, dst, init)
        + (if Accept1(trains, fastest, d, src, dst, row) then [Candidate1(d, src, dst, row)] else [])
  }

  /** The one-switch loop's state: the best-candidate dictionary and the list
      it is copied into after every row that is not skipped. */
  datatype Scan1 = Scan1(best: seq<Route>, emitted: seq<Route>)

  /** One pass of the one-switch loop body over a row whose candidate is `c`. */
  function Step1(st: Scan1, c: Route, skip: bool, accept: bool): Scan1 {
    if skip then st
    else
      var k := KeyOf(c);
      var best :=
        if accept && (k !in Keys(st.best) || Duration(c) < Duration(Lookup(st.best, k)))
        then Put(st.best, c) else st.best;
      Scan1(best, st.emitted + best)
  }

  function Run1(trains: set<string>, fastest: int, d: Date, src: string, dst: string, rows: seq<Conn1Row>): Scan1
    requires ValidDate(d) && Conn1Rows(src, dst, rows)
  {
    if rows == [] then Scan1([], [])
    else
      var init := rows[..|rows| - 1];
      Conn1Prefix(src, dst, rows, |rows| - 1);
      var row := rows[|rows| - 1];
      Step1(Run1(trains, fastest, d, src, dst, init), Candidate1(d, src, dst, row),
            Skip1(trains, row), Accept1(trains, fastest, d, src, dst, row))
  }

  /** The one-switch bucket as the search builds it: the dedup of everything
      the loop emitted. */
  function OneSwitchBucket(trains: set<string>, fastest: int, d: Date, src: string, dst: string, rows: seq<Conn1Row>): seq<Route>
    requires ValidDate(d) && Conn1Rows(src, dst, rows)
  {
    Dedup(Run1(trains, fastest, d, src, dst, rows).emitted)
  }

  lemma DedupSnoc(s: seq<Route>, c: Route)
    ensures Dedup(s + [c]) == Dedup(s) + (if KeyOf(c) in Keys(s) then [] else [c])
  {
    DedupFromConcat(s, [c], {});
    assert {} + Keys(s) == Keys(s);
    assert [c][1..] == [];
    if KeyOf(c) !in Keys(s) {
      assert DedupFrom([c], Keys(s)) == [c] + DedupFrom([], Keys(s) + {KeyOf(c)});
    }
  }

  lemma KeysSnoc(s: seq<Route>, c: Route)
    ensures Keys(s + [c]) == Keys(s) + {KeyOf(c)}
  {
    KeysConcat(s, [c]);
    assert [c][1..] == [];
  }

  /** Appending a dictionary whose keys were all emitted before adds nothing
      new; appending one with exactly one new key, last, adds that entry. */
  lemma EmitBest(emitted: seq<Route>, best: seq<Route>)
    requires Keys(best) <= Keys(emitted)
    ensures Dedup(emitted + best) == Dedup(emitted)
  {
    DedupFromConcat(emitted, best, {});
    assert {} + Keys(emitted) == Keys(emitted);
    DedupFromCovered(best, Keys(emitted));
  }

  /** The invariant of the one-switch loop, over its state and the accepted list. */
  predicate Inv1(st: Scan1, acc: seq<Route>) {
    && Keys(st.best) == Keys(acc)
    && Keys(st.emitted) == Keys(acc)
    && Dedup(st.emitted) == Dedup(acc)
  }

  /** A row that is not accepted leaves the dictionary alone and re-emits it. */
  lemma Inv1Reject(st: Scan1, acc: seq<Route>)
    requires Inv1(st, acc)
    ensures Inv1(Scan1(st.best, st.emitted + st.best), acc)
  {
    KeysConcat(st.emitted, st.best);
    EmitBest(st.emitted, st.best);
  }

  /** An accepted candidate whose train pair is already in the dictionary adds no key. */
  lemma Inv1Known(st: Scan1, acc: seq<Route>, c: Route, best: seq<Route>)
    requires Inv1(st, acc) && KeyOf(c) in Keys(st.best) && Keys(best) == Keys(st.best)
    ensures Inv1(Scan1(best, st.emitted + best), acc + [c])
  {
    KeysConcat(st.emitted, best);
    KeysSnoc(acc, c);
    DedupSnoc(acc, c);
    EmitBest(st.emitted, best);
  }

  /** An accepted candidate with a new train pair is appended to both. */
  lemma Inv1New(st: Scan1, acc: seq<Route>, c: Route)
    requires Inv1(st, acc) && KeyOf(c) !in Keys(st.best)
    ensures Inv1(Scan1(st.best + [c], st.emitted + (st.best + [c])), acc + [c])
  {
    var best := st.best + [c];
    var k := KeyOf(c);
    KeysConcat(st.emitted, best);
    KeysSnoc(acc, c);
    KeysSnoc(st.best, c);
    DedupSnoc(acc, c);
    DedupFromConcat(st.emitted, best, {});
    assert {} + Keys(st.emitted) == Keys(st.emitted);
    DedupFromConcat(st.best, [c], Keys(st.emitted));
    DedupFromCovered(st.best, Keys(st.emitted));
    assert Keys(st.emitted) + Keys(st.best) == Keys(st.emitted);
    assert [c][1..] == [];
    assert DedupFrom([c], Keys(st.emitted)) == [c] + DedupFrom([], Keys(st.emitted) + {k});
  }

  /** One loop pass keeps the invariant; an accepted row is never a skipped one. */
  lemma Inv1Step(st: Scan1, acc: seq<Route>, c: Route, skip: bool, accept: bool)
    requires Inv1(st, acc) && (accept ==> !skip)
    ensures Inv1(Step1(st, c, skip, accept), acc + (if accept then [c] else []))
  {
    if !skip {
      if !accept {
        assert acc + [] == acc;
        Inv1Reject(st, acc);
      } else if KeyOf(c) in Keys(st.best) {
        Inv1Known(st, acc, c, Step1(st, c, skip, accept).best);
      } else {
        Inv1New(st, acc, c);
      }
    } else {
      assert acc + [] == acc;
    }
  }

  /** The one-switch loop keeps its invariant: the dictionary and the emitted
      list carry exactly the accepted train pairs, and the emitted list
      dedups to the first accepted candidate per pair. */
  lemma {:induction false} Run1Invariant(trains: set<string>, fastest: int, d: Date, src: string, dst: string, rows: seq<Conn1Row>)
    requires ValidDate(d) && Conn1Rows(src, dst, rows)
    ensures Inv1(Run1(trains, fastest, d, src, dst, rows), Accepted1(trains, fastest, d, src, dst, rows))
  {
    if rows != [] {
      var init := rows[..|rows| - 1];
      var row := rows[|rows| - 1];
      Conn1Prefix(src, dst, rows, |rows| - 1);
      Run1Invariant(trains, fastest, d, src, dst, init);
      Inv1Step(Run1(trains, fastest, d, src, dst, init), Accepted1(trains, fastest, d, src, dst, init),
               Candidate1(d, src, dst, row), Skip1(trains, row), Accept1(trains, fastest, d, src, dst, row));
    }
  }

  /** Every accepted candidate satisfies the layover, duration and
      direct-train rules and is a consistent route. */
  lemma Good1Snoc(trains: set<string>, fastest: int, src: string, dst: string, s: seq<Route>, c: Route)
    requires forall x :: x in s ==> Good1(trains, fastest, src, dst, x)
    requires Good1(trains, fastest, src, dst, c)
    ensures forall x :: x in s + [c] ==> Good1(trains, fastest, src, dst, x)
  {
  }

  /** An accepted row's candidate is a route the search may return. */
  lemma Candidate1Good(trains: set<string>, fastest: int, d: Date, src: string, dst: string, row: Conn1Row)
    requires ValidDate(d) && Conn1Join(src, dst, row) && Accept1(trains, fastest, d, src, dst, row)
    ensures Good1(trains, fastest, src, dst, Candidate1(d, src, dst, row))
  {
  }

  lemma {:induction false} Accepted1Good(trains: set<string>, fastest: int, d: Date, src: string, dst: string, rows: seq<Conn1Row>)
    requires ValidDate(d) && Conn1Rows(src, dst, rows)
    ensures forall x :: x in Accepted1(trains, fastest, d, src, dst, rows) ==> Good1(trains, fastest, src, dst, x)
  {
    if rows != [] {
      var init := rows[..|rows| - 1];
      var row := rows[|rows| - 1];
      Conn1Prefix(src, dst, rows, |rows| - 1);
      Accepted1Good(trains, fastest, d, src, dst, init);
      var acc := Accepted1(trains, fastest, d, src, dst, init);
      if Accept1(trains, fastest, d, src, dst, row) {
        var c := Candidate1(d, src, dst, row);
        Candidate1Good(trains, fastest, d, src, dst, row);
        Good1Snoc(trains, fastest, src, dst, acc, c);
      }
    }
  }

  /** The one-switch bucket keeps, for each ordered train pair, the FIRST
      accepted candidate in row order (not necessarily the shortest one),
      in the order the pairs were first accepted. */
  lemma OneSwitchIsFirstAccepted(trains: set<string>, fastest: int, d: Date, src: string, dst: string, rows: seq<Conn1Row>)
    requires ValidDate(d) && Conn1Rows(src, dst, rows)
    ensures OneSwitchBucket(trains, fastest, d, src, dst, rows) == Dedup(Accepted1(trains, fastest, d, src, dst, rows))
  {
    Run1Invariant(trains, fastest, d, src, dst, rows);
  }

  /** What the one-switch bucket guarantees: every route is an accepted
      candidate (so it satisfies the layover, duration and direct-train
      rules), the first one accepted for its train pair, and no two routes
      share a train pair. */
  lemma OneSwitchBucketFacts(trains: set<string>, fastest: int, d: Date, src: string, dst: string, rows: seq<Conn1Row>)
    requires ValidDate(d) && Conn1Rows(src, dst, rows)
    ensures var b := OneSwitchBucket(trains, fastest, d, src, dst, rows);
            var acc := Accepted1(trains, fastest, d, src, dst, rows);
            && DistinctKeys(b)
            && Keys(b) == Keys(acc)
            && (forall x :: x in b ==> Good1(trains, fastest, src, dst, x))
            && (forall x :: x in b ==> KeyOf(x) in Keys(acc) && x == First(acc, KeyOf(x)))
  {
    var acc := Accepted1(trains, fastest, d, src, dst, rows);
    OneSwitchIsFirstAccepted(trains, fastest, d, src, dst, rows);
    DedupFromDistinct(acc, {});
    DedupFromKeys(acc, {});
    DedupFromSubset(acc, {});
    Accepted1Good(trains, fastest, d, src, dst, rows);
    forall x | x in Dedup(acc)
      ensures KeyOf(x) in Keys(acc) && x == First(acc, KeyOf(x))
    {
      DedupFromFirst(acc, {}, x);
    }
  }

  lemma OneSwitchBucketShape(trains: set<string>, fastest: int, d: Date, src: string, dst: string, rows: seq<Conn1Row>)
    requires ValidDate(d) && Conn1Rows(src, dst, rows)
    ensures var b := OneSwitchBucket(trains, fastest, d, src, dst, rows);
            DistinctKeys(b) && forall r :: r in b ==> r.OneSwitch?
  {
    OneSwitchBucketFacts(trains, fastest, d, src, dst, rows);
  }

  // ---------------------------------------------------------------------------
  // Two-switch routes

  /** The row cap of the two-switch query. */
  const RowCap := 5000

  function Capped(rows: seq<Conn2Row>): (r: seq<Conn2Row>)
    ensures |r| == if |rows| <= RowCap then |rows| else RowCap
    ensures r == rows[..|r|]
  {
    if |rows| <= RowCap then rows else rows[..RowCap]
  }

  predicate Conn2Rows(src: string, dst: string, rows: seq<Conn2Row>) {
    forall i :: 0 <= i < |rows| ==> Conn2Join(src, dst, rows[i])
  }

  lemma Conn2Prefix(src: string, dst: string, rows: seq<Conn2Row>, n: nat)
    requires Conn2Rows(src, dst, rows) && n <= |rows|
    ensures Conn2Rows(src, dst, rows[..n])
  {
    forall i | 0 <= i < n ensures Conn2Join(src, dst, rows[..n][i]) {
      assert rows[..n][i] == rows[i];
    }
  }

  predicate Skip2(trains: set<string>, row: Conn2Row) {
    Train(row.ride1) in trains || Train(row.ride2) in trains || Train(row.ride3) in trains
  }

  /** What the two-switch loop accepts: both layovers allowed and a total
      within 1.5 times the fastest direct duration. */
  predicate Accept2(trains: set<string>, fastest: int, d: Date, src: string, dst: string, row: Conn2Row)
    requires ValidDate(d) && Conn2Join(src, dst, row)
  {
    var c := Candidate2(d, src, dst, row);
    && !Skip2(trains, row)
    && LayoverAllowed(c.layover) && LayoverAllowed(c.layover2)
    && 2 * c.total <= 3 * fastest
  }

  predicate Good2(trains: set<string>, fastest: int, src: string, dst: string, r: Route) {
    && r.TwoSwitch? && Consistent(src, dst, r)
    && LayoverAllowed(r.layover) && LayoverAllowed(r.layover2)
    && 2 * r.total <= 3 * fastest
    && r.leg1.train !in trains && r.leg2.train !in trains && r.leg3.train !in trains
  }

  function Accepted2(trains: set<string>, fastest: int, d: Date, src: string, dst: string, rows: seq<Conn2Row>): seq<Route>
    requires ValidDate(d) && Conn2Rows(src, dst, rows)
  {
    if rows == [] then []
    else
      var init := rows[..|rows| - 1];
      var row := rows[|rows| - 1];
      Conn2Prefix(src, dst, rows, |rows| - 1);
      Accepted2(trains, fastest, d, src, dst, init)
        + (if Accept2(trains, fastest, d, src, dst, row) then [Candidate2(d, src, dst, row)] else [])
  }

  /** The two-switch loop: only the dictionary, replaced on a strictly shorter total. */
  function Run2(trains: set<string>, fastest: int, d: Date, src: string, dst: string, rows: seq<Conn2Row>): seq<Route>
    requires ValidDate(d) && Conn2Rows(src, dst, rows)
  {
    if rows == [] then []
    else
      var init := rows[..|rows| - 1];
      var row := rows[|rows| - 1];
      Conn2Prefix(src, dst, rows, |rows| - 1);
      Step2(Run2(trains, fastest, d, src, dst, init), Candidate2(d, src, dst, row),
            Accept2(trains, fastest, d, src, dst, row))
  }

  /** One pass of the two-switch loop body over a row whose candidate is `c`. */
  function Step2(best: seq<Route>, c: Route, accept: bool): seq<Route> {
    var k := KeyOf(c);
    if accept && (k !in Keys(best) || Duration(c) < Duration(Lookup(best, k)))
    then Put(best, c) else best
  }

  /** The two-switch bucket as the search builds it: the dictionary values,
      passed through the dedup loop, from at most the first 5000 rows. */
  function TwoSwitchBucket(trains: set<string>, fastest: int, d: Date, src: string, dst: string, rows: seq<Conn2Row>): seq<Route>
    requires ValidDate(d) && Conn2Rows(src, dst, rows)
  {
    var capped := Capped(rows);
    Conn2Prefix(src, dst, rows, |capped|);
    Dedup(Run2(trains, fastest, d, src, dst, capped))
  }

  /** `x` has the least total among the accepted candidates sharing its trains. */
  predicate Shortest(acc: seq<Route>, x: Route) {
    forall c :: c in acc && KeyOf(c) == KeyOf(x) ==> Duration(x) <= Duration(c)
  }

  /** The invariant of the two-switch loop, over its dictionary and the accepted list. */
  predicate Inv2(best: seq<Route>, acc: seq<Route>) {
    && DistinctKeys(best)
    && Keys(best) == Keys(acc)
    && (forall x :: x in best ==> x in acc && Shortest(acc, x))
  }

  /** A candidate that is new or strictly shorter replaces its entry. */
  lemma Inv2Put(best: seq<Route>, acc: seq<Route>, c: Route)
    requires Inv2(best, acc)
    requires KeyOf(c) !in Keys(best) || Duration(c) < Duration(Lookup(best, KeyOf(c)))
    ensures Inv2(Put(best, c), acc + [c])
  {
    var k := KeyOf(c);
    var best' := Put(best, c);
    var acc' := acc + [c];
    KeysSnoc(acc, c);
    PutDistinct(best, c);
    forall x | x in best'
      ensures x in acc' && Shortest(acc', x)
    {
      if x == c {
        forall c' | c' in acc' && KeyOf(c') == k
          ensures Duration(c) <= Duration(c')
        {
          if c' != c {
            assert c' in acc;
            KeysMember(acc, k);
            var e := Lookup(best, k);
            assert Shortest(acc, e);
          }
        }
      } else {
        assert x in best && KeyOf(x) != k by {
          if KeyOf(x) == k {
            LookupDistinct(best', x);
            LookupDistinct(best', c);
          }
        }
      }
    }
  }

  /** A candidate no shorter than its existing entry changes nothing. */
  lemma Inv2Keep(best: seq<Route>, acc: seq<Route>, c: Route)
    requires Inv2(best, acc)
    requires KeyOf(c) in Keys(best) && Duration(Lookup(best, KeyOf(c))) <= Duration(c)
    ensures Inv2(best, acc + [c])
  {
    KeysSnoc(acc, c);
    forall x | x in best
      ensures Shortest(acc + [c], x)
    {
      if KeyOf(x) == KeyOf(c) {
        LookupDistinct(best, x);
      }
    }
  }

  lemma Inv2Step(best: seq<Route>, acc: seq<Route>, c: Route, accept: bool)
    requires Inv2(best, acc)
    ensures Inv2(Step2(best, c, accept), acc + (if accept then [c] else []))
  {
    if !accept {
      assert acc + [] == acc;
    } else if KeyOf(c) !in Keys(best) || Duration(c) < Duration(Lookup(best, KeyOf(c))) {
      Inv2Put(best, acc, c);
    } else {
      Inv2Keep(best, acc, c);
    }
  }

  /** The two-switch loop keeps its invariant: distinct train triples, exactly
      the accepted ones, each stored with the least total among the accepted
      candidates on the same trains. */
  lemma {:induction false} Run2Invariant(trains: set<string>, fastest: int, d: Date, src: string, dst: string, rows: seq<Conn2Row>)
    requires ValidDate(d) && Conn2Rows(src, dst, rows)
    ensures Inv2(Run2(trains, fastest, d, src, dst, rows), Accepted2(trains, fastest, d, src, dst, rows))
  {
    if rows != [] {
      var init := rows[..|rows| - 1];
      var row := rows[|rows| - 1];
      Conn2Prefix(src, dst, rows, |rows| - 1);
      Run2Invariant(trains, fastest, d, src, dst, init);
      Inv2Step(Run2(trains, fastest, d, src, dst, init), Accepted2(trains, fastest, d, src, dst, init),
               Candidate2(d, src, dst, row), Accept2(trains, fastest, d, src, dst, row));
    }
  }

  lemma Good2Snoc(trains: set<string>, fastest: int, src: string, dst: string, s: seq<Route>, c: Route)
    requires forall x :: x in s ==> Good2(trains, fastest, src, dst, x)
    requires Good2(trains, fastest, src, dst, c)
    ensures forall x :: x in s + [c] ==> Good2(trains, fastest, src, dst, x)
  {
  }

  /** An accepted row's candidate is a route the search may return. */
  lemma Candidate2Good(trains: set<string>, fastest: int, d: Date, src: string, dst: string, row: Conn2Row)
    requires ValidDate(d) && Conn2Join(src, dst, row) && Accept2(trains, fastest, d, src, dst, row)
    ensures Good2(trains, fastest, src, dst, Candidate2(d, src, dst, row))
  {
  }

  lemma {:induction false} Accepted2Good(trains: set<string>, fastest: int, d: Date, src: string, dst: string, rows: seq<Conn2Row>)
    requires ValidDate(d) && Conn2Rows(src, dst, rows)
    ensures forall x :: x in Accepted2(trains, fastest, d, src, dst, rows) ==> Good2(trains, fastest, src, dst, x)
  {
    if rows != [] {
      var init := rows[..|rows| - 1];
      var row := rows[|rows| - 1];
      Conn2Prefix(src, dst, rows, |rows| - 1);
      Accepted2Good(trains, fastest, d, src, dst, init);
      var acc := Accepted2(trains, fastest, d, src, dst, init);
      if Accept2(trains, fastest, d, src, dst, row) {
        var c := Candidate2(d, src, dst, row);
        Candidate2Good(trains, fastest, d, src, dst, row);
        Good2Snoc(trains, fastest, src, dst, acc, c);
      }
    }
  }

  /** What the two-switch bucket guarantees: every route is an accepted
      candidate with the least total among those sharing its ordered train
      triple, each accepted triple appears exactly once, and the final dedup
      loop drops nothing. */
  lemma TwoSwitchBucketFacts(trains: set<string>, fastest: int, d: Date, src: string, dst: string, rows: seq<Conn2Row>)
    requires ValidDate(d) && Conn2Rows(src, dst, rows)
    ensures var capped := Capped(rows);
            var b := TwoSwitchBucket(trains, fastest, d, src, dst, rows);
            var acc := Accepted2(trains, fastest, d, src, dst, capped);
            && DistinctKeys(b)
            && Keys(b) == Keys(acc)
            && (forall x :: x in b ==> x in acc && Good2(trains, fastest, src, dst, x) && Shortest(acc, x))
  {
    var capped := Capped(rows);
    Conn2Prefix(src, dst, rows, |capped|);
    Run2Invariant(trains, fastest, d, src, dst, capped);
    var best := Run2(trains, fastest, d, src, dst, capped);
    DedupFromIdentity(best, {});
    Accepted2Good(trains, fastest, d, src, dst, capped);
  }

  // ---------------------------------------------------------------------------
  // The order of the two-switch bucket and its choice among equal totals

  /** The first candidate of least total among those of `s` on trains `k`;
      `None` when no candidate uses those trains. */
  function FirstShortest(s: seq<Route>, k: TrainKey): Option<Route> {
    if s == [] then None
    else
      var m := FirstShortest(s[1..], k);
      if KeyOf(s[0]) != k then m
      else if m.None? || Duration(s[0]) <= Duration(m.value) then Some(s[0])
      else m
  }

  /** There is a pick exactly when some candidate uses the trains, and the
      pick is one of those candidates. */
  lemma {:induction false} FirstShortestIn(s: seq<Route>, k: TrainKey)
    ensures FirstShortest(s, k).None? <==> k !in Keys(s)
    ensures FirstShortest(s, k).Some? ==> KeyOf(FirstShortest(s, k).value) == k && FirstShortest(s, k).value in s
  {
    if s != [] {
      FirstShortestIn(s[1..], k);
    }
  }

  /** The pick is no longer than any candidate on its trains, and when it ties
      with candidate `j` it occurs at or before position `j`: among equal
      totals the earliest wins. */
  lemma {:induction false} FirstShortestFirst(s: seq<Route>, k: TrainKey, j: nat)
    requires j < |s| && KeyOf(s[j]) == k
    ensures FirstShortest(s, k).Some?
    ensures Duration(FirstShortest(s, k).value) <= Duration(s[j])
    ensures Duration(FirstShortest(s, k).value) == Duration(s[j]) ==> FirstShortest(s, k).value in s[..j + 1]
  {
    if j > 0 {
      FirstShortestFirst(s[1..], k, j - 1);
      assert s[..j + 1] == [s[0]] + s[1..][..j];
    }
  }

  /** Appending a candidate: it becomes the pick for its trains when it is
      the first on them or strictly shorter than the pick so far. */
  lemma {:induction false} FirstShortestSnoc(s: seq<Route>, c: Route, k: TrainKey)
    ensures FirstShortest(s + [c], k)
         == if KeyOf(c) != k then FirstShortest(s, k)
            else if FirstShortest(s, k).None? || Duration(c) < Duration(FirstShortest(s, k).value) then Some(c)
            else FirstShortest(s, k)
  {
    if s == [] {
      assert [c][1..] == [];
    } else {
      assert (s + [c])[1..] == s[1..] + [c];
      FirstShortestSnoc(s[1..], c, k);
    }
  }

  /** The two-switch dictionary lists the accepted train triples in order of
      first acceptance, each holding the first candidate of least total. */
  predicate Order2(best: seq<Route>, acc: seq<Route>) {
    && |best| == |Dedup(acc)|
    && (forall i :: 0 <= i < |best| ==> KeyOf(best[i]) == KeyOf(Dedup(acc)[i]))
    && (forall i :: 0 <= i < |best| ==> FirstShortest(acc, KeyOf(best[i])) == Some(best[i]))
  }

  /** A candidate on new trains goes last. */
  lemma Order2New(best: seq<Route>, acc: seq<Route>, c: Route)
    requires Inv2(best, acc) && Order2(best, acc)
    requires KeyOf(c) !in Keys(best)
    ensures Order2(Put(best, c), acc + [c])
  {
    var k := KeyOf(c);
    DedupSnoc(acc, c);
    assert Put(best, c) == best + [c];
    forall i | 0 <= i < |best|
      ensures FirstShortest(acc + [c], KeyOf(best[i])) == Some(best[i])
    {
      KeysMember(best, KeyOf(best[i]));
      FirstShortestSnoc(acc, c, KeyOf(best[i]));
    }
    FirstShortestIn(acc, k);
    FirstShortestSnoc(acc, c, k);
  }

  /** A strictly shorter candidate takes its entry's place. */
  lemma Order2Replace(best: seq<Route>, acc: seq<Route>, c: Route)
    requires Inv2(best, acc) && Order2(best, acc)
    requires KeyOf(c) in Keys(best) && Duration(c) < Duration(Lookup(best, KeyOf(c)))
    ensures Order2(Put(best, c), acc + [c])
  {
    var k := KeyOf(c);
    var best' := Put(best, c);
    DedupSnoc(acc, c);
    forall i | 0 <= i < |best|
      ensures KeyOf(best'[i]) == KeyOf(best[i])
      ensures FirstShortest(acc + [c], KeyOf(best'[i])) == Some(best'[i])
    {
      PutAt(best, c, i);
      FirstShortestSnoc(acc, c, KeyOf(best[i]));
      if KeyOf(best[i]) == k {
        LookupDistinct(best, best[i]);
      }
    }
  }

  /** A candidate no shorter than its entry changes nothing. */
  lemma Order2Keep(best: seq<Route>, acc: seq<Route>, c: Route)
    requires Inv2(best, acc) && Order2(best, acc)
    requires KeyOf(c) in Keys(best) && Duration(Lookup(best, KeyOf(c))) <= Duration(c)
    ensures Order2(best, acc + [c])
  {
    var k := KeyOf(c);
    DedupSnoc(acc, c);
    forall i | 0 <= i < |best|
      ensures FirstShortest(acc + [c], KeyOf(best[i])) == Some(best[i])
    {
      FirstShortestSnoc(acc, c, KeyOf(best[i]));
      if KeyOf(best[i]) == k {
        LookupDistinct(best, best[i]);
      }
    }
  }

  lemma Order2Step(best: seq<Route>, acc: seq<Route>, c: Route, accept: bool)
    requires Inv2(best, acc) && Order2(best, acc)
    ensures Order2(Step2(best, c, accept), acc + (if accept then [c] else []))
  {
    if !accept {
      assert acc + [] == acc;
    } else if KeyOf(c) !in Keys(best) {
      Order2New(best, acc, c);
    } else if Duration(c) < Duration(Lookup(best, KeyOf(c))) {
      Order2Replace(best, acc, c);
    } else {
      Order2Keep(best, acc, c);
    }
  }

  lemma {:induction false} Run2Order(trains: set<string>, fastest: int, d: Date, src: string, dst: string, rows: seq<Conn2Row>)
    requires ValidDate(d) && Conn2Rows(src, dst, rows)
    ensures Order2(Run2(trains, fastest, d, src, dst, rows), Accepted2(trains, fastest, d, src, dst, rows))
  {
    if rows != [] {
      var init := rows[..|rows| - 1];
      var row := rows[|rows| - 1];
      Conn2Prefix(src, dst, rows, |rows| - 1);
      Run2Invariant(trains, fastest, d, src, dst, init);
      Run2Order(trains, fastest, d, src, dst, init);
      Order2Step(Run2(trains, fastest, d, src, dst, init), Accepted2(trains, fastest, d, src, dst, init),
                 Candidate2(d, src, dst, row), Accept2(trains, fastest, d, src, dst, row));
    }
  }

  /** The two-switch bucket lists the accepted train triples in the order
      they were first accepted, and for each holds the first accepted
      candidate of least total (the strict comparison keeps the earliest of
      equal totals). */
  lemma TwoSwitchBucketOrder(trains: set<string>, fastest: int, d: Date, src: string, dst: string, rows: seq<Conn2Row>)
    requires ValidDate(d) && Conn2Rows(src, dst, rows)
    ensures var capped := Capped(rows);
            var b := TwoSwitchBucket(trains, fastest, d, src, dst, rows);
            var acc := Accepted2(trains, fastest, d, src, dst, capped);
            && |b| == |Dedup(acc)|
            && (forall i :: 0 <= i < |b| ==> KeyOf(b[i]) == KeyOf(Dedup(acc)[i]))
            && (forall i :: 0 <= i < |b| ==> FirstShortest(acc, KeyOf(b[i])) == Some(b[i]))
  {
    var capped := Capped(rows);
    Conn2Prefix(src, dst, rows, |capped|);
    Run2Invariant(trains, fastest, d, src, dst, capped);
    Run2Order(trains, fastest, d, src, dst, capped);
    DedupFromIdentity(Run2(trains, fastest, d, src, dst, capped), {});
  }

  lemma TwoSwitchBucketShape(trains: set<string>, fastest: int, d: Date, src: string, dst: string, rows: seq<Conn2Row>)
    requires ValidDate(d) && Conn2Rows(src, dst, rows)
    ensures var b := TwoSwitchBucket(trains, fastest, d, src, dst, rows);
            DistinctKeys(b) && forall r :: r in b ==> r.TwoSwitch?
  {
    TwoSwitchBucketFacts(trains, fastest, d, src, dst, rows);
  }

  lemma DirectBucketShape(d: Date, rows: seq<Ride>)
    requires ValidDate(d) && RideRows(rows)
    ensures forall r :: r in DirectBucket(d, rows) ==> r.Direct?
  {
    var b := DirectBucket(d, rows);
    forall r | r in b ensures r.Direct? {
      var i :| 0 <= i < |b| && b[i] == r;
    }
  }
}
