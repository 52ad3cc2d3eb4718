/**
  The final ordering of the search result: Python's stable `list.sort` by
  duration ("fastest") or by number of switches ("fewest_switches"), or no
  sort at all for any other criterion, followed by the 250-route cap.
 */
module Ordering {
  import opened Routes

  datatype Criterion = Fastest | FewestSwitches | Unordered

  /** The criterion text the search compares against; anything else leaves
      the routes in bucket order. */
  function CriterionOf(text: string): Criterion {
    if text == "fastest" then Fastest
    else if text == "fewest_switches" then FewestSwitches
    else Unordered
  }

  /** The sort key of a route under a criterion. */
  function SortKey(c: Criterion, r: Route): int {
    match c
    case Fastest => Duration(r)
    case FewestSwitches => Switches(r)
    case Unordered => 0
  }

  predicate SortedBy(c: Criterion, s: seq<Route>) {
    forall i, j :: 0 <= i < j < |s| ==> SortKey(c, s[i]) <= SortKey(c, s[j])
  }

  /** Inserts `x` before the first route with a strictly larger key. */
  function Insert(c: Criterion, x: Route, s: seq<Route>): seq<Route> {
    if s == [] || SortKey(c, x) <= SortKey(c, s[0]) then [x] + s
    else [s[0]] + Insert(c, x, s[1..])
  }

  /** A stable sort: insertion of each route, last first, into the sorted rest. */
  function Sort(c: Criterion, s: seq<Route>): seq<Route> {
    if s == [] then [] else Insert(c, s[0], Sort(c, s[1..]))
  }

  /** The routes of `s` whose key is `k`, in their order in `s`. */
  function WithKey(c: Criterion, s: seq<Route>, k: int): seq<Route> {
    if s == [] then []
    else (if SortKey(c, s[0]) == k then [s[0]] else []) + WithKey(c, s[1..], k)
  }

  lemma {:induction false} InsertPermutes(c: Criterion, x: Route, s: seq<Route>)
    ensures multiset(Insert(c, x, s)) == multiset{x} + multiset(s)
  {
    if s != [] && SortKey(c, x) > SortKey(c, s[0]) {
      InsertPermutes(c, x, s[1..]);
      assert s == [s[0]] + s[1..];
    }
  }

  lemma InsertMember(c: Criterion, x: Route, s: seq<Route>, y: Route)
    requires y in Insert(c, x, s)
    ensures y == x || y in s
  {
    InsertPermutes(c, x, s);
    assert y in multiset(Insert(c, x, s));
  }

  /** A sorted sequence is a least head followed by a sorted tail, and back. */
  lemma SortedCons(c: Criterion, h: Route, t: seq<Route>)
    ensures SortedBy(c, [h] + t)
        <==> SortedBy(c, t) && forall y :: y in t ==> SortKey(c, h) <= SortKey(c, y)
  {
    var r := [h] + t;
    if SortedBy(c, t) && forall y :: y in t ==> SortKey(c, h) <= SortKey(c, y) {
      forall i, j | 0 <= i < j < |r| ensures SortKey(c, r[i]) <= SortKey(c, r[j]) {
        assert r[j] == t[j - 1] && r[j] in t;
        if i > 0 {
          assert r[i] == t[i - 1];
        }
      }
    }
    if SortedBy(c, r) {
      forall i, j | 0 <= i < j < |t| ensures SortKey(c, t[i]) <= SortKey(c, t[j]) {
        assert t[i] == r[i + 1] && t[j] == r[j + 1];
      }
      forall y | y in t ensures SortKey(c, h) <= SortKey(c, y) {
        var j :| 0 <= j < |t| && t[j] == y;
        assert r[0] == h && r[j + 1] == y;
      }
    }
  }

  lemma {:induction false} InsertSorted(c: Criterion, x: Route, s: seq<Route>)
    requires SortedBy(c, s)
    ensures SortedBy(c, Insert(c, x, s))
  {
    if s == [] || SortKey(c, x) <= SortKey(c, s[0]) {
      if s != [] {
        assert s == [s[0]] + s[1..];
        SortedCons(c, s[0], s[1..]);
      }
      SortedCons(c, x, s);
    } else {
      var rest := s[1..];
      assert s == [s[0]] + rest;
      SortedCons(c, s[0], rest);
      InsertSorted(c, x, rest);
      forall y | y in Insert(c, x, rest) ensures SortKey(c, s[0]) <= SortKey(c, y) {
        InsertMember(c, x, rest, y);
      }
      SortedCons(c, s[0], Insert(c, x, rest));
    }
  }

  /** Sorting orders the routes by key and keeps exactly the same routes. */
  lemma {:induction false} SortCorrect(c: Criterion, s: seq<Route>)
    ensures SortedBy(c, Sort(c, s))
    ensures multiset(Sort(c, s)) == multiset(s)
  {
    if s != [] {
      SortCorrect(c, s[1..]);
      InsertSorted(c, s[0], Sort(c, s[1..]));
      InsertPermutes(c, s[0], Sort(c, s[1..]));
      assert s == [s[0]] + s[1..];
    }
  }

  lemma {:induction false} InsertWithKey(c: Criterion, x: Route, s: seq<Route>, k: int)
    requires SortedBy(c, s)
    ensures WithKey(c, Insert(c, x, s), k)
         == (if SortKey(c, x) == k then [x] else []) + WithKey(c, s, k)
  {
    var one := if SortKey(c, x) == k then [x] else [];
    if s == [] || SortKey(c, x) <= SortKey(c, s[0]) {
      assert ([x] + s)[1..] == s;
    } else {
      var rest := s[1..];
      assert SortedBy(c, rest) by {
        forall i, j | 0 <= i < j < |rest| ensures SortKey(c, rest[i]) <= SortKey(c, rest[j]) {
          assert rest[i] == s[i + 1] && rest[j] == s[j + 1];
        }
      }
      InsertWithKey(c, x, rest, k);
      var head := if SortKey(c, s[0]) == k then [s[0]] else [];
      assert ([s[0]] + Insert(c, x, rest))[1..] == Insert(c, x, rest);
      assert head == [] || one == [];
      assert head + (one + WithKey(c, rest, k)) == one + (head + WithKey(c, rest, k));
    }
  }

  /** Stability: the routes sharing a key keep their relative order. */
  lemma {:induction false} SortStable(c: Criterion, s: seq<Route>, k: int)
    ensures WithKey(c, Sort(c, s), k) == WithKey(c, s, k)
  {
    if s != [] {
      SortStable(c, s[1..], k);
      SortCorrect(c, s[1..]);
      InsertWithKey(c, s[0], Sort(c, s[1..]), k);
    }
  }

  /** What `all_routes` becomes after the criterion is applied. */
  function Arrange(c: Criterion, s: seq<Route>): seq<Route> {
    if c == Unordered then s else Sort(c, s)
  }

  /** The 250-route cap of the result. */
  const ResultCap := 250

  function Cap(s: seq<Route>): (r: seq<Route>)
    ensures |r| <= ResultCap
    ensures |s| <= ResultCap ==> r == s
    ensures |s| > ResultCap ==> |r| == ResultCap
    ensures r == s[..|r|]
  {
    if |s| <= ResultCap then s else s[..ResultCap]
  }

  // ---------------------------------------------------------------------------
  // Sorting keeps connecting routes on distinct trains apart

  /** No two positions hold connecting routes on the same trains. */
  predicate ConnectionsApart(s: seq<Route>) {
    forall i, j :: 0 <= i < |s| && 0 <= j < |s| && i != j ==> Apart(s[i], s[j])
  }

  predicate Apart(a: Route, b: Route) {
    a.Direct? || b.Direct? || KeyOf(a) != KeyOf(b)
  }

  /** Connecting routes are apart in a sequence exactly when the head is apart
      from every later route and the tail is apart. */
  lemma ApartCons(h: Route, t: seq<Route>)
    ensures ConnectionsApart([h] + t)
        <==> ConnectionsApart(t) && forall y :: y in t ==> Apart(h, y)
  {
    var r := [h] + t;
    if ConnectionsApart(t) && forall y :: y in t ==> Apart(h, y) {
      forall i, j | 0 <= i < |r| && 0 <= j < |r| && i != j ensures Apart(r[i], r[j]) {
        if i > 0 && j > 0 {
          assert r[i] == t[i - 1] && r[j] == t[j - 1];
        } else if i == 0 {
          assert r[j] == t[j - 1] && r[j] in t;
        } else {
          assert r[i] == t[i - 1] && r[i] in t;
        }
      }
    }
    if ConnectionsApart(r) {
      forall i, j | 0 <= i < |t| && 0 <= j < |t| && i != j ensures Apart(t[i], t[j]) {
        assert t[i] == r[i + 1] && t[j] == r[j + 1];
      }
      forall y | y in t ensures Apart(h, y) {
        var j :| 0 <= j < |t| && t[j] == y;
        assert r[0] == h && r[j + 1] == y;
      }
    }
  }

  lemma {:induction false} InsertApart(c: Criterion, x: Route, s: seq<Route>)
    requires ConnectionsApart(s)
    requires forall y :: y in s ==> Apart(x, y)
    ensures ConnectionsApart(Insert(c, x, s))
  {
    if s == [] || SortKey(c, x) <= SortKey(c, s[0]) {
      ApartCons(x, s);
    } else {
      var rest := s[1..];
      assert s == [s[0]] + rest;
      ApartCons(s[0], rest);
      InsertApart(c, x, rest);
      assert s[0] in s && Apart(x, s[0]);
      forall y | y in Insert(c, x, rest) ensures Apart(s[0], y) {
        InsertMember(c, x, rest, y);
      }
      ApartCons(s[0], Insert(c, x, rest));
    }
  }

  /** Sorting keeps connecting routes on distinct trains. */
  lemma {:induction false} SortApart(c: Criterion, s: seq<Route>)
    requires ConnectionsApart(s)
    ensures ConnectionsApart(Sort(c, s))
  {
    if s != [] {
      var rest := s[1..];
      assert s == [s[0]] + rest;
      ApartCons(s[0], rest);
      SortApart(c, rest);
      SortCorrect(c, rest);
      forall y | y in Sort(c, rest) ensures Apart(s[0], y) {
        assert y in multiset(Sort(c, rest));
      }
      InsertApart(c, s[0], Sort(c, rest));
    }
  }
}
