/**
  Train-key bookkeeping of the route search: the set of keys a list of routes
  uses, the "keep the first route per key" filter of the final dedup loops,
  and the key-to-route dictionary the search keeps its best candidates in
  (a sequence in key-insertion order, as Python dictionaries iterate).
 */
module TrainKeys {
  import opened Routes

  function Keys(s: seq<Route>): set<TrainKey> {
    if s == [] then {} else {KeyOf(s[0])} + Keys(s[1..])
  }

  lemma {:induction false} KeysMember(s: seq<Route>, k: TrainKey)
    ensures k in Keys(s) <==> exists i :: 0 <= i < |s| && KeyOf(s[i]) == k
  {
    if s != [] {
      KeysMember(s[1..], k);
      if k in Keys(s[1..]) {
        var i :| 0 <= i < |s[1..]| && KeyOf(s[1..][i]) == k;
        assert KeyOf(s[i + 1]) == k;
      }
      if exists i :: 0 <= i < |s| && KeyOf(s[i]) == k {
        var i :| 0 <= i < |s| && KeyOf(s[i]) == k;
        if i > 0 {
          assert KeyOf(s[1..][i - 1]) == k;
        }
      }
    }
  }

  lemma {:induction false} KeysConcat(s: seq<Route>, t: seq<Route>)
    ensures Keys(s + t) == Keys(s) + Keys(t)
  {
    if s != [] {
      assert (s + t)[1..] == s[1..] + t;
      KeysConcat(s[1..], t);
    } else {
      assert s + t == t;
    }
  }

  /** No two positions carry the same train key. */
  predicate DistinctKeys(s: seq<Route>) {
    forall i, j :: 0 <= i < j < |s| ==> KeyOf(s[i]) != KeyOf(s[j])
  }

  // ---------------------------------------------------------------------------
  // The dedup loop: keep a route when its key has not been seen yet

  /** The dedup loop over `s`, started with the keys in `seen` already seen. */
  function DedupFrom(s: seq<Route>, seen: set<TrainKey>): seq<Route> {
    if s == [] then []
    else if KeyOf(s[0]) in seen then DedupFrom(s[1..], seen)
    else [s[0]] + DedupFrom(s[1..], seen + {KeyOf(s[0])})
  }

  function Dedup(s: seq<Route>): seq<Route> {
    DedupFrom(s, {})
  }

  /** Running the loop over `s + t` is running it over `s`, then over `t`
      with the keys of `s` seen. */
  lemma {:induction false} DedupFromConcat(s: seq<Route>, t: seq<Route>, seen: set<TrainKey>)
    ensures DedupFrom(s + t, seen) == DedupFrom(s, seen) + DedupFrom(t, seen + Keys(s))
  {
    if s == [] {
      assert s + t == t;
      assert seen + Keys(s) == seen;
    } else {
      assert (s + t)[0] == s[0] && (s + t)[1..] == s[1..] + t;
      var k := KeyOf(s[0]);
      if k in seen {
        DedupFromConcat(s[1..], t, seen);
        assert seen + Keys(s) == seen + Keys(s[1..]);
      } else {
        DedupFromConcat(s[1..], t, seen + {k});
        assert seen + {k} + Keys(s[1..]) == seen + Keys(s);
      }
    }
  }

  /** Routes whose keys were all seen contribute nothing. */
  lemma {:induction false} DedupFromCovered(s: seq<Route>, seen: set<TrainKey>)
    requires Keys(s) <= seen
    ensures DedupFrom(s, seen) == []
  {
    if s != [] {
      DedupFromCovered(s[1..], seen);
    }
  }

  /** The dedup keeps exactly the unseen keys. */
  lemma {:induction false} DedupFromKeys(s: seq<Route>, seen: set<TrainKey>)
    ensures Keys(DedupFrom(s, seen)) == Keys(s) - seen
  {
    if s != [] {
      var k := KeyOf(s[0]);
      if k in seen {
        DedupFromKeys(s[1..], seen);
      } else {
        DedupFromKeys(s[1..], seen + {k});
        var rest := DedupFrom(s[1..], seen + {k});
        assert ([s[0]] + rest)[1..] == rest;
      }
    }
  }

  /** Every route the dedup keeps is one of its input routes. */
  lemma {:induction false} DedupFromSubset(s: seq<Route>, seen: set<TrainKey>)
    ensures forall x :: x in DedupFrom(s, seen) ==> x in s
  {
    if s != [] {
      var k := KeyOf(s[0]);
      if k in seen {
        DedupFromSubset(s[1..], seen);
      } else {
        DedupFromSubset(s[1..], seen + {k});
      }
    }
  }

  /** The routes the dedup keeps have pairwise distinct keys, none of them seen before. */
  lemma {:induction false} DedupFromDistinct(s: seq<Route>, seen: set<TrainKey>)
    ensures DistinctKeys(DedupFrom(s, seen))
    ensures Keys(DedupFrom(s, seen)) !! seen
  {
    DedupFromKeys(s, seen);
    if s != [] {
      var k := KeyOf(s[0]);
      if k in seen {
        DedupFromDistinct(s[1..], seen);
      } else {
        var rest := DedupFrom(s[1..], seen + {k});
        DedupFromDistinct(s[1..], seen + {k});
        var r := [s[0]] + rest;
        forall i, j | 0 <= i < j < |r|
          ensures KeyOf(r[i]) != KeyOf(r[j])
        {
          if i == 0 {
            assert r[j] == rest[j - 1];
            KeysMember(rest, KeyOf(rest[j - 1]));
          } else {
            assert r[i] == rest[i - 1] && r[j] == rest[j - 1];
          }
        }
      }
    }
  }

  /** On routes with distinct, unseen keys the dedup changes nothing. */
  lemma {:induction false} DedupFromIdentity(s: seq<Route>, seen: set<TrainKey>)
    requires DistinctKeys(s) && Keys(s) !! seen
    ensures DedupFrom(s, seen) == s
  {
    if s != [] {
      var k := KeyOf(s[0]);
      KeysMember(s, k);
      assert k !in seen;
      forall j | 0 <= j < |s[1..]|
        ensures KeyOf(s[1..][j]) != k
      {
        assert s[1..][j] == s[j + 1];
      }
      KeysMember(s[1..], k);
      assert Keys(s[1..]) !! seen + {k} by {
        assert Keys(s) == {k} + Keys(s[1..]);
      }
      DedupFromIdentity(s[1..], seen + {k});
    }
  }

  // ---------------------------------------------------------------------------
  // The first route carrying a key

  function First(s: seq<Route>, k: TrainKey): (r: Route)
    requires k in Keys(s)
    ensures KeyOf(r) == k && r in s
  {
    if KeyOf(s[0]) == k then s[0] else First(s[1..], k)
  }

  /** What the dedup keeps for a key is the first input route carrying it. */
  lemma {:induction false} DedupFromFirst(s: seq<Route>, seen: set<TrainKey>, x: Route)
    requires x in DedupFrom(s, seen)
    ensures KeyOf(x) in Keys(s) && x == First(s, KeyOf(x))
  {
    var k := KeyOf(s[0]);
    if k in seen {
      DedupFromFirst(s[1..], seen, x);
      assert KeyOf(x) != k by {
        DedupFromKeys(s[1..], seen);
        KeysMember(DedupFrom(s[1..], seen), KeyOf(x));
      }
    } else if x != s[0] {
      var rest := DedupFrom(s[1..], seen + {k});
      assert x in rest;
      DedupFromFirst(s[1..], seen + {k}, x);
      assert KeyOf(x) != k by {
        DedupFromKeys(s[1..], seen + {k});
        KeysMember(rest, KeyOf(x));
      }
    }
  }

  // ---------------------------------------------------------------------------
  // The best-candidate dictionary

  /** `d[KeyOf(c)] = c` on a dictionary kept as its values in key-insertion
      order: an existing key keeps its position, a new key goes last. */
  function Put(d: seq<Route>, c: Route): (r: seq<Route>)
    ensures Keys(r) == Keys(d) + {KeyOf(c)}
    ensures c in r
    ensures forall x :: x in r ==> x == c || x in d
    ensures KeyOf(c) !in Keys(d) ==> r == d + [c]
    ensures KeyOf(c) in Keys(d) ==> |r| == |d|
  {
    if d == [] then [c]
    else if KeyOf(d[0]) == KeyOf(c) then [c] + d[1..]
    else [d[0]] + Put(d[1..], c)
  }

  /** A store overwrites an existing key in place and leaves every other
      position alone. */
  lemma {:induction false} PutAt(d: seq<Route>, c: Route, i: nat)
    requires DistinctKeys(d) && i < |d|
    ensures i < |Put(d, c)|
    ensures Put(d, c)[i] == (if KeyOf(d[i]) == KeyOf(c) then c else d[i])
  {
    var rest := d[1..];
    assert d == [d[0]] + rest;
    if KeyOf(d[0]) != KeyOf(c) && i > 0 {
      DistinctCons(d[0], rest);
      PutAt(rest, c, i - 1);
      assert d[i] == rest[i - 1];
    }
  }

  /** Distinct keys are a head key absent from the tail's keys, over a tail with distinct keys. */
  lemma DistinctCons(h: Route, t: seq<Route>)
    ensures DistinctKeys([h] + t) <==> DistinctKeys(t) && KeyOf(h) !in Keys(t)
  {
    var r := [h] + t;
    KeysMember(t, KeyOf(h));
    if DistinctKeys(t) && KeyOf(h) !in Keys(t) {
      forall i, j | 0 <= i < j < |r| ensures KeyOf(r[i]) != KeyOf(r[j]) {
        assert r[j] == t[j - 1];
        if i > 0 {
          assert r[i] == t[i - 1];
        }
      }
    }
    if DistinctKeys(r) {
      forall i, j | 0 <= i < j < |t| ensures KeyOf(t[i]) != KeyOf(t[j]) {
        assert t[i] == r[i + 1] && t[j] == r[j + 1];
      }
      forall j | 0 <= j < |t| ensures KeyOf(t[j]) != KeyOf(h) {
        assert r[0] == h && t[j] == r[j + 1];
      }
    }
  }

  /** Putting into a dictionary keeps its keys distinct, and every other
      key keeps its value. */
  lemma {:induction false} PutDistinct(d: seq<Route>, c: Route)
    requires DistinctKeys(d)
    ensures DistinctKeys(Put(d, c))
    ensures forall x :: x in Put(d, c) && KeyOf(x) != KeyOf(c) ==> x in d
    ensures forall x :: x in d && KeyOf(x) != KeyOf(c) ==> x in Put(d, c)
  {
    if d != [] {
      var rest := d[1..];
      assert d == [d[0]] + rest;
      DistinctCons(d[0], rest);
      if KeyOf(d[0]) == KeyOf(c) {
        DistinctCons(c, rest);
      } else {
        PutDistinct(rest, c);
        DistinctCons(d[0], Put(rest, c));
      }
    }
  }

  /** The value stored under key `k`. */
  function Lookup(d: seq<Route>, k: TrainKey): (r: Route)
    requires k in Keys(d)
    ensures KeyOf(r) == k && r in d
  {
    First(d, k)
  }

  /** In a dictionary with distinct keys, an entry is what its key looks up. */
  lemma {:induction false} LookupDistinct(d: seq<Route>, x: Route)
    requires DistinctKeys(d) && x in d
    ensures KeyOf(x) in Keys(d) && Lookup(d, KeyOf(x)) == x
  {
    var i :| 0 <= i < |d| && d[i] == x;
    KeysMember(d, KeyOf(x));
    if i > 0 {
      assert KeyOf(d[0]) != KeyOf(x);
      assert d[1..][i - 1] == x;
      var rest := d[1..];
      assert DistinctKeys(rest) by {
        forall a, b | 0 <= a < b < |rest|
          ensures KeyOf(rest[a]) != KeyOf(rest[b])
        {
          assert rest[a] == d[a + 1] && rest[b] == d[b + 1];
        }
      }
      LookupDistinct(rest, x);
    }
  }
}
