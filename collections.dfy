/** Deterministic traversal of the stores and the ordering used by the
    reports: keys in ascending order, sums over a map, a stable sort by a
    key in descending order, and rankings of (key, count) pairs with an
    optional limit (the `ORDER BY count DESC LIMIT n` of the queries). */
module Collections {

  lemma {:induction false} HasMinimum(s: set<nat>)
    requires s != {}
    ensures exists k :: k in s && forall j :: j in s ==> k <= j
    decreases s
  {
    var x :| x in s;
    var rest := s - {x};
    if rest == {} {
      forall j | j in s ensures x <= j { assert j !in rest; }
      assert x in s && forall j :: j in s ==> x <= j;
    } else {
      HasMinimum(rest);
      var m :| m in rest && forall j :: j in rest ==> m <= j;
      var least := if x <= m then x else m;
      forall j | j in s ensures least <= j {
        if j != x { assert j in rest; }
      }
      assert least in s && forall j :: j in s ==> least <= j;
    }
  }

  function MinKey(s: set<nat>): (k: nat)
    requires s != {}
    ensures k in s && forall j :: j in s ==> k <= j
  {
    HasMinimum(s);
    var k :| k in s && forall j :: j in s ==> k <= j;
    k
  }

  /** The keys of `s` in ascending order (primary-key order). */
  function KeysAscending(s: set<nat>): (r: seq<nat>)
    ensures |r| == |s|
    ensures forall k :: k in s <==> k in r
    ensures forall i, j :: 0 <= i < j < |r| ==> r[i] < r[j]
    ensures Distinct(r)
    decreases |s|
  {
    if s == {} then []
    else
      var k := MinKey(s);
      [k] + KeysAscending(s - {k})
  }

  /** The sum of `f` over the values of `m`, taken in key order (the SQL
      `SUM` with its `or 0`: an empty map sums to 0). */
  function SumOver<V>(m: map<nat, V>, f: V -> int): int
    decreases |m|
  {
    if m == map[] then 0
    else
      var k := MinKey(m.Keys);
      f(m[k]) + SumOver(m - {k}, f)
  }

  lemma {:induction false} SumOverNonNegative<V>(m: map<nat, V>, f: V -> int)
    requires forall k :: k in m ==> f(m[k]) >= 0
    ensures SumOver(m, f) >= 0
    decreases |m|
  {
    if m != map[] {
      var k := MinKey(m.Keys);
      assert |m - {k}| < |m| by { assert (m - {k}).Keys == m.Keys - {k}; }
      SumOverNonNegative(m - {k}, f);
    }
  }

  ghost predicate SortedDesc<T>(s: seq<T>, key: T -> int)
  {
    forall i, j :: 0 <= i < j < |s| ==> key(s[i]) >= key(s[j])
  }

  ghost predicate Distinct<T>(s: seq<T>)
  {
    forall i, j :: 0 <= i < j < |s| ==> s[i] != s[j]
  }

  /** Inserts `x` in front of the first element whose key is not larger
      than its own, so that equal keys keep their order. */
  function Insert<T>(x: T, s: seq<T>, key: T -> int): (r: seq<T>)
    decreases |s|
  {
    if s == [] then [x]
    else if key(x) >= key(s[0]) then [x] + s
    else [s[0]] + Insert(x, s[1..], key)
  }

  lemma {:induction false} InsertMultiset<T>(x: T, s: seq<T>, key: T -> int)
    ensures multiset(Insert(x, s, key)) == multiset{x} + multiset(s)
    decreases |s|
  {
    if s != [] && key(x) < key(s[0]) {
      InsertMultiset(x, s[1..], key);
      assert s == [s[0]] + s[1..];
    }
  }

  lemma {:induction false} InsertSorted<T>(x: T, s: seq<T>, key: T -> int)
    requires SortedDesc(s, key)
    ensures SortedDesc(Insert(x, s, key), key)
    decreases |s|
  {
    if s != [] && key(x) < key(s[0]) {
      var t := Insert(x, s[1..], key);
      InsertSorted(x, s[1..], key);
      InsertMultiset(x, s[1..], key);
      forall i | 0 <= i < |t| ensures key(s[0]) >= key(t[i]) {
        assert t[i] in multiset(t);
        assert t[i] == x || t[i] in multiset(s[1..]);
      }
      assert Insert(x, s, key) == [s[0]] + t;
    }
  }

  lemma InsertProperties<T>(x: T, s: seq<T>, key: T -> int)
    requires SortedDesc(s, key)
    ensures multiset(Insert(x, s, key)) == multiset{x} + multiset(s)
    ensures SortedDesc(Insert(x, s, key), key)
  {
    InsertMultiset(x, s, key);
    InsertSorted(x, s, key);
  }

  /** Stable insertion sort, largest key first; elements with equal keys
      keep their input order. */
  function SortDesc<T>(s: seq<T>, key: T -> int): (r: seq<T>)
    ensures multiset(r) == multiset(s)
    ensures |r| == |s|
    ensures SortedDesc(r, key)
    decreases |s|
  {
    if s == [] then []
    else
      var t := SortDesc(s[1..], key);
      InsertProperties(s[0], t, key);
      assert s == [s[0]] + s[1..];
      Insert(s[0], t, key)
  }

  lemma SameElements<T>(a: seq<T>, b: seq<T>)
    requires multiset(a) == multiset(b)
    ensures forall y :: y in a <==> y in b
  {
    forall y ensures y in a <==> y in b {
      assert y in a <==> y in multiset(a);
      assert y in b <==> y in multiset(b);
    }
  }

  lemma {:induction false} InsertDistinct<T>(x: T, s: seq<T>, key: T -> int)
    requires SortedDesc(s, key) && Distinct(s) && x !in s
    ensures Distinct(Insert(x, s, key))
    decreases |s|
  {
    if s != [] && key(x) < key(s[0]) {
      var t := Insert(x, s[1..], key);
      assert s == [s[0]] + s[1..];
      InsertDistinct(x, s[1..], key);
      InsertProperties(x, s[1..], key);
      SameElements(t, [x] + s[1..]);
      assert s[0] !in s[1..];
      assert s[0] !in t;
    }
  }

  lemma {:induction false} SortDescDistinct<T>(s: seq<T>, key: T -> int)
    requires Distinct(s)
    ensures Distinct(SortDesc(s, key))
    decreases |s|
  {
    if s != [] {
      var t := SortDesc(s[1..], key);
      SortDescDistinct(s[1..], key);
      SameElements(t, s[1..]);
      assert s == [s[0]] + s[1..];
      assert s[0] !in s[1..];
      InsertDistinct(s[0], t, key);
    }
  }

  /** `r` lists distinct keys from `keys`, each with its count, at least 1. */
  ghost predicate Tallies<K>(r: seq<(K, nat)>, keys: set<K>, count: K -> nat)
  {
    (forall i :: 0 <= i < |r| ==> r[i].0 in keys && r[i].1 == count(r[i].0) && r[i].1 >= 1) &&
    (forall i, j :: 0 <= i < j < |r| ==> r[i].0 != r[j].0)
  }

  ghost predicate CountsDesc<K>(r: seq<(K, nat)>)
  {
    forall i, j :: 0 <= i < j < |r| ==> r[i].1 >= r[j].1
  }

  ghost predicate Listed<K>(r: seq<(K, nat)>, k: K)
  {
    exists i :: 0 <= i < |r| && r[i].0 == k
  }

  /** `r` is a complete ranking: every key of `keys` with a non-zero count
      appears once, largest count first. */
  ghost predicate IsRanking<K>(r: seq<(K, nat)>, keys: set<K>, count: K -> nat)
  {
    Tallies(r, keys, count) && CountsDesc(r) &&
    forall k :: k in keys && count(k) >= 1 ==> Listed(r, k)
  }

  /** `r` is the first `limit` entries of a ranking: what is left out
      never counts more than the last entry kept. */
  ghost predicate IsTopRanking<K>(r: seq<(K, nat)>, keys: set<K>, count: K -> nat, limit: nat)
  {
    |r| <= limit && Tallies(r, keys, count) && CountsDesc(r) &&
    forall k :: k in keys && count(k) >= 1 && !Listed(r, k) ==>
      |r| == limit && (limit > 0 ==> count(k) <= r[limit - 1].1)
  }

  /** Ranks the keys listed in `order` (distinct) that have a non-zero
      count, by count descending; ties keep the order of `order`. */
  function Ranking<K(==,!new)>(order: seq<K>, keys: set<K>, count: K -> nat): (r: seq<(K, nat)>)
    requires Distinct(order) && forall k :: k in order <==> k in keys
    ensures IsRanking(r, keys, count)
  {
    RankingIsRanking(order, keys, count);
    Tally(SortDesc(Filter(order, count), ByCount(count)), count)
  }

  function ByCount<K>(count: K -> nat): K -> int
  {
    (k: K) => count(k) as int
  }

  /** Pairs every key with its count. */
  function Tally<K>(s: seq<K>, count: K -> nat): (r: seq<(K, nat)>)
    ensures |r| == |s|
    ensures forall i :: 0 <= i < |s| ==> r[i] == (s[i], count(s[i]))
  {
    seq(|s|, i requires 0 <= i < |s| => (s[i], count(s[i])))
  }

  lemma RankingIsRanking<K(!new)>(order: seq<K>, keys: set<K>, count: K -> nat)
    requires Distinct(order) && forall k :: k in order <==> k in keys
    ensures IsRanking(Tally(SortDesc(Filter(order, count), ByCount(count)), count), keys, count)
  {
    var candidates := Filter(order, count);
    var sorted := SortDesc(candidates, ByCount(count));
    SortDescDistinct(candidates, ByCount(count));
    SameElements(sorted, candidates);
    TallyOfSorted(sorted, keys, count);
  }

  lemma TallyOfSorted<K(!new)>(sorted: seq<K>, keys: set<K>, count: K -> nat)
    requires Distinct(sorted) && SortedDesc(sorted, ByCount(count))
    requires forall k :: k in sorted <==> k in keys && count(k) >= 1
    ensures IsRanking(Tally(sorted, count), keys, count)
  {
    var r := Tally(sorted, count);
    forall i, j | 0 <= i < j < |r| ensures r[i].1 >= r[j].1 {
      assert ByCount(count)(sorted[i]) >= ByCount(count)(sorted[j]);
    }
    forall k | k in keys && count(k) >= 1 ensures Listed(r, k) {
      var i :| 0 <= i < |sorted| && sorted[i] == k;
      assert r[i].0 == k;
    }
  }

  /** The elements of `s` with a non-zero count, in order. */
  function Filter<K(!new)>(s: seq<K>, count: K -> nat): (r: seq<K>)
    requires Distinct(s)
    ensures Distinct(r)
    ensures forall k :: k in r <==> k in s && count(k) >= 1
    decreases |s|
  {
    if s == [] then []
    else
      var t := Filter(s[1..], count);
      assert forall k :: k in s[1..] ==> k != s[0] by {
        forall k | k in s[1..] ensures k != s[0] {
          var j :| 0 <= j < |s[1..]| && s[1..][j] == k;
          assert s[j + 1] == k;
        }
      }
      if count(s[0]) >= 1 then [s[0]] + t else t
  }

  /** The first `limit` entries of a ranking. */
  function Top<K>(r: seq<(K, nat)>, limit: nat): (t: seq<(K, nat)>)
    ensures |t| == if |r| < limit then |r| else limit
    ensures t == r[..|t|]
  {
    if |r| <= limit then r else r[..limit]
  }

  lemma TopOfRanking<K>(r: seq<(K, nat)>, keys: set<K>, count: K -> nat, limit: nat)
    requires IsRanking(r, keys, count)
    ensures IsTopRanking(Top(r, limit), keys, count, limit)
  {
    var t := Top(r, limit);
    forall k | k in keys && count(k) >= 1 && !Listed(t, k)
      ensures |t| == limit && (limit > 0 ==> count(k) <= t[limit - 1].1)
    {
      var i :| 0 <= i < |r| && r[i].0 == k;
      assert i >= |t|;
    }
  }

  /** The elements of `s`, each kept at its first occurrence. */
  function Dedup<T(==,!new)>(s: seq<T>): (r: seq<T>)
    ensures Distinct(r)
    ensures forall x :: x in r <==> x in s
    decreases |s|
  {
    if s == [] then []
    else
      var init := s[..|s| - 1];
      var t := Dedup(init);
      assert s == init + [s[|s| - 1]];
      if s[|s| - 1] in t then t else t + [s[|s| - 1]]
  }

  lemma SubsetCardinality<T>(a: set<T>, b: set<T>)
    requires a <= b
    ensures |a| <= |b|
  {
    assert b == a + (b - a);
  }
}
