/**
 * What a ranking pass guarantees: ranks start at 1, climb by at most one step,
 * leave no gaps, never exceed the number of distinct key values, and so every
 * deal bucket lies between 1 and 6.
 */
module RankingProperties {
  import opened Offers
  import opened Ranking

  /** The ranks of a dense ranking start at 1 and each one is its predecessor's or one more. */
  lemma {:induction false} RankSteps(r: seq<RankedPizza>, c: SortColumn, i: int)
    requires DenseRanked(r, c)
    requires 0 <= i < |r|
    ensures 1 <= r[i].rank <= i + 1
    ensures i > 0 ==> r[i - 1].rank <= r[i].rank <= r[i - 1].rank + 1
  {
    if i > 0 {
      RankSteps(r, c, i - 1);
    }
  }

  /** Ranks never go down along the list. */
  lemma {:induction false} RanksNonDecreasing(r: seq<RankedPizza>, c: SortColumn, i: int, j: int)
    requires DenseRanked(r, c)
    requires 0 <= i <= j < |r|
    ensures r[i].rank <= r[j].rank
    decreases j - i
  {
    if i < j {
      RankSteps(r, c, j);
      RanksNonDecreasing(r, c, i, j - 1);
    }
  }

  /** Every rank from 1 up to the rank of entry i is held by some entry at or before i. */
  lemma {:induction false} NoGaps(r: seq<RankedPizza>, c: SortColumn, i: int, k: int)
    requires DenseRanked(r, c)
    requires 0 <= i < |r|
    requires 1 <= k <= r[i].rank
    ensures exists j :: 0 <= j <= i && r[j].rank == k
  {
    if k < r[i].rank {
      RankSteps(r, c, i);
      NoGaps(r, c, i - 1, k);
    }
  }

  /** The keys of the first n offers of s. */
  function KeysUpTo(s: seq<Pizza>, c: SortColumn, n: int): set<real>
    requires 0 <= n <= |s|
  {
    set j | 0 <= j < n :: Key(s[j], c)
  }

  /** Taking one more offer adds its key to the prefix keys. */
  lemma KeysUpToStep(s: seq<Pizza>, c: SortColumn, i: int)
    requires 0 <= i < |s|
    ensures KeysUpTo(s, c, i + 1) == KeysUpTo(s, c, i) + {Key(s[i], c)}
  {
  }

  /** In a sorted list a key that differs from its predecessor's has not occurred before. */
  lemma NewKeyIsFresh(s: seq<Pizza>, c: SortColumn, o: Order, i: int)
    requires SortedBy(s, c, o)
    requires 0 < i < |s| && Key(s[i - 1], c) != Key(s[i], c)
    ensures Key(s[i], c) !in KeysUpTo(s, c, i)
  {
    forall j | 0 <= j < i
      ensures Key(s[j], c) != Key(s[i], c)
    {
      if j < i - 1 {
        assert InOrder(Key(s[j], c), Key(s[i - 1], c), o);
      }
      assert InOrder(Key(s[i - 1], c), Key(s[i], c), o);
    }
  }

  /** The rank of entry i is at most the number of distinct keys among the entries up to i. */
  lemma {:induction false} RankWithinPrefixKeys(r: seq<RankedPizza>, s: seq<Pizza>, c: SortColumn, o: Order, i: int)
    requires s == Pizzas(r)
    requires SortedBy(s, c, o) && DenseRanked(r, c)
    requires 0 <= i < |r|
    ensures r[i].rank <= |KeysUpTo(s, c, i + 1)|
  {
    KeysUpToStep(s, c, i);
    if i == 0 {
      assert KeysUpTo(s, c, 0) == {};
    } else {
      RankWithinPrefixKeys(r, s, c, o, i - 1);
      if Tied(Key(s[i - 1], c), Key(s[i], c)) {
        SubsetSize(KeysUpTo(s, c, i), KeysUpTo(s, c, i + 1));
      } else {
        NewKeyIsFresh(s, c, o, i);
      }
    }
  }

  lemma SubsetSize(a: set<real>, b: set<real>)
    requires a <= b
    ensures |a| <= |b|
  {
    assert b == a + (b - a);
  }

  /** Sorting does not change the set of key values. */
  lemma SameKeysAfterPermutation(s: seq<Pizza>, ps: seq<Pizza>, c: SortColumn)
    requires multiset(s) == multiset(ps)
    ensures DistinctKeys(s, c) == DistinctKeys(ps, c)
  {
    forall v | v in DistinctKeys(s, c)
      ensures v in DistinctKeys(ps, c)
    {
      var p :| p in s && Key(p, c) == v;
      assert p in multiset(ps);
    }
    forall v | v in DistinctKeys(ps, c)
      ensures v in DistinctKeys(s, c)
    {
      var p :| p in ps && Key(p, c) == v;
      assert p in multiset(s);
    }
  }

  /**
   * The exact count of distinct values bounds every rank from above, so the
   * count used by the deal buckets is never smaller than a rank.
   */
  lemma RankWithinDistinctKeys(r: seq<RankedPizza>, ps: seq<Pizza>, c: SortColumn, o: Order, i: int)
    requires IsRanking(r, ps, c, o)
    requires 0 <= i < |r|
    ensures 1 <= r[i].rank <= |DistinctKeys(ps, c)|
  {
    var s := Pizzas(r);
    RankSteps(r, c, i);
    RankWithinPrefixKeys(r, s, c, o, i);
    assert KeysUpTo(s, c, i + 1) <= DistinctKeys(s, c);
    SubsetSize(KeysUpTo(s, c, i + 1), DistinctKeys(s, c));
    SameKeysAfterPermutation(s, ps, c);
  }

  /** Every deal bucket of a ranking lies between 1 and 6. */
  lemma BucketsInRange(r: seq<RankedPizza>, ps: seq<Pizza>, c: SortColumn, o: Order)
    requires IsRanking(r, ps, c, o)
    ensures forall i :: 0 <= i < |r| ==> 1 <= r[i].valueRank <= 6
  {
    forall i | 0 <= i < |r|
      ensures 1 <= r[i].valueRank <= 6
    {
      RankWithinDistinctKeys(r, ps, c, o, i);
    }
  }

  /** Offers with exactly equal keys get the same rank. */
  lemma {:induction false} EqualKeysShareRank(r: seq<RankedPizza>, c: SortColumn, o: Order, i: int, j: int)
    requires SortedBy(Pizzas(r), c, o) && DenseRanked(r, c)
    requires 0 <= i <= j < |r| && Key(r[i].pizza, c) == Key(r[j].pizza, c)
    ensures r[i].rank == r[j].rank
    decreases j - i
  {
    if i < j {
      var s := Pizzas(r);
      assert InOrder(Key(s[i], c), Key(s[j - 1], c), o) || i == j - 1;
      assert InOrder(Key(s[j - 1], c), Key(s[j], c), o);
      assert Key(s[j - 1], c) == Key(s[j], c);
      EqualKeysShareRank(r, c, o, i, j - 1);
    }
  }

  /** A store with a single offer ranks it first and in the best bucket. */
  lemma SingleOffer(r: seq<RankedPizza>, p: Pizza, c: SortColumn, o: Order)
    requires IsRanking(r, [p], c, o)
    ensures r == [RankedPizza(p, 1, 1)]
  {
    assert multiset(Pizzas(r)) == multiset{p};
    assert |Pizzas(r)| == 1;
    assert Pizzas(r)[0] in multiset(Pizzas(r));
    assert DistinctKeys([p], c) == {Key(p, c)};
  }

  /** An empty store has an empty ranking. */
  lemma EmptyStore(r: seq<RankedPizza>, c: SortColumn, o: Order)
    requires IsRanking(r, [], c, o)
    ensures r == []
  {
    assert |multiset(Pizzas(r))| == 0;
  }

  /** Two orders that may both be listed first share their key. */
  lemma HeadsShareKey(a: seq<Pizza>, b: seq<Pizza>, c: SortColumn, o: Order)
    requires a != [] && b != [] && multiset(a) == multiset(b)
    requires SortedBy(a, c, o) && SortedBy(b, c, o)
    ensures Key(a[0], c) == Key(b[0], c)
  {
    assert a[0] in multiset(b);
    var j :| 0 <= j < |b| && b[j] == a[0];
    assert j == 0 || InOrder(Key(b[0], c), Key(b[j], c), o);
    assert b[0] in multiset(a);
    var i :| 0 <= i < |a| && a[i] == b[0];
    assert i == 0 || InOrder(Key(a[0], c), Key(a[i], c), o);
  }

  /** Two stable sorted permutations of each other start with the same offer. */
  lemma HeadsEqual(a: seq<Pizza>, b: seq<Pizza>, c: SortColumn, o: Order)
    requires a != [] && b != [] && multiset(a) == multiset(b)
    requires SortedBy(a, c, o) && SortedBy(b, c, o)
    requires forall v :: WithKey(a, c, v) == WithKey(b, c, v)
    ensures a[0] == b[0]
  {
    HeadsShareKey(a, b, c, o);
    var k := Key(a[0], c);
    assert WithKey(a, c, k) == [a[0]] + WithKey(a[1..], c, k);
    assert WithKey(b, c, k) == [b[0]] + WithKey(b[1..], c, k);
    assert WithKey(a, c, k)[0] == WithKey(b, c, k)[0];
  }

  /** Dropping the same first offer from both lists keeps their per-key orders equal. */
  lemma TailsAgree(a: seq<Pizza>, b: seq<Pizza>, c: SortColumn)
    requires a != [] && b != [] && a[0] == b[0]
    requires forall v :: WithKey(a, c, v) == WithKey(b, c, v)
    ensures forall v :: WithKey(a[1..], c, v) == WithKey(b[1..], c, v)
  {
    forall v
      ensures WithKey(a[1..], c, v) == WithKey(b[1..], c, v)
    {
      var wa, wb := WithKey(a[1..], c, v), WithKey(b[1..], c, v);
      if Key(a[0], c) == v {
        assert WithKey(a, c, v) == [a[0]] + wa;
        assert WithKey(b, c, v) == [a[0]] + wb;
        assert ([a[0]] + wa)[1..] == wa && ([a[0]] + wb)[1..] == wb;
      } else {
        assert WithKey(a, c, v) == wa && WithKey(b, c, v) == wb;
      }
    }
  }

  lemma TailMultisets(a: seq<Pizza>, b: seq<Pizza>)
    requires a != [] && b != [] && a[0] == b[0] && multiset(a) == multiset(b)
    ensures multiset(a[1..]) == multiset(b[1..])
  {
    assert a == [a[0]] + a[1..] && b == [b[0]] + b[1..];
    assert multiset(a[1..]) == multiset(a) - multiset{a[0]};
    assert multiset(b[1..]) == multiset(b) - multiset{b[0]};
  }

  lemma SortedTail(s: seq<Pizza>, c: SortColumn, o: Order)
    requires s != [] && SortedBy(s, c, o)
    ensures SortedBy(s[1..], c, o)
  {
    var t := s[1..];
    forall i, j | 0 <= i < j < |t|
      ensures InOrder(Key(t[i], c), Key(t[j], c), o)
    {
      assert t[i] == s[i + 1] && t[j] == s[j + 1];
    }
  }

  /**
   * A sorted permutation that keeps offers with equal keys in their original
   * order is unique: whatever stable algorithm sorts the copy, the result is
   * the one given by Sort.
   */
  lemma {:induction false} StableSortIsUnique(a: seq<Pizza>, b: seq<Pizza>, c: SortColumn, o: Order)
    requires multiset(a) == multiset(b)
    requires SortedBy(a, c, o) && SortedBy(b, c, o)
    requires forall v :: WithKey(a, c, v) == WithKey(b, c, v)
    ensures a == b
    decreases |a|
  {
    assert |a| == |multiset(a)| == |multiset(b)| == |b|;
    if a != [] {
      HeadsEqual(a, b, c, o);
      TailMultisets(a, b);
      TailsAgree(a, b, c);
      SortedTail(a, c, o);
      SortedTail(b, c, o);
      StableSortIsUnique(a[1..], b[1..], c, o);
    }
  }

  /** The ranked copy is the one any stable sort produces. */
  lemma SortIsTheStableSort(ps: seq<Pizza>, r: seq<Pizza>, c: SortColumn, o: Order)
    requires multiset(r) == multiset(ps) && SortedBy(r, c, o)
    requires forall v :: WithKey(r, c, v) == WithKey(ps, c, v)
    ensures r == Sort(ps, c, o)
  {
    StableSortIsUnique(r, Sort(ps, c, o), c, o);
  }

  // When different key values are always further apart than the tolerance,
  // ranks count distinct values exactly and the deal bucket does not depend on
  // the direction the table is shown in.

  /** No two different values of ks lie within the tolerance of each other. */
  predicate SeparatedKeys(ks: set<real>) {
    forall x, y :: x in ks && y in ks && x != y ==> !Tied(x, y)
  }

  /** The values of ks that may be listed before k (k included). */
  function KeysBefore(ks: set<real>, k: real, o: Order): set<real> {
    set v | v in ks && InOrder(v, k, o)
  }

  /** With separated keys the rank of entry i is exactly the number of distinct keys up to i. */
  lemma {:induction false} RankCountsPrefixKeys(r: seq<RankedPizza>, s: seq<Pizza>, c: SortColumn, o: Order, i: int)
    requires s == Pizzas(r)
    requires SortedBy(s, c, o) && DenseRanked(r, c) && SeparatedKeys(DistinctKeys(s, c))
    requires 0 <= i < |r|
    ensures r[i].rank == |KeysUpTo(s, c, i + 1)|
  {
    if i == 0 {
      KeysUpToStep(s, c, 0);
      assert KeysUpTo(s, c, 0) == {};
    } else {
      RankCountsPrefixKeys(r, s, c, o, i - 1);
      assert NextRank(r[i - 1], r[i], c);
      assert r[i - 1].pizza == s[i - 1] && r[i].pizza == s[i];
      PrefixKeysStep(s, c, o, i);
    }
  }

  /** The distinct keys grow by one at a step that is not a tie, and not at all at a tie. */
  lemma PrefixKeysStep(s: seq<Pizza>, c: SortColumn, o: Order, i: int)
    requires SortedBy(s, c, o) && SeparatedKeys(DistinctKeys(s, c))
    requires 0 < i < |s|
    ensures Tied(Key(s[i - 1], c), Key(s[i], c)) ==> |KeysUpTo(s, c, i + 1)| == |KeysUpTo(s, c, i)|
    ensures !Tied(Key(s[i - 1], c), Key(s[i], c)) ==> |KeysUpTo(s, c, i + 1)| == |KeysUpTo(s, c, i)| + 1
  {
    KeysUpToStep(s, c, i);
    if Tied(Key(s[i - 1], c), Key(s[i], c)) {
      TieRepeatsKey(s, c, i);
      assert KeysUpTo(s, c, i + 1) == KeysUpTo(s, c, i);
    } else {
      NewKeyIsFresh(s, c, o, i);
    }
  }

  /** With separated keys, a tie is an exact repeat of the previous key. */
  lemma TieRepeatsKey(s: seq<Pizza>, c: SortColumn, i: int)
    requires SeparatedKeys(DistinctKeys(s, c))
    requires 0 < i < |s| && Tied(Key(s[i - 1], c), Key(s[i], c))
    ensures Key(s[i], c) in KeysUpTo(s, c, i)
  {
    assert s[i - 1] in s && s[i] in s;
    assert Key(s[i - 1], c) == Key(s[i], c);
  }

  /** In a sorted list the keys up to entry i are the distinct keys that may be listed before it. */
  lemma PrefixKeysAreKeysBefore(s: seq<Pizza>, c: SortColumn, o: Order, i: int)
    requires SortedBy(s, c, o)
    requires 0 <= i < |s|
    ensures KeysUpTo(s, c, i + 1) == KeysBefore(DistinctKeys(s, c), Key(s[i], c), o)
  {
    var k := Key(s[i], c);
    forall v | v in KeysUpTo(s, c, i + 1)
      ensures v in KeysBefore(DistinctKeys(s, c), k, o)
    {
      var j :| 0 <= j < i + 1 && Key(s[j], c) == v;
      assert s[j] in s;
      assert j == i || InOrder(Key(s[j], c), k, o);
    }
    forall v | v in KeysBefore(DistinctKeys(s, c), k, o)
      ensures v in KeysUpTo(s, c, i + 1)
    {
      var p :| p in s && Key(p, c) == v;
      var j :| 0 <= j < |s| && s[j] == p;
      if j > i {
        assert InOrder(k, Key(s[j], c), o);
        assert Key(s[j], c) == k;
        assert Key(s[i], c) == v;
      }
    }
  }

  /** An offer's own key is one of the distinct keys of the list it is ranked in. */
  lemma OwnKeyIsDistinctKey(r: seq<RankedPizza>, ps: seq<Pizza>, c: SortColumn, o: Order, i: int)
    requires IsRanking(r, ps, c, o)
    requires 0 <= i < |r|
    ensures Key(r[i].pizza, c) in DistinctKeys(ps, c)
  {
    var s := Pizzas(r);
    assert s[i] in multiset(s);
    assert r[i].pizza in ps;
  }

  /** With separated keys an offer's rank is the number of distinct values that may be listed before it. */
  lemma RankIsKeysBeforeCount(r: seq<RankedPizza>, ps: seq<Pizza>, c: SortColumn, o: Order, i: int)
    requires IsRanking(r, ps, c, o) && SeparatedKeys(DistinctKeys(ps, c))
    requires 0 <= i < |r|
    ensures r[i].rank == |KeysBefore(DistinctKeys(ps, c), Key(r[i].pizza, c), o)|
  {
    var s := Pizzas(r);
    SameKeysAfterPermutation(s, ps, c);
    RankCountsPrefixKeys(r, s, c, o, i);
    PrefixKeysAreKeysBefore(s, c, o, i);
  }

  /** The values at or below k and those at or above k overlap in k alone. */
  lemma KeysBeforeBothWays(ks: set<real>, k: real)
    requires k in ks
    ensures |KeysBefore(ks, k, Asc)| + |KeysBefore(ks, k, Desc)| == |ks| + 1
  {
    var below, above := KeysBefore(ks, k, Asc), KeysBefore(ks, k, Desc);
    assert below + above == ks;
    assert below * above == {k};
  }

  /**
   * With separated keys, an offer's deal bucket counts the distinct values that
   * are at least as good a deal as its own (the smaller price, or the larger
   * quantity), capped at 6: the same number whichever way the table is sorted.
   */
  lemma BucketIgnoresDirection(r: seq<RankedPizza>, ps: seq<Pizza>, c: SortColumn, o: Order, i: int)
    requires IsRanking(r, ps, c, o) && SeparatedKeys(DistinctKeys(ps, c))
    requires 0 <= i < |r|
    ensures PriceLike(c) ==> r[i].valueRank == Min(|KeysBefore(DistinctKeys(ps, c), Key(r[i].pizza, c), Asc)|, 6)
    ensures !PriceLike(c) ==> r[i].valueRank == Min(|KeysBefore(DistinctKeys(ps, c), Key(r[i].pizza, c), Desc)|, 6)
  {
    OwnKeyIsDistinctKey(r, ps, c, o, i);
    RankIsKeysBeforeCount(r, ps, c, o, i);
    KeysBeforeBothWays(DistinctKeys(ps, c), Key(r[i].pizza, c));
  }

  /**
   * Without separation the bucket does depend on the direction: two offers whose
   * prices per unit of area differ by less than the tolerance share rank 1, but the
   * count of distinct values is 2, so sorted best-first both are in bucket 1 and
   * sorted worst-first both are in bucket 2.
   */
  lemma NearTieShiftsBuckets(r: seq<RankedPizza>, a: Pizza, b: Pizza, o: Order)
    requires a.pricePerU2 == 0.01 && b.pricePerU2 == 0.010001
    requires IsRanking(r, [a, b], PricePerU2, o)
    ensures |r| == 2
    ensures r[0].rank == 1 && r[1].rank == 1
    ensures o == Asc ==> r[0].valueRank == 1 && r[1].valueRank == 1
    ensures o == Desc ==> r[0].valueRank == 2 && r[1].valueRank == 2
  {
    var s := Pizzas(r);
    assert |s| == |multiset(s)| == 2;
    assert s[0] in multiset([a, b]) && s[1] in multiset([a, b]);
    assert DistinctKeys([a, b], PricePerU2) == {0.01, 0.010001};
  }

  /**
   * Ties chain along the list: each neighbour is within the tolerance of the
   * next, so three offers share rank 1 although the first and the last differ
   * by more than the tolerance.
   */
  lemma TiesChain(r: seq<RankedPizza>)
    requires |r| == 3 && DenseRanked(r, Price)
    requires r[0].pizza.price == 0.0 && r[1].pizza.price == 0.000008 && r[2].pizza.price == 0.000016
    ensures r[0].rank == 1 && r[1].rank == 1 && r[2].rank == 1
    ensures !Tied(r[0].pizza.price, r[2].pizza.price)
  {
    assert NextRank(r[0], r[1], Price);
    assert NextRank(r[1], r[2], Price);
  }
}
