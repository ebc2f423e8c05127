/**
 * The ranking pass: the store is copied and sorted on one column, then walked
 * once to give every offer a dense rank (neighbours within a small tolerance
 * share a rank) and a "value rank" bucket from 1 (best deal) to 6.
 */
module Ranking {
  import opened Offers

  /** The columns of the offer table. */
  datatype Column = Rank | Name | Amount | Diameter | Price | PricePerU2 | TotalPrice | TotalArea

  /** The columns the table can be sorted on: every column but the rank and the name. */
  type SortColumn = c: Column | !c.Rank? && !c.Name? witness PricePerU2

  datatype Order = Asc | Desc

  /** The value an offer has in a sortable column. */
  function Key(p: Pizza, c: SortColumn): real {
    match c
    case Amount => p.amount as real
    case Diameter => p.diameter
    case Price => p.price
    case PricePerU2 => p.pricePerU2
    case TotalPrice => p.totalPrice
    case TotalArea => p.totalArea
    case Rank | Name => assert false; 0.0
  }

  /** True when a value x may be listed before a value y in the given order. */
  predicate InOrder(x: real, y: real, o: Order) {
    if o == Asc then x <= y else y <= x
  }

  /**
   * The comparator handed to the sort: negative when a goes first, positive
   * when b goes first, zero when the two keys are equal.
   */
  function Compare(a: Pizza, b: Pizza, c: SortColumn, o: Order): (r: int)
    ensures r == 0 <==> Key(a, c) == Key(b, c)
    ensures r <= 0 <==> InOrder(Key(a, c), Key(b, c), o)
    ensures r >= 0 <==> InOrder(Key(b, c), Key(a, c), o)
  {
    var aValue, bValue := Key(a, c), Key(b, c);
    if aValue < bValue then (if o == Asc then -1 else 1)
    else if aValue > bValue then (if o == Asc then 1 else -1)
    else 0
  }

  /** The offers appear in the order the comparator asks for. */
  predicate SortedBy(s: seq<Pizza>, c: SortColumn, o: Order) {
    forall i, j :: 0 <= i < j < |s| ==> InOrder(Key(s[i], c), Key(s[j], c), o)
  }

  /** The offers of s whose key in column c is v, in their order in s. */
  function WithKey(s: seq<Pizza>, c: SortColumn, v: real): seq<Pizza> {
    if s == [] then []
    else if Key(s[0], c) == v then [s[0]] + WithKey(s[1..], c, v)
    else WithKey(s[1..], c, v)
  }

  lemma WithKeyCons(h: Pizza, t: seq<Pizza>, c: SortColumn, v: real)
    ensures WithKey([h] + t, c, v) == if Key(h, c) == v then [h] + WithKey(t, c, v) else WithKey(t, c, v)
  {
    assert ([h] + t)[1..] == t;
  }

  /** Puts x in front of the first offer of the sorted s that does not go before it. */
  function Insert(x: Pizza, s: seq<Pizza>, c: SortColumn, o: Order): (r: seq<Pizza>)
    requires SortedBy(s, c, o)
    ensures multiset(r) == multiset(s) + multiset{x}
    ensures SortedBy(r, c, o)
    ensures forall v :: WithKey(r, c, v) == if Key(x, c) == v then [x] + WithKey(s, c, v) else WithKey(s, c, v)
    decreases |s|
  {
    if s == [] || Compare(x, s[0], c, o) <= 0 then
      assert ([x] + s)[1..] == s;
      [x] + s
    else
      var rest := Insert(x, s[1..], c, o);
      InsertBehind(x, s, rest, c, o);
      [s[0]] + rest
  }

  /** When x goes after the head of s, inserting x into the tail and putting the head back in front is an insertion into s. */
  lemma InsertBehind(x: Pizza, s: seq<Pizza>, rest: seq<Pizza>, c: SortColumn, o: Order)
    requires s != [] && SortedBy(s, c, o) && Compare(x, s[0], c, o) > 0
    requires multiset(rest) == multiset(s[1..]) + multiset{x}
    requires SortedBy(rest, c, o)
    requires forall v :: WithKey(rest, c, v) == if Key(x, c) == v then [x] + WithKey(s[1..], c, v) else WithKey(s[1..], c, v)
    ensures multiset([s[0]] + rest) == multiset(s) + multiset{x}
    ensures SortedBy([s[0]] + rest, c, o)
    ensures forall v :: WithKey([s[0]] + rest, c, v) == if Key(x, c) == v then [x] + WithKey(s, c, v) else WithKey(s, c, v)
  {
    assert s == [s[0]] + s[1..];
    FirstStaysFirst(s[0], s[1..], x, rest, c, o);
    forall v
      ensures WithKey([s[0]] + rest, c, v) == if Key(x, c) == v then [x] + WithKey(s, c, v) else WithKey(s, c, v)
    {
      WithKeyCons(s[0], rest, c, v);
      WithKeyCons(s[0], s[1..], c, v);
    }
  }

  /** An offer that goes before x and before all of t also goes before any arrangement of t and x. */
  lemma FirstStaysFirst(h: Pizza, t: seq<Pizza>, x: Pizza, rest: seq<Pizza>, c: SortColumn, o: Order)
    requires SortedBy([h] + t, c, o)
    requires InOrder(Key(h, c), Key(x, c), o)
    requires multiset(rest) == multiset(t) + multiset{x}
    requires SortedBy(rest, c, o)
    ensures SortedBy([h] + rest, c, o)
  {
    forall k | 0 <= k < |rest|
      ensures InOrder(Key(h, c), Key(rest[k], c), o)
    {
      assert rest[k] in multiset(rest);
      if rest[k] != x {
        assert rest[k] in t;
        var m :| 0 <= m < |t| && t[m] == rest[k];
        assert ([h] + t)[0] == h && ([h] + t)[m + 1] == t[m];
      }
    }
    var hr := [h] + rest;
    forall i, j | 0 <= i < j < |hr|
      ensures InOrder(Key(hr[i], c), Key(hr[j], c), o)
    {
      if i > 0 {
        assert hr[i] == rest[i - 1] && hr[j] == rest[j - 1];
      } else {
        assert hr[j] == rest[j - 1];
      }
    }
  }

  /**
   * The sorted copy of the store: a permutation of `ps`, ordered by the comparator.
   * Elements go in from the back, each in front of its equals, so equal keys keep
   * their original relative order, as the stable sort of the language does.
   */
  function Sort(ps: seq<Pizza>, c: SortColumn, o: Order): (r: seq<Pizza>)
    ensures multiset(r) == multiset(ps)
    ensures SortedBy(r, c, o)
    ensures forall v :: WithKey(r, c, v) == WithKey(ps, c, v)
  {
    if ps == [] then []
    else
      assert ps == [ps[0]] + ps[1..];
      Insert(ps[0], Sort(ps[1..], c, o), c, o)
  }

  /** How close two key values must be to count as tied. */
  const Tolerance: real := 0.00001

  function Abs(x: real): real {
    if x < 0.0 then -x else x
  }

  /** Two neighbouring values share a rank when they are within the tolerance. */
  predicate Tied(previous: real, current: real) {
    Abs(current - previous) <= Tolerance
  }

  /** The exactly distinct values the store has in a column; their number is the highest rank. */
  function DistinctKeys(ps: seq<Pizza>, c: SortColumn): (ks: set<real>)
    ensures forall i :: 0 <= i < |ps| ==> Key(ps[i], c) in ks
    ensures |ks| <= |ps|
  {
    DistinctKeysBound(ps, c);
    set p | p in ps :: Key(p, c)
  }

  /** A store has no more distinct values in a column than it has offers. */
  lemma {:induction false} DistinctKeysBound(ps: seq<Pizza>, c: SortColumn)
    ensures |set p | p in ps :: Key(p, c)| <= |ps|
  {
    if ps != [] {
      DistinctKeysBound(ps[1..], c);
      assert (set p | p in ps :: Key(p, c)) == (set p | p in ps[1..] :: Key(p, c)) + {Key(ps[0], c)} by {
        assert ps == [ps[0]] + ps[1..];
      }
    }
  }

  /** Sort columns where a smaller value is the better deal. */
  predicate PriceLike(c: SortColumn) {
    c == PricePerU2 || c == Price || c == TotalPrice
  }

  function Min(a: int, b: int): int {
    if a <= b then a else b
  }

  /**
   * The deal bucket of an offer with the given rank: counted from the top of the
   * list when the best deals come first, from the bottom otherwise, capped at 6.
   */
  function ValueRank(c: SortColumn, o: Order, rank: int, maxRank: int): (v: int)
    ensures v <= 6
    ensures 1 <= rank <= maxRank ==> 1 <= v
    ensures (PriceLike(c) <==> o == Asc) ==> v == Min(rank, 6)
    ensures (PriceLike(c) <==> o != Asc) ==> v == Min(maxRank + 1 - rank, 6)
  {
    if PriceLike(c) then
      if o == Asc then Min(rank, 6) else Min(maxRank + 1 - rank, 6)
    else
      if o == Asc then Min(maxRank + 1 - rank, 6) else Min(rank, 6)
  }

  /** An offer together with the rank and the deal bucket the ranking pass gave it. */
  datatype RankedPizza = RankedPizza(pizza: Pizza, rank: int, valueRank: int)

  function Pizzas(r: seq<RankedPizza>): (ps: seq<Pizza>)
    ensures |ps| == |r|
    ensures forall i :: 0 <= i < |r| ==> ps[i] == r[i].pizza
  {
    if r == [] then [] else [r[0].pizza] + Pizzas(r[1..])
  }

  /**
   * Dense ranking: the first offer has rank 1 and every later one has the rank
   * of its predecessor when the two are tied, and one more otherwise.
   */
  predicate DenseRanked(r: seq<RankedPizza>, c: SortColumn) {
    && (|r| > 0 ==> r[0].rank == 1)
    && forall i :: 0 < i < |r| ==> NextRank(r[i - 1], r[i], c)
  }

  /** The rank step between neighbours: none when they are tied, one otherwise. */
  predicate NextRank(previous: RankedPizza, current: RankedPizza, c: SortColumn) {
    current.rank == if Tied(Key(previous.pizza, c), Key(current.pizza, c)) then previous.rank else previous.rank + 1
  }

  /** Every deal bucket follows from its rank and the number of distinct values. */
  predicate Bucketed(r: seq<RankedPizza>, c: SortColumn, o: Order, maxRank: int) {
    forall i :: 0 <= i < |r| ==> r[i].valueRank == ValueRank(c, o, r[i].rank, maxRank)
  }

  /** What a ranking pass over `ps` produces. */
  predicate IsRanking(r: seq<RankedPizza>, ps: seq<Pizza>, c: SortColumn, o: Order) {
    && multiset(Pizzas(r)) == multiset(ps)
    && SortedBy(Pizzas(r), c, o)
    && DenseRanked(r, c)
    && Bucketed(r, c, o, |DistinctKeys(ps, c)|)
  }

  /**
   * The walk over the sorted copy: keeps the last rank handed out and the last
   * key seen, and moves to the next rank when the key moved by more than the tolerance.
   */
  method RankPass(sorted: seq<Pizza>, c: SortColumn, o: Order, maxRank: int) returns (ranked: seq<RankedPizza>)
    ensures Pizzas(ranked) == sorted
    ensures DenseRanked(ranked, c)
    ensures Bucketed(ranked, c, o, maxRank)
  {
    ranked := [];
    var displayRank := 0;
    var previousValue := 0.0;
    var index := 0;
    while index < |sorted|
      invariant index <= |sorted|
      invariant |ranked| == index
      invariant forall i :: 0 <= i < index ==> ranked[i].pizza == sorted[i]
      invariant DenseRanked(ranked, c)
      invariant Bucketed(ranked, c, o, maxRank)
      invariant index == 0 ==> displayRank == 0
      invariant index > 0 ==> displayRank == ranked[index - 1].rank && previousValue == Key(sorted[index - 1], c)
    {
      var currentValue := Key(sorted[index], c);
      if index == 0 || Abs(currentValue - previousValue) > Tolerance {
        displayRank := displayRank + 1;
      }
      previousValue := currentValue;
      var entry := RankedPizza(sorted[index], displayRank, ValueRank(c, o, displayRank, maxRank));
      assert index > 0 ==> NextRank(ranked[index - 1], entry, c);
      ranked := ranked + [entry];
      index := index + 1;
    }
  }
}
