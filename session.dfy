/**
 * The page's state object: the offer store, its ranked copy and the sort
 * state, with the operations that change them. Every change to the store or to
 * the sort state is followed by a fresh ranking pass.
 */
module Session {
  import opened Offers
  import opened Ranking
  import opened ShareCodec

  /** How saving an edit ends: stored, refused by the input check, or aimed at no offer. */
  datatype EditOutcome = Saved | Invalid | NoSuchPizza

  /**
   * Where `splice(start, 1)` removes: a negative start counts from the end and
   * stops at the front, and a start past the end stops at the end.
   */
  function SpliceStart(start: int, length: nat): (k: nat)
    ensures k <= length
    ensures 0 <= start <= length ==> k == start
    ensures start < 0 && length + start >= 0 ==> k == length + start
    ensures length + start < 0 ==> k == 0
    ensures start > length ==> k == length
  {
    if start < 0 then
      if length + start < 0 then 0 else length + start
    else if start < length then start
    else length
  }

  /** The store after `splice(start, 1)`: the offer at the normalised start is gone, if there is one. */
  function SpliceOne(s: seq<Pizza>, start: int): (r: seq<Pizza>)
    ensures var k := SpliceStart(start, |s|);
      k < |s| ==>
        && |r| == |s| - 1
        && (forall j :: 0 <= j < k ==> r[j] == s[j])
        && (forall j :: k <= j < |r| ==> r[j] == s[j + 1])
    ensures SpliceStart(start, |s|) == |s| ==> r == s
  {
    var k := SpliceStart(start, |s|);
    if k < |s| then s[..k] + s[k + 1..] else s
  }

  /** Deleting a slot in range removes exactly that offer and shifts the later ones forward. */
  lemma SpliceRemovesSlot(s: seq<Pizza>, index: int)
    requires 0 <= index < |s|
    ensures |SpliceOne(s, index)| == |s| - 1
    ensures forall j :: 0 <= j < index ==> SpliceOne(s, index)[j] == s[j]
    ensures forall j :: index <= j < |s| - 1 ==> SpliceOne(s, index)[j] == s[j + 1]
    ensures multiset(SpliceOne(s, index)) + multiset{s[index]} == multiset(s)
  {
    assert s == s[..index] + [s[index]] + s[index + 1..];
  }

  /** With no offer picked, the index is -1 and `splice` removes the last offer. */
  lemma SpliceMinusOneRemovesLast(s: seq<Pizza>)
    requires s != []
    ensures SpliceOne(s, -1) == s[..|s| - 1]
  {
  }

  /** Removing an offer leaves the others well formed. */
  lemma SpliceKeepsWellFormed(s: seq<Pizza>, start: int)
    requires AllWellFormed(s)
    ensures AllWellFormed(SpliceOne(s, start))
  {
    var k := SpliceStart(start, |s|);
    if k < |s| {
      var r := SpliceOne(s, start);
      forall i | 0 <= i < |r|
        ensures WellFormed(r[i])
      {
        if i < k {
          assert r[i] == s[i];
        } else {
          assert r[i] == s[i + 1];
        }
      }
    }
  }

  class State {
    var pizzas: seq<Pizza>
    var rankedPizzas: seq<RankedPizza>
    var sortColumn: SortColumn
    var sortOrder: Order

    /** Every offer carries its own derived fields, and the ranked copy is up to date. */
    ghost predicate Valid()
      reads this
    {
      && AllWellFormed(pizzas)
      && Pizzas(rankedPizzas) == Sort(pizzas, sortColumn, sortOrder)
      && IsRanking(rankedPizzas, pizzas, sortColumn, sortOrder)
    }

    /** An empty store, sorted by price per unit of area, best first. */
    constructor ()
      ensures Valid()
      ensures pizzas == [] && rankedPizzas == []
      ensures sortColumn == PricePerU2 && sortOrder == Asc
    {
      pizzas := [];
      rankedPizzas := [];
      sortColumn := PricePerU2;
      sortOrder := Asc;
    }

    /** Recomputes the ranked copy from the store and the sort state; the store keeps its order. */
    method CalculateRanks()
      modifies this`rankedPizzas
      ensures Pizzas(rankedPizzas) == Sort(pizzas, sortColumn, sortOrder)
      ensures IsRanking(rankedPizzas, pizzas, sortColumn, sortOrder)
    {
      var sorted := Sort(pizzas, sortColumn, sortOrder);
      var maxRank := |DistinctKeys(pizzas, sortColumn)|;
      rankedPizzas := RankPass(sorted, sortColumn, sortOrder, maxRank);
    }

    /** Installs a new store and ranks it again; the sort state stays. */
    method ReplaceStore(next: seq<Pizza>)
      requires AllWellFormed(next)
      modifies this
      ensures Valid()
      ensures pizzas == next
      ensures sortColumn == old(sortColumn) && sortOrder == old(sortOrder)
    {
      pizzas := next;
      CalculateRanks();
    }

    /** Installs a new sort state and ranks the store again. */
    method Resort(column: SortColumn, order: Order)
      requires AllWellFormed(pizzas)
      modifies this
      ensures Valid()
      ensures pizzas == old(pizzas)
      ensures sortColumn == column && sortOrder == order
    {
      sortColumn := column;
      sortOrder := order;
      CalculateRanks();
    }

    /** Appends a new offer when the input check passes; otherwise nothing changes. */
    method AddPizza(name: string, amount: Parsed<int>, diameter: Parsed<real>, price: Parsed<real>, now: nat)
      returns (added: bool)
      requires Valid()
      modifies this
      ensures Valid()
      ensures added == ValidateInputs(name, amount, diameter, price)
      ensures added ==> pizzas == old(pizzas) + [CalculatePizzaData(name, amount.value, diameter.value, price.value, now)]
      ensures !added ==> pizzas == old(pizzas) && rankedPizzas == old(rankedPizzas)
      ensures sortColumn == old(sortColumn) && sortOrder == old(sortOrder)
    {
      if !ValidateInputs(name, amount, diameter, price) {
        return false;
      }
      var pizza := CalculatePizzaData(name, amount.value, diameter.value, price.value, now);
      CalculatedIsWellFormed(name, amount.value, diameter.value, price.value, now, now);
      var next := pizzas + [pizza];
      assert forall i :: 0 <= i < |pizzas| ==> next[i] == pizzas[i];
      ReplaceStore(next);
      added := true;
    }

    /**
     * Replaces the offer at `editingIndex` with one rebuilt from the input; it
     * keeps the old id unless that id is 0. For an index outside the store the
     * lookup of the old id reads a missing slot and throws a TypeError before
     * anything is stored; `NoSuchPizza` stands for that exception.
     */
    method SavePizzaEdit(editingIndex: int, name: string, amount: Parsed<int>, diameter: Parsed<real>,
                         price: Parsed<real>, now: nat)
      returns (outcome: EditOutcome)
      requires Valid()
      modifies this
      ensures Valid()
      ensures outcome == Invalid <==> !ValidateInputs(name, amount, diameter, price)
      ensures outcome == NoSuchPizza <==>
        ValidateInputs(name, amount, diameter, price) && !(0 <= editingIndex < |old(pizzas)|)
      ensures outcome != Saved ==> pizzas == old(pizzas) && rankedPizzas == old(rankedPizzas)
      ensures outcome == Saved ==>
        var oldId := old(pizzas)[editingIndex].id;
        pizzas == old(pizzas)[editingIndex :=
          CalculatePizzaData(name, amount.value, diameter.value, price.value, if oldId != 0 then oldId else now)]
      ensures outcome == Saved ==>
        |pizzas| == |old(pizzas)| && forall j :: 0 <= j < |pizzas| && j != editingIndex ==> pizzas[j] == old(pizzas)[j]
      ensures sortColumn == old(sortColumn) && sortOrder == old(sortOrder)
    {
      if !ValidateInputs(name, amount, diameter, price) {
        return Invalid;
      }
      var updatedPizza := CalculatePizzaData(name, amount.value, diameter.value, price.value, now);
      if !(0 <= editingIndex < |pizzas|) {
        return NoSuchPizza;
      }
      var oldId := pizzas[editingIndex].id;
      if oldId != 0 {
        updatedPizza := updatedPizza.(id := oldId);
      }
      CalculatedIsWellFormed(name, amount.value, diameter.value, price.value, now, updatedPizza.id);
      var next := pizzas[editingIndex := updatedPizza];
      assert forall i :: 0 <= i < |pizzas| && i != editingIndex ==> next[i] == pizzas[i];
      ReplaceStore(next);
      outcome := Saved;
    }

    /** Removes the offer at `deletingIndex` the way `splice(deletingIndex, 1)` does. */
    method ConfirmDeletePizza(deletingIndex: int)
      requires Valid()
      modifies this
      ensures Valid()
      ensures pizzas == SpliceOne(old(pizzas), deletingIndex)
      ensures 0 <= deletingIndex < |old(pizzas)| ==>
        pizzas == old(pizzas)[..deletingIndex] + old(pizzas)[deletingIndex + 1..]
      ensures sortColumn == old(sortColumn) && sortOrder == old(sortOrder)
    {
      var next := SpliceOne(pizzas, deletingIndex);
      SpliceKeepsWellFormed(pizzas, deletingIndex);
      ReplaceStore(next);
    }

    /**
     * A click on a column header: the rank and name columns are ignored, the
     * current column flips direction, any other column becomes the sort column
     * in ascending order.
     */
    method SortTable(column: Column)
      requires Valid()
      modifies this
      ensures Valid()
      ensures pizzas == old(pizzas)
      ensures column.Rank? || column.Name? ==> unchanged(this)
      ensures !column.Rank? && !column.Name? && column == old(sortColumn) ==>
        sortColumn == old(sortColumn) && sortOrder == (if old(sortOrder) == Asc then Desc else Asc)
      ensures !column.Rank? && !column.Name? && column != old(sortColumn) ==>
        sortColumn == column && sortOrder == Asc
    {
      if column.Rank? || column.Name? {
        return;
      }
      if sortColumn == column {
        Resort(sortColumn, if sortOrder == Asc then Desc else Asc);
      } else {
        Resort(column, Asc);
      }
    }

    /** On start-up, a link carrying at least one offer replaces the store. */
    method LoadShared(param: Option<QueryText>, now: nat)
      requires Valid()
      modifies this
      ensures Valid()
      ensures var decoded := Decode(param, now);
        if decoded.Some? && |decoded.value| > 0 then pizzas == decoded.value
        else pizzas == old(pizzas) && rankedPizzas == old(rankedPizzas)
      ensures sortColumn == old(sortColumn) && sortOrder == old(sortOrder)
    {
      var urlPizzas := Decode(param, now);
      if urlPizzas.Some? && |urlPizzas.value| > 0 {
        ReplaceStore(urlPizzas.value);
      }
    }

    /** The share parameter for the current store. */
    function ShareParam(): (t: Option<QueryText>)
      reads this
      ensures t.None? <==> pizzas == []
      ensures t.Some? ==> Parse(t.value) == Some(Simplify(pizzas))
    {
      Encode(pizzas)
    }
  }
}
