/**
 * One pizza offer: the four fields the user types in, the totals derived
 * from them, and the input check applied before an offer enters the store.
 */
module Offers {
  import opened Text

  /** A number as parseInt or parseFloat yields it: NaN when the text does not start with one. */
  datatype Parsed<T> = NaN | Number(value: T)

  /**
   * Math.PI as the shortest decimal that reads back as it; the double itself is
   * 3.14159265358979311599..., which this value rounds to.
   */
  const Pi: real := 3.141592653589793

  /**
   * An offer of `amount` pizzas of one `diameter`, each at `price`.
   * `pricePerU2`, `totalPrice` and `totalArea` are derived from the first four
   * fields; `id` is the creation timestamp that an edit keeps.
   */
  datatype Pizza = Pizza(
    name: string,
    amount: int,
    diameter: real,
    price: real,
    pricePerU2: real,
    totalPrice: real,
    totalArea: real,
    id: nat)

  /** The check that guards adding and editing an offer. */
  predicate ValidateInputs(name: string, amount: Parsed<int>, diameter: Parsed<real>, price: Parsed<real>)
    ensures ValidateInputs(name, amount, diameter, price) <==>
      && (exists i :: 0 <= i < |name| && !IsWhitespace(name[i]))
      && amount.Number? && amount.value > 0
      && diameter.Number? && diameter.value > 0.0
      && price.Number? && price.value > 0.0
  {
    && Trim(name) != ""
    && !amount.NaN?
    && !diameter.NaN?
    && !price.NaN?
    && amount.value > 0
    && diameter.value > 0.0
    && price.value > 0.0
  }

  /**
   * The product of two reals. Areas are written with it so that the solver
   * treats the square of a radius as an ordinary product of two factors.
   */
  function Mul(a: real, b: real): real {
    a * b
  }

  lemma MulPositive(a: real, b: real)
    requires a > 0.0 && b > 0.0
    ensures Mul(a, b) > 0.0
  {
  }

  /** The area of one pizza of the given diameter: pi times the radius squared. */
  function UnitArea(diameter: real): real {
    Pi * Mul(diameter / 2.0, diameter / 2.0)
  }

  lemma UnitAreaPositive(diameter: real)
    requires diameter > 0.0
    ensures UnitArea(diameter) > 0.0
  {
    MulPositive(diameter / 2.0, diameter / 2.0);
    MulPositive(Pi, Mul(diameter / 2.0, diameter / 2.0));
  }

  /**
   * Builds an offer from its four input fields: the area of all pizzas together,
   * the total price, and the price per unit of area. A zero area (reachable only
   * from an unvalidated shared link) has no quotient; the model stores 0 there.
   */
  function CalculatePizzaData(name: string, amount: int, diameter: real, price: real, id: nat): (p: Pizza)
    ensures p.name == name && p.amount == amount && p.diameter == diameter && p.price == price
    ensures p.id == id
    ensures p.totalPrice == price * amount as real
    ensures p.totalArea == Mul(UnitArea(diameter), amount as real)
    ensures p.totalArea != 0.0 ==> p.pricePerU2 * p.totalArea == p.totalPrice
    ensures amount > 0 && diameter > 0.0 ==> p.totalArea > 0.0
    ensures amount > 0 && diameter > 0.0 && price > 0.0 ==> p.totalPrice > 0.0 && p.pricePerU2 > 0.0
  {
    var area := Mul(UnitArea(diameter), amount as real);
    var totalPrice := price * amount as real;
    if amount > 0 && diameter > 0.0 then
      UnitAreaPositive(diameter);
      MulPositive(UnitArea(diameter), amount as real);
      Pizza(name, amount, diameter, price, totalPrice / area, totalPrice, area, id)
    else
      Pizza(name, amount, diameter, price,
            if area == 0.0 then 0.0 else totalPrice / area,
            totalPrice, area, id)
  }

  /** An offer whose derived fields are those computed from its own base fields. */
  predicate WellFormed(p: Pizza) {
    p == CalculatePizzaData(p.name, p.amount, p.diameter, p.price, p.id)
  }

  /** Every offer of the list is well formed. */
  predicate AllWellFormed(ps: seq<Pizza>) {
    forall i :: 0 <= i < |ps| ==> WellFormed(ps[i])
  }

  /** A freshly built offer is well formed, whatever id it carries. */
  lemma CalculatedIsWellFormed(name: string, amount: int, diameter: real, price: real, id: nat, id': nat)
    ensures WellFormed(CalculatePizzaData(name, amount, diameter, price, id).(id := id'))
  {
  }

  /** The price per unit of area is the unit price over one pizza's area: the amount cancels. */
  lemma PricePerAreaIsUnitRatio(name: string, amount: int, diameter: real, price: real, id: nat)
    requires amount > 0 && diameter > 0.0
    ensures CalculatePizzaData(name, amount, diameter, price, id).pricePerU2 == price / UnitArea(diameter)
  {
    var p := CalculatePizzaData(name, amount, diameter, price, id);
    var u := UnitArea(diameter);
    var n := amount as real;
    assert p.pricePerU2 * (u * n) == price * n;
    assert (p.pricePerU2 * u) * n == price * n;
    assert p.pricePerU2 * u == price;
  }

  /** Of two offers at the same price and amount, the larger pizza costs less per unit of area. */
  lemma LargerPizzaCheaperPerArea(amount: int, small: real, large: real, price: real)
    requires amount > 0 && 0.0 < small < large && price > 0.0
    ensures CalculatePizzaData("", amount, large, price, 0).pricePerU2
          < CalculatePizzaData("", amount, small, price, 0).pricePerU2
  {
    PricePerAreaIsUnitRatio("", amount, small, price, 0);
    PricePerAreaIsUnitRatio("", amount, large, price, 0);
    UnitAreaPositive(small);
    UnitAreaMonotone(small, large);
    QuotientAntitone(price, UnitArea(small), UnitArea(large));
  }

  /** A wider pizza has a larger area. */
  lemma UnitAreaMonotone(small: real, large: real)
    requires 0.0 < small < large
    ensures UnitArea(small) < UnitArea(large)
  {
    var s, l := small / 2.0, large / 2.0;
    assert Mul(s, s) < Mul(s, l);
    assert Mul(s, l) < Mul(l, l);
  }

  /** Dividing a positive amount by a larger divisor gives less. */
  lemma QuotientAntitone(x: real, a: real, b: real)
    requires x > 0.0 && 0.0 < a < b
    ensures x / b < x / a
  {
    assert (x / b) * b == x;
    assert (x / a) * a == x;
    assert (x / b) * a < (x / b) * b;
  }

  /** One 30-unit pizza at 10: area about 706.86, price per unit of area about 0.01415. */
  lemma SingleMargherita(id: nat)
    ensures var p := CalculatePizzaData("Margherita", 1, 30.0, 10.0, id);
      && 706.85 < p.totalArea < 706.87
      && p.totalPrice == 10.0
      && 0.01414 < p.pricePerU2 < 0.01415
  {
    var p := CalculatePizzaData("Margherita", 1, 30.0, 10.0, id);
    assert p.totalArea == Pi * 225.0;
    assert p.pricePerU2 * p.totalArea == 10.0;
  }
}
