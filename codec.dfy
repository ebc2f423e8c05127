/**
 * The share link: the store is reduced to its four typed-in fields per offer
 * and packed into the `data` query parameter; loading a link unpacks the
 * records and recomputes every derived field.
 */
module ShareCodec {
  import opened Offers

  datatype Option<T> = None | Some(value: T)

  /** One offer as the link carries it: name, amount, diameter and price. */
  datatype SharedPizza = SharedPizza(n: string, a: int, d: real, p: real)

  /**
   * The text of the `data` parameter. JSON serialisation followed by percent
   * encoding is modelled as an injective packing of the record list: `Packed`
   * is what packing produced, `Unreadable` any text that does not unpack to a
   * record list.
   */
  datatype QueryText = Packed(records: seq<SharedPizza>) | Unreadable(raw: string)

  function Serialize(records: seq<SharedPizza>): (t: QueryText)
    ensures Parse(t) == Some(records)
  {
    Packed(records)
  }

  /** Reading the parameter back; a failure is caught and yields nothing. */
  function Parse(t: QueryText): Option<seq<SharedPizza>> {
    match t
    case Packed(records) => Some(records)
    case Unreadable(_) => None
  }

  /** Reading back gives a record list exactly when the text is the packing of that list. */
  lemma ParseInvertsSerialize(t: QueryText, rs: seq<SharedPizza>)
    ensures Parse(t) == Some(rs) <==> t == Serialize(rs)
  {
  }

  /** The four typed-in fields of one offer. */
  function Share(p: Pizza): SharedPizza {
    SharedPizza(p.name, p.amount, p.diameter, p.price)
  }

  /** The per-offer projection, in store order. */
  function Simplify(ps: seq<Pizza>): (rs: seq<SharedPizza>)
    ensures |rs| == |ps|
    ensures forall i :: 0 <= i < |ps| ==>
      rs[i].n == ps[i].name && rs[i].a == ps[i].amount && rs[i].d == ps[i].diameter && rs[i].p == ps[i].price
  {
    if ps == [] then [] else [Share(ps[0])] + Simplify(ps[1..])
  }

  /** Rebuilds full offers from shared records; every rebuilt offer gets the id `now`. */
  function Rebuild(rs: seq<SharedPizza>, now: nat): (ps: seq<Pizza>)
    ensures |ps| == |rs|
    ensures forall i :: 0 <= i < |rs| ==>
      ps[i] == CalculatePizzaData(rs[i].n, rs[i].a, rs[i].d, rs[i].p, now)
  {
    if rs == [] then [] else [CalculatePizzaData(rs[0].n, rs[0].a, rs[0].d, rs[0].p, now)] + Rebuild(rs[1..], now)
  }

  /** The share parameter for a store: nothing for an empty store. */
  function Encode(ps: seq<Pizza>): (t: Option<QueryText>)
    ensures t.None? <==> ps == []
    ensures t.Some? ==> Parse(t.value) == Some(Simplify(ps))
  {
    if |ps| == 0 then None else Some(Serialize(Simplify(ps)))
  }

  /**
   * The offers a link carries: nothing when the parameter is missing or empty or
   * does not unpack, the rebuilt offers otherwise.
   */
  function Decode(param: Option<QueryText>, now: nat): (ps: Option<seq<Pizza>>)
    ensures param.None? || param == Some(Unreadable("")) ==> ps.None?
    ensures ps.Some? ==> AllWellFormed(ps.value)
    ensures ps.Some? ==> forall i :: 0 <= i < |ps.value| ==> ps.value[i].id == now
    ensures ps.Some? <==> param.Some? && param.value.Packed?
    ensures ps.Some? ==> ps.value == Rebuild(param.value.records, now)
  {
    match param
    case None => None
    case Some(text) =>
      if text == Unreadable("") then None
      else match Parse(text)
        case None => None
        case Some(records) => Some(Rebuild(records, now))
  }

  /**
   * A link round trip keeps every offer's typed-in fields in store order and
   * recomputes its derived fields.
   */
  lemma ShareRoundTrip(ps: seq<Pizza>, now: nat)
    ensures ps == [] ==> Decode(Encode(ps), now) == None
    ensures ps != [] ==> Decode(Encode(ps), now).Some?
    ensures ps != [] ==> var qs := Decode(Encode(ps), now).value;
      && |qs| == |ps|
      && forall i :: 0 <= i < |ps| ==>
           qs[i] == CalculatePizzaData(ps[i].name, ps[i].amount, ps[i].diameter, ps[i].price, now)
  {
  }

  /** Offers whose derived fields are consistent come back from a link exactly, apart from the id. */
  lemma WellFormedSurviveRoundTrip(ps: seq<Pizza>, now: nat)
    requires ps != []
    requires forall p :: p in ps ==> WellFormed(p)
    ensures Decode(Encode(ps), now) == Some(seq(|ps|, i requires 0 <= i < |ps| => ps[i].(id := now)))
  {
    ShareRoundTrip(ps, now);
    var qs := Decode(Encode(ps), now).value;
    var expected := seq(|ps|, i requires 0 <= i < |ps| => ps[i].(id := now));
    forall i | 0 <= i < |ps|
      ensures qs[i] == expected[i]
    {
      var p := ps[i];
      assert p in ps;
      assert CalculatePizzaData(p.name, p.amount, p.diameter, p.price, now)
          == CalculatePizzaData(p.name, p.amount, p.diameter, p.price, p.id).(id := now);
    }
    assert qs == expected;
  }
}
