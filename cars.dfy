/** The car registry: an ordered in-memory list of cars, listed (optionally
    filtered by make), searched by id, and appended to by the create handler. */
module Cars {
  import opened JsValues
  import opened Text

  /** One car record. The source's `type` field is called `kind` here,
      because `type` is a Dafny keyword. */
  datatype Car = Car(id: int, make: string, kind: string, model: string, cost: int)

  const IdRequired: string := "id is required!"
  const CarNotFound: string := "car is not found!"
  const FieldsRequired: string := "make, type, model, cost, id is required"

  // ---------------------------------------------------------------------------
  // Listing: `GET /cars` and `GET /cars?make=`

  /** `cars.filter(car => car.make.includes(make))`: the cars whose make
      contains `make`, in list order. */
  function Matching(cars: seq<Car>, make: string): (r: seq<Car>)
    ensures |r| <= |cars|
    ensures forall c :: c in r ==> c in cars && Includes(c.make, make)
    ensures forall c :: c in cars && Includes(c.make, make) ==> c in r
    decreases |cars|
  {
    if cars == [] then
      []
    else
      var n := |cars| - 1;
      assert cars == cars[..n] + [cars[n]];
      Matching(cars[..n], make) + (if Includes(cars[n].make, make) then [cars[n]] else [])
  }

  /** The positions of the cars whose make contains `make`: strictly
      increasing, and holding every such position of `cars` and no other. */
  function MatchPositions(cars: seq<Car>, make: string): (p: seq<nat>)
    ensures forall k :: 0 <= k < |p| ==> p[k] < |cars|
    ensures forall k, l :: 0 <= k < l < |p| ==> p[k] < p[l]
    ensures forall i :: 0 <= i < |cars| ==> (i in p <==> Includes(cars[i].make, make))
    decreases |cars|
  {
    if cars == [] then
      []
    else
      var n := |cars| - 1;
      MatchPositions(cars[..n], make) + (if Includes(cars[n].make, make) then [n] else [])
  }

  /** Filtering keeps exactly the cars at the matching positions, each once,
      in their original order: the result is the subsequence of `cars` taken
      at the positions `MatchPositions` describes. */
  lemma {:induction false} MatchingSelectsInOrder(cars: seq<Car>, make: string)
    ensures var r, p := Matching(cars, make), MatchPositions(cars, make);
      |r| == |p| && forall k :: 0 <= k < |p| ==> r[k] == cars[p[k]]
    decreases |cars|
  {
    if cars != [] {
      var n := |cars| - 1;
      MatchingSelectsInOrder(cars[..n], make);
      var r, p := Matching(cars, make), MatchPositions(cars, make);
      var r', p' := Matching(cars[..n], make), MatchPositions(cars[..n], make);
      forall k | 0 <= k < |p| ensures r[k] == cars[p[k]] {
        if k < |p'| {
          assert r[k] == r'[k] && p[k] == p'[k];
        }
      }
    }
  }

  /** The reply to `GET /cars` with query parameter `make`: the whole list
      when `make` is absent or empty, the filtered list otherwise. Listing
      never fails. */
  function ListCars(cars: seq<Car>, make: Option<string>): (r: seq<Car>)
    ensures !IsTruthyString(make) ==> r == cars
    ensures IsTruthyString(make) ==>
      (forall c :: c in r ==> c in cars && Includes(c.make, make.value)) &&
      (forall c :: c in cars && Includes(c.make, make.value) ==> c in r)
  {
    if IsTruthyString(make) then Matching(cars, make.value) else cars
  }

  // ---------------------------------------------------------------------------
  // Lookup: `GET /cars/:id`

  /** `cars.find(elt => elt.id == id)`: the first car with that id, if any. */
  function Find(cars: seq<Car>, id: int): (r: Option<Car>)
    ensures r.None? <==> forall i :: 0 <= i < |cars| ==> cars[i].id != id
    ensures r.Some? ==> exists i :: 0 <= i < |cars| && cars[i] == r.value && FirstWithId(cars, id, i)
    decreases |cars|
  {
    if cars == [] then
      None
    else if cars[0].id == id then
      assert FirstWithId(cars, id, 0);
      Some(cars[0])
    else
      var r := Find(cars[1..], id);
      assert r.Some? ==> exists i :: 0 <= i < |cars| && cars[i] == r.value && FirstWithId(cars, id, i) by {
        if r.Some? {
          var i :| 0 <= i < |cars| - 1 && cars[1..][i] == r.value && FirstWithId(cars[1..], id, i);
          assert FirstWithId(cars, id, i + 1);
        }
      }
      assert r.None? ==> forall i :: 0 <= i < |cars| ==> cars[i].id != id by {
        if r.None? {
          forall i | 0 < i < |cars| ensures cars[i].id != id {
            assert cars[1..][i - 1] == cars[i];
          }
        }
      }
      r
  }

  /** Position `i` holds a car with this id and no earlier position does. */
  predicate FirstWithId(cars: seq<Car>, id: int, i: int)
  {
    0 <= i < |cars| && cars[i].id == id && forall j :: 0 <= j < i ==> cars[j].id != id
  }

  /** The reply to `GET /cars/:id`, where `id` is the result of `parseInt`
      on the path segment. A falsy id (`NaN` or 0) is a bad request and no
      search happens; otherwise the first car with that id is returned, or
      "not found" when there is none. */
  function GetCar(cars: seq<Car>, id: Option<int>): (r: Reply<Car>)
    ensures r.BadRequest? <==> !IsTruthyNumber(id)
    ensures r.BadRequest? ==> r.msg == IdRequired
    ensures r.NotFound? <==> IsTruthyNumber(id) && forall i :: 0 <= i < |cars| ==> cars[i].id != id.value
    ensures r.NotFound? ==> r.msg == CarNotFound
    ensures r.Ok? ==> r.value.id == id.value && exists i :: FirstWithId(cars, id.value, i) && cars[i] == r.value
  {
    if !IsTruthyNumber(id) then
      BadRequest(IdRequired)
    else
      match Find(cars, id.value)
      case None => NotFound(CarNotFound)
      case Some(car) => Ok(car)
  }

  /** Any two cars carrying the same id: lookup can only ever return the
      earlier one, so a later duplicate is unreachable by id. */
  lemma DuplicateIdIsShadowed(cars: seq<Car>, i: int, j: int)
    requires 0 <= i < j < |cars| && cars[i].id == cars[j].id && cars[j].id != 0
    ensures GetCar(cars, Some(cars[j].id)).Ok?
    ensures exists k :: 0 <= k <= i && GetCar(cars, Some(cars[j].id)).value == cars[k]
  {
    var id := cars[j].id;
    assert cars[i].id == id;
    var r := GetCar(cars, Some(id));
    assert r.Ok?;
    var k :| FirstWithId(cars, id, k) && cars[k] == r.value;
    assert k <= i;
  }

  // ---------------------------------------------------------------------------
  // Creation: `POST /cars`

  /** The validation and construction step of `POST /cars`: `id` and `cost`
      are the results of `parseInt` on the body fields, `make`, `kind` and
      `model` the body fields themselves. Any falsy field (including an id or
      cost of 0) makes a bad request; otherwise the new record. */
  function NewCar(id: Option<int>, make: Option<string>, kind: Option<string>,
                  model: Option<string>, cost: Option<int>): (r: Reply<Car>)
    ensures r.Ok? <==>
      IsTruthyNumber(id) && IsTruthyString(make) && IsTruthyString(kind) &&
      IsTruthyString(model) && IsTruthyNumber(cost)
    ensures !r.Ok? ==> r == BadRequest(FieldsRequired)
    ensures r.Ok? ==>
      r.value.id == id.value && r.value.make == make.value && r.value.kind == kind.value &&
      r.value.model == model.value && r.value.cost == cost.value
  {
    if !IsTruthyNumber(id) || !IsTruthyString(make) || !IsTruthyString(kind) ||
       !IsTruthyString(model) || !IsTruthyNumber(cost)
    then
      BadRequest(FieldsRequired)
    else
      Ok(Car(id.value, make.value, kind.value, model.value, cost.value))
  }

  /** The registry itself: the module-level list that the handlers share. */
  class CarStore {
    var cars: seq<Car>

    /** The registry as the process starts, holding the seed list. */
    constructor (seed: seq<Car>)
      ensures cars == seed
    {
      cars := seed;
    }

    /** `POST /cars`: validate the fields; on success append the new car in
        place and return it, otherwise leave the list as it was. Duplicate
        ids are not rejected. */
    method Create(id: Option<int>, make: Option<string>, kind: Option<string>,
                  model: Option<string>, cost: Option<int>) returns (r: Reply<Car>)
      modifies this
      ensures r == NewCar(id, make, kind, model, cost)
      ensures !r.Ok? ==> cars == old(cars)
      ensures r.Ok? ==>
        |cars| == |old(cars)| + 1 && cars[..|old(cars)|] == old(cars) && cars[|cars| - 1] == r.value
    {
      r := NewCar(id, make, kind, model, cost);
      if r.Ok? {
        cars := cars + [r.value];
      }
    }
  }

  // ---------------------------------------------------------------------------
  // Creating, then reading back

  /** After a car is appended, the unfiltered listing is the old listing
      followed by the new car, and a filtered listing gains the new car at
      its end exactly when its make matches. */
  lemma ListAfterAppend(cars: seq<Car>, car: Car, make: Option<string>)
    ensures ListCars(cars + [car], make) ==
      ListCars(cars, make) + (if !IsTruthyString(make) || Includes(car.make, make.value) then [car] else [])
  {
    if IsTruthyString(make) {
      assert (cars + [car])[..|cars|] == cars;
    }
  }

  /** Searching after an append finds what it found before, and finds the
      appended car only when no earlier car has its id. */
  lemma {:induction false} FindAfterAppend(cars: seq<Car>, car: Car, id: int)
    ensures Find(cars + [car], id) ==
      if Find(cars, id).Some? then Find(cars, id)
      else if car.id == id then Some(car)
      else None
    decreases |cars|
  {
    if cars != [] && cars[0].id != id {
      assert (cars + [car])[1..] == cars[1..] + [car];
      FindAfterAppend(cars[1..], car, id);
    }
  }

  /** A successfully created car can be fetched by its id unless an earlier
      car already carries that id, in which case the earlier one is returned. */
  lemma GetAfterCreate(cars: seq<Car>, id: Option<int>, make: Option<string>, kind: Option<string>,
                       model: Option<string>, cost: Option<int>)
    requires NewCar(id, make, kind, model, cost).Ok?
    ensures var car := NewCar(id, make, kind, model, cost).value;
      GetCar(cars + [car], id) ==
        if forall i :: 0 <= i < |cars| ==> cars[i].id != id.value then Ok(car) else GetCar(cars, id)
  {
    FindAfterAppend(cars, NewCar(id, make, kind, model, cost).value, id.value);
  }
}
