# Car registry of the basic exercise server

This project models the request-handling core of the course's basic Express
server (`course-02/exercises/udacity-c2-basic-server/src/server.ts`). The
server keeps one module-level list of cars in memory. Three handlers work on it:

- `GET /cars` lists the cars. With a non-empty `make` query parameter it lists
  only the cars whose make contains that text (case-sensitive), keeping their order.
- `GET /cars/:id` parses the id. A falsy id (`NaN` or 0) is a bad request.
  Otherwise the handler returns the first car with that id, or "not found".
- `POST /cars` checks that `id`, `make`, `type`, `model` and `cost` are all truthy.
  If they are, it appends the new car to the list in place and echoes it back.
  If not, it answers with a bad request and the list stays as it was.

The three greeting handlers (`/persons/:name`, `/persons?name=`, `POST /persons`)
are also modelled. Each answers "name is required" for a falsy name and
`Welcome to the Cloud, <name>!` otherwise.

Files and modules:

- `js_values.dfy` (`JsValues`): `Option` and the `Reply` datatype.
  `Reply` has the outcomes 200 (`Ok`), 400 (`BadRequest`) and 404 (`NotFound`).
  The module also defines JavaScript truthiness for a parsed number (`NaN` = `None`, and `0`) and for a string field (`undefined` = `None`, and `""`).
- `text.dfy` (`Text`): `String.prototype.includes` as a recursive search.
  It is proved equal to "there is a position where the substring occurs".
- `greetings.dfy` (`Greetings`): the greeting handlers as one function.
  All three take the name from a different part of the request, then behave the same.
- `cars.dfy` (`Cars`): the `Car` record and `filter` and `find` on the list.
  It also holds the list, lookup and create handlers. The class `CarStore` holds the shared list as a `seq<Car>` field, and its `Create` method appends to that field in place.
  Listing and lookup are functions of the list, so they cannot change it.

The source's `type` field is named `kind` in the model, because `type` is a Dafny keyword.

## Model

| member | source | states |
|---|---|---|
| `Greetings.Greet` | course-02/exercises/udacity-c2-basic-server/src/server.ts:28-71 | the reply is a success exactly when the name is truthy; otherwise it is BadRequest "name is required"; a success's text is `Welcome to the Cloud, ` + name + `!` |
| `Greetings.GreetingMentionsName` | course-02/exercises/udacity-c2-basic-server/src/server.ts:37-38 | a greeting for a non-empty name succeeds and contains the name as a substring |
| `Greetings.GreetingRecoversName` | course-02/exercises/udacity-c2-basic-server/src/server.ts:51-52 | a successful greeting is the salutation, then exactly the name, then "!", so the name can be read back |
| `Greetings.GreetingIsInjective` | course-02/exercises/udacity-c2-basic-server/src/server.ts:69-70 | two names that get the same successful greeting are the same name |
| `Text.Includes` | course-02/exercises/udacity-c2-basic-server/src/server.ts:84 | `make.includes(sub)` holds exactly when `sub` occurs in `make` at some position |
| `Cars.Matching` | course-02/exercises/udacity-c2-basic-server/src/server.ts:84 | the filtered list is no longer than the list; every car in it is in the list and its make contains the filter; no car of the list whose make contains the filter is dropped |
| `Cars.MatchPositions` | course-02/exercises/udacity-c2-basic-server/src/server.ts:84 | the positions kept by the filter are strictly increasing and are exactly the positions whose car's make contains the filter |
| `Cars.MatchingSelectsInOrder` | course-02/exercises/udacity-c2-basic-server/src/server.ts:84 | the filtered list is the list taken at those positions, in order: it is the order-preserving subsequence of matching cars |
| `Cars.ListCars` | course-02/exercises/udacity-c2-basic-server/src/server.ts:78-90 | with no or an empty `make` the reply is the whole list in insertion order; with a non-empty `make` it holds exactly the cars whose make contains it |
| `Cars.Find` | course-02/exercises/udacity-c2-basic-server/src/server.ts:105 | the search finds nothing exactly when no car has the id; otherwise it returns the car at the first position holding that id |
| `Cars.GetCar` | course-02/exercises/udacity-c2-basic-server/src/server.ts:98-116 | BadRequest "id is required!" exactly when the parsed id is NaN or 0; NotFound "car is not found!" exactly when the id is truthy and no car has it; otherwise the first car with that id |
| `Cars.DuplicateIdIsShadowed` | course-02/exercises/udacity-c2-basic-server/src/server.ts:105-110 | when two cars share an id, lookup by that id returns a car at or before the earlier one, so a later duplicate is never reached |
| `Cars.NewCar` | course-02/exercises/udacity-c2-basic-server/src/server.ts:127-137 | the request is accepted exactly when id, make, type, model and cost are all truthy (so an id or cost of 0 is rejected); a rejection is BadRequest "make, type, model, cost, id is required"; an accepted record has exactly the given fields |
| `Cars.CarStore.constructor` | course-02/exercises/udacity-c2-basic-server/src/server.ts:5 | the registry starts out as the seed list |
| `Cars.CarStore.Create` | course-02/exercises/udacity-c2-basic-server/src/server.ts:123-145 | the reply is the validation's outcome; on a rejection the list is unchanged; on success the list grows by exactly one, the earlier cars are unchanged and the last car is the record returned; duplicate ids are accepted |
| `Cars.ListAfterAppend` | course-02/exercises/udacity-c2-basic-server/src/server.ts:83-86 | after an append, the unfiltered listing is the old listing plus the new car, and a filtered listing gains the new car at its end exactly when its make matches |
| `Cars.FindAfterAppend` | course-02/exercises/udacity-c2-basic-server/src/server.ts:105 | after an append, the search returns what it returned before; it returns the appended car only when no earlier car has its id |
| `Cars.GetAfterCreate` | course-02/exercises/udacity-c2-basic-server/src/server.ts:137-140 | a created car is fetched back by its id unless an earlier car already has that id, in which case lookup answers as before the create |

## Left out

- The root handler `GET /` always answers with the fixed text "Welcome to the Cloud!". It holds no logic.
- Express setup, the body-parser and urlencoded middleware, route registration, `app.listen` and console logging are framework plumbing and I/O.
- HTTP responses are not modelled byte for byte: `res.status(...).json/send` becomes the `Reply` constructors.
- The `catch (err)` branches that reply 500 are left out. They depend on runtime exceptions thrown by the framework.
- `parseInt` string parsing is not modelled. The parsed id and cost are inputs of type `Option<int>`, where `None` stands for `NaN`.
  A non-integer number in the seed list is not modelled either.
- Request fields that are not strings are not modelled. This covers a `make`, `type`, `model` or `name` that is a number, an array or an object.
  Such a field is treated as a string, with `""` the only falsy string.
- JavaScript strings are sequences of UTF-16 code units; the model's strings are sequences of Dafny `char`.
- The seed data module `./cars` is not part of this model. The initial list is an arbitrary `seq<Car>` given to the constructor.
  The unused alias `let cars = cars_list` is left out as well.
- Requests are handled one at a time to completion, so concurrency is not modelled.
