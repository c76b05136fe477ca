/** The three greeting handlers: `GET /persons/:name` reads the name from the
    path, `GET /persons?name=` from the query string and `POST /persons` from
    the JSON body. Once the name has been taken out of the request, all three
    behave the same way, so one function models them. */
module Greetings {
  import opened JsValues
  import opened Text

  const NameRequired: string := "name is required"
  const Salutation: string := "Welcome to the Cloud, "

  /** The reply to a greeting request carrying `name`. */
  function Greet(name: Option<string>): (r: Reply<string>)
    ensures r.Ok? <==> IsTruthyString(name)
    ensures !r.Ok? ==> r == BadRequest(NameRequired)
    ensures r.Ok? ==> r.value == Salutation + name.value + "!"
  {
    if !IsTruthyString(name) then BadRequest(NameRequired)
    else Ok(Salutation + name.value + "!")
  }

  /** A successful greeting mentions the person by name. */
  lemma GreetingMentionsName(name: string)
    requires name != ""
    ensures Greet(Some(name)).Ok?
    ensures Includes(Greet(Some(name)).value, name)
  {
    var g := Greet(Some(name)).value;
    assert g[|Salutation|..|Salutation| + |name|] == name;
    assert OccursAt(g, name, |Salutation|);
  }

  /** The name can be read back from a successful greeting: the text between
      the salutation and the closing "!" is the name itself. */
  lemma GreetingRecoversName(name: Option<string>)
    requires Greet(name).Ok?
    ensures var g := Greet(name).value;
      |g| == |Salutation| + |name.value| + 1 &&
      g[..|Salutation|] == Salutation &&
      g[|Salutation|..|g| - 1] == name.value &&
      g[|g| - 1] == '!'
  {
    var g := Greet(name).value;
    assert g == Salutation + name.value + "!";
  }

  /** Different names get different greetings. */
  lemma GreetingIsInjective(a: Option<string>, b: Option<string>)
    requires Greet(a).Ok? && Greet(a) == Greet(b)
    ensures a == b
  {
    GreetingRecoversName(a);
    GreetingRecoversName(b);
  }
}
