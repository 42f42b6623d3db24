/**
 The request checks that the POST, PUT and DELETE handlers of `/inventory` run
 before they touch the items table. Each check chain is a fixed sequence of
 rules; the first rule that fails decides the response and nothing is written.
 */
module Validation {
  import opened Json

  /** A request body: the own properties of the decoded JSON object. */
  type Request = map<string, JsonValue>

  /** The three columns of a row of the items table. */
  datatype Item = Item(name: JsonValue, cost: JsonValue, quantity: JsonValue)

  /** Express's default status when a handler sets none. */
  const StatusOk := 200
  const StatusBadRequest := 400
  const StatusServerError := 500

  /** What a check chain decides: go ahead with a value, or answer with an error. */
  datatype Verdict<T> = Accept(value: T) | Reject(status: int, message: string)

  // ---------------------------------------------------------------------------
  // Field rules

  /** `v == null || v.length === 0`: strings and arrays have a length; an object
      has one only if it carries a "length" property; numbers and booleans have
      none, so they pass. */
  predicate NameRejected(v: JsonValue) {
    match v
    case Null => true
    case Str(s) => s == []
    case Arr(elems) => elems == []
    case Obj(fields) => "length" in fields && fields["length"] == Int(0)
    case _ => false
  }

  /** `v == null || v === ""`, the only test cost and quantity get. */
  predicate BlankRejected(v: JsonValue) {
    v == Null || v == Str("")
  }

  /** An item whose three columns pass the field rules. */
  predicate Acceptable(item: Item) {
    !NameRejected(item.name) && !BlankRejected(item.cost) && !BlankRejected(item.quantity)
  }

  /** Calling `jReq.hasOwnProperty(...)` throws when the body has an own property
      of that name, since no JSON value is a function; the handler's catch block
      answers instead. */
  predicate ShadowsHasOwnProperty(req: Request) {
    "hasOwnProperty" in req
  }

  predicate HasItemFields(req: Request) {
    "name" in req && "cost" in req && "quantity" in req
  }

  /** The name, cost and quantity rules, in that order. */
  function CheckItemFields(req: Request): (r: Verdict<Item>)
    requires HasItemFields(req)
    ensures r.Accept? <==> Acceptable(Item(req["name"], req["cost"], req["quantity"]))
    ensures r.Accept? ==> r.value == Item(req["name"], req["cost"], req["quantity"])
    ensures r.Reject? ==> r.status == StatusOk
  {
    if NameRejected(req["name"]) then Reject(StatusOk, "invalid item name")
    else if BlankRejected(req["cost"]) then Reject(StatusOk, "invalid item cost")
    else if BlankRejected(req["quantity"]) then Reject(StatusOk, "invalid item quantity")
    else Accept(Item(req["name"], req["cost"], req["quantity"]))
  }

  // ---------------------------------------------------------------------------
  // The three check chains

  /** POST /inventory. */
  function CheckCreate(req: Request): Verdict<Item> {
    if ShadowsHasOwnProperty(req) then Reject(StatusBadRequest, "unable to process request")
    else if !HasItemFields(req) then Reject(StatusBadRequest, "missing required data")
    else CheckItemFields(req)
  }

  /** The row a PUT writes: the id as the client sent it, and the new columns. */
  datatype Change = Change(id: JsonValue, item: Item)

  const NotJson := "unable to process request. was the data sent as JSON?"

  /** PUT /inventory. */
  function CheckUpdate(req: Request): Verdict<Change> {
    if ShadowsHasOwnProperty(req) then Reject(StatusBadRequest, NotJson)
    else if !("id" in req && HasItemFields(req)) then Reject(StatusBadRequest, "missing required data")
    else if !IdAccepted(req["id"]) then Reject(StatusOk, "invalid item id")
    else match CheckItemFields(req)
      case Reject(status, message) => Reject(status, message)
      case Accept(item) => Accept(Change(req["id"], item))
  }

  /** DELETE /inventory. */
  function CheckDelete(req: Request): Verdict<JsonValue> {
    if ShadowsHasOwnProperty(req) then Reject(StatusBadRequest, NotJson)
    else if "id" !in req then Reject(StatusBadRequest, "missing item ID")
    else if !IdAccepted(req["id"]) then Reject(StatusOk, "invalid item id")
    else Accept(req["id"])
  }

  // ---------------------------------------------------------------------------
  // The chains as ordered rule lists: an independent statement of "the first
  // failing rule wins"

  datatype Rule = Rule(fails: bool, status: int, message: string)

  function FirstFailure(rules: seq<Rule>): Option<Rule> {
    if rules == [] then None
    else if rules[0].fails then Some(rules[0])
    else FirstFailure(rules[1..])
  }

  /** A rule that can only fail when the key is there: later rules in a chain
      are only reached once the presence rule has passed. */
  function FieldRule(req: Request, key: string, rejected: JsonValue -> bool, message: string): Rule {
    Rule(key in req && rejected(req[key]), StatusOk, message)
  }

  function CreateRules(req: Request): seq<Rule> {
    [ Rule(ShadowsHasOwnProperty(req), StatusBadRequest, "unable to process request"),
      Rule(!HasItemFields(req), StatusBadRequest, "missing required data"),
      FieldRule(req, "name", NameRejected, "invalid item name"),
      FieldRule(req, "cost", BlankRejected, "invalid item cost"),
      FieldRule(req, "quantity", BlankRejected, "invalid item quantity") ]
  }

  function UpdateRules(req: Request): seq<Rule> {
    [ Rule(ShadowsHasOwnProperty(req), StatusBadRequest, NotJson),
      Rule(!("id" in req && HasItemFields(req)), StatusBadRequest, "missing required data"),
      FieldRule(req, "id", v => !IdAccepted(v), "invalid item id"),
      FieldRule(req, "name", NameRejected, "invalid item name"),
      FieldRule(req, "cost", BlankRejected, "invalid item cost"),
      FieldRule(req, "quantity", BlankRejected, "invalid item quantity") ]
  }

  function DeleteRules(req: Request): seq<Rule> {
    [ Rule(ShadowsHasOwnProperty(req), StatusBadRequest, NotJson),
      Rule("id" !in req, StatusBadRequest, "missing item ID"),
      FieldRule(req, "id", v => !IdAccepted(v), "invalid item id") ]
  }

  /** The response of a rejected request is the first failing rule's. */
  predicate Agrees<T>(v: Verdict<T>, first: Option<Rule>) {
    match first
    case None => v.Accept?
    case Some(rule) => v == Reject(rule.status, rule.message)
  }

  /** One step of FirstFailure, spelled out for a list of known length. */
  lemma FirstFailureStep(rules: seq<Rule>, k: nat)
    requires k < |rules|
    ensures FirstFailure(rules[k..])
        == if rules[k].fails then Some(rules[k])
           else if k + 1 == |rules| then None
           else FirstFailure(rules[k + 1..])
  {
    assert rules[k..][1..] == rules[k + 1..];
  }

  lemma CreateFollowsRules(req: Request)
    ensures Agrees(CheckCreate(req), FirstFailure(CreateRules(req)))
  {
    var rules := CreateRules(req);
    assert rules[0..] == rules;
    FirstFailureStep(rules, 0);
    FirstFailureStep(rules, 1);
    FirstFailureStep(rules, 2);
    FirstFailureStep(rules, 3);
    FirstFailureStep(rules, 4);
  }

  lemma UpdateFollowsRules(req: Request)
    ensures Agrees(CheckUpdate(req), FirstFailure(UpdateRules(req)))
  {
    var rules := UpdateRules(req);
    assert rules[0..] == rules;
    FirstFailureStep(rules, 0);
    FirstFailureStep(rules, 1);
    FirstFailureStep(rules, 2);
    FirstFailureStep(rules, 3);
    FirstFailureStep(rules, 4);
    FirstFailureStep(rules, 5);
  }

  lemma DeleteFollowsRules(req: Request)
    ensures Agrees(CheckDelete(req), FirstFailure(DeleteRules(req)))
  {
    var rules := DeleteRules(req);
    assert rules[0..] == rules;
    FirstFailureStep(rules, 0);
    FirstFailureStep(rules, 1);
    FirstFailureStep(rules, 2);
  }

  // ---------------------------------------------------------------------------
  // Properties of the chains

  /** POST without one of its three fields is a 400 "missing required data";
      no other reason gives that answer. */
  lemma CreateMissingData(req: Request)
    requires !ShadowsHasOwnProperty(req)
    ensures CheckCreate(req) == Reject(StatusBadRequest, "missing required data") <==> !HasItemFields(req)
  {
  }

  /** A POST is accepted exactly when the body has no own `hasOwnProperty`
      key and all three fields are there and pass, and then the row to insert
      holds the submitted values. */
  lemma CreateAccepted(req: Request)
    ensures CheckCreate(req).Accept?
        <==> !ShadowsHasOwnProperty(req) && HasItemFields(req)
             && Acceptable(Item(req["name"], req["cost"], req["quantity"]))
    ensures CheckCreate(req).Accept?
        ==> CheckCreate(req).value == Item(req["name"], req["cost"], req["quantity"])
  {
  }

  /** A rejected name wins over a rejected cost or quantity, and a rejected cost
      over a rejected quantity. */
  lemma CreateReportsFirstBadField(req: Request)
    requires !ShadowsHasOwnProperty(req) && HasItemFields(req)
    ensures NameRejected(req["name"]) ==> CheckCreate(req) == Reject(StatusOk, "invalid item name")
    ensures !NameRejected(req["name"]) && BlankRejected(req["cost"])
        ==> CheckCreate(req) == Reject(StatusOk, "invalid item cost")
    ensures !NameRejected(req["name"]) && !BlankRejected(req["cost"]) && BlankRejected(req["quantity"])
        ==> CheckCreate(req) == Reject(StatusOk, "invalid item quantity")
  {
  }

  /** Cost and quantity are never read as numbers: any non-empty string passes,
      and so does a name that is a number or a boolean. */
  lemma FieldsNotCheckedAsNumbers(s: string, i: int, t: string, b: bool)
    requires s != []
    ensures Acceptable(Item(Int(i), Str(s), Str(s)))
    ensures Acceptable(Item(Frac(t), Str(s), Str(s)))
    ensures Acceptable(Item(Bool(b), Bool(b), Obj(map[])))
  {
  }

  /** PUT: missing fields come first, then the id, and only then name, cost and
      quantity; a rejected id is reported whatever the other fields hold. */
  lemma UpdateChecksIdFirst(req: Request)
    requires !ShadowsHasOwnProperty(req)
    ensures CheckUpdate(req) == Reject(StatusBadRequest, "missing required data")
        <==> !("id" in req && HasItemFields(req))
    ensures "id" in req && HasItemFields(req) && !IdAccepted(req["id"])
        ==> CheckUpdate(req) == Reject(StatusOk, "invalid item id")
    ensures CheckUpdate(req).Accept?
        <==> "id" in req && HasItemFields(req) && IdAccepted(req["id"])
             && Acceptable(Item(req["name"], req["cost"], req["quantity"]))
    ensures CheckUpdate(req).Accept?
        ==> CheckUpdate(req).value == Change(req["id"], Item(req["name"], req["cost"], req["quantity"]))
  {
  }

  /** DELETE: no id is "missing item ID" with status 400, a rejected id is
      "invalid item id", and any other id goes ahead. */
  lemma DeleteChecks(req: Request)
    requires !ShadowsHasOwnProperty(req)
    ensures "id" !in req <==> CheckDelete(req) == Reject(StatusBadRequest, "missing item ID")
    ensures "id" in req && !IdAccepted(req["id"]) <==> CheckDelete(req) == Reject(StatusOk, "invalid item id")
    ensures CheckDelete(req).Accept? <==> "id" in req && IdAccepted(req["id"])
  {
  }

  /** A text id made of a decimal numeral followed by nothing or by text that
      starts with a non-digit passes the check exactly when that numeral is
      positive ("3abc" passes as 3), unless the numeral is "0" and the text
      starts with x or X, which parseInt reads as hex; with a minus sign in
      front ("-1") it never passes. */
  lemma TextIdAccepted(d: string, tail: string)
    requires NumeralThenStop(d, tail)
    ensures IdAccepted(Str(d + tail)) <==> DigitsValue(d, 10) > 0
    ensures !IdAccepted(Str("-" + (d + tail)))
  {
    ParseIntOfNumeral(d, tail);
    ParseIntOfNegatedNumeral(d, tail);
  }

  /** A text id with no digit where parseInt starts reading ("abc") is NaN,
      and so rejected. */
  lemma NaNTextIdRejected(s: string)
    requires s != [] && !IsJsSpace(s[0]) && s[0] != '-' && s[0] != '+' && DigitValue(s[0]) >= 10
    ensures !IdAccepted(Str(s))
  {
    ParseIntOfNonNumeral(s);
  }

  /** null and both booleans print as words that parseInt reads as NaN, so
      they are rejected as ids. */
  lemma NullAndBoolIdsRejected()
    ensures !IdAccepted(Null)
    ensures forall b: bool :: !IdAccepted(Bool(b))
  {
    ParseIntOfNonNumeral("null");
    ParseIntOfNonNumeral("true");
    ParseIntOfNonNumeral("false");
  }
}
