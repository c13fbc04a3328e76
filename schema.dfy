/**
 * The local `donations` collection and the JSON schema its documents must
 * satisfy (src/main.ts:172-191): six required properties, `amount` a number,
 * the other five strings, and the primary key `id` at most 15 characters long.
 */
module Schema {

  datatype Option<+T> = None | Some(value: T)

  /** The JSON values a record property can hold. */
  datatype Json = JString(str: string) | JNumber(num: real) | JBool(flag: bool) | JNull

  /** A raw record as it arrives: property name to JSON value. */
  type Record = map<string, Json>

  /** A donation that passed the schema. */
  datatype Donation = Donation(
    id: string,
    username: string,
    message: string,
    amount: real,
    created: string,
    updated: string)

  const MAX_ID_LENGTH: nat := 15

  /** The `required` list of the schema, in its own order. */
  const REQUIRED: seq<string> := ["id", "username", "message", "amount", "created", "updated"]

  datatype FieldType = StringType | NumberType

  /** The declared `type` of each property of the schema. */
  function TypeOf(field: string): FieldType {
    if field == "amount" then NumberType else StringType
  }

  predicate HasType(v: Json, t: FieldType) {
    match t
    case StringType => v.JString?
    case NumberType => v.JNumber?
  }

  /** A required property is there and carries its declared type. */
  predicate FieldOk(r: Record, field: string) {
    field in r && HasType(r[field], TypeOf(field))
  }

  /** Every required property is there with its declared type. */
  predicate AllFieldsOk(r: Record) {
    FieldOk(r, "id") && FieldOk(r, "username") && FieldOk(r, "message") &&
    FieldOk(r, "amount") && FieldOk(r, "created") && FieldOk(r, "updated")
  }

  /** What the schema accepts, stated property by property. */
  predicate Conforms(r: Record) {
    AllFieldsOk(r) && |r["id"].str| <= MAX_ID_LENGTH
  }

  datatype SchemaError = Missing(field: string) | WrongType(field: string) | IdTooLong(length: nat)

  datatype Result<+T> = Ok(value: T) | Err(error: SchemaError)

  /** The first field of `fields` that is absent or of the wrong type. */
  function FirstViolation(r: Record, fields: seq<string>): (e: Option<SchemaError>)
    ensures e.None? <==> forall i :: 0 <= i < |fields| ==> FieldOk(r, fields[i])
    ensures e.Some? ==> exists i :: 0 <= i < |fields| && !FieldOk(r, fields[i]) &&
                          e.value == (if fields[i] in r then WrongType(fields[i]) else Missing(fields[i]))
  {
    if fields == [] then None
    else if fields[0] !in r then Some(Missing(fields[0]))
    else if !HasType(r[fields[0]], TypeOf(fields[0])) then Some(WrongType(fields[0]))
    else FirstViolation(r, fields[1..])
  }

  /** Checking the `required` list field by field is checking all six. */
  lemma RequiredFieldsOk(r: Record)
    ensures (forall i :: 0 <= i < |REQUIRED| ==> FieldOk(r, REQUIRED[i])) <==> AllFieldsOk(r)
  {
    if AllFieldsOk(r) {
      forall i | 0 <= i < |REQUIRED| ensures FieldOk(r, REQUIRED[i]) {
        assert REQUIRED[i] in {"id", "username", "message", "amount", "created", "updated"};
      }
    }
    if forall i :: 0 <= i < |REQUIRED| ==> FieldOk(r, REQUIRED[i]) {
      assert FieldOk(r, REQUIRED[0]) && FieldOk(r, REQUIRED[1]) && FieldOk(r, REQUIRED[2]);
      assert FieldOk(r, REQUIRED[3]) && FieldOk(r, REQUIRED[4]) && FieldOk(r, REQUIRED[5]);
    }
  }

  /** Schema validation of one record, yielding the typed donation. */
  function Validate(r: Record): (res: Result<Donation>)
    ensures res.Ok? <==> Conforms(r)
    ensures res.Ok? ==> forall f :: f in REQUIRED ==> r[f] == Encode(res.value)[f]
  {
    RequiredFieldsOk(r);
    match FirstViolation(r, REQUIRED)
    case Some(e) => Err(e)
    case None =>
      RequiredFieldsOk(r);
      var id := r["id"].str;
      if |id| > MAX_ID_LENGTH then Err(IdTooLong(|id|))
      else Ok(Donation(id, r["username"].str, r["message"].str, r["amount"].num,
                       r["created"].str, r["updated"].str))
  }

  /** The record a donation is stored as. */
  function Encode(d: Donation): Record {
    map[
      "id" := JString(d.id),
      "username" := JString(d.username),
      "message" := JString(d.message),
      "amount" := JNumber(d.amount),
      "created" := JString(d.created),
      "updated" := JString(d.updated)]
  }

  /** Encoding then validating gives the donation back exactly when its id fits. */
  lemma EncodeRoundTrip(d: Donation)
    ensures Validate(Encode(d)) == if |d.id| <= MAX_ID_LENGTH then Ok(d) else Err(IdTooLong(|d.id|))
  {
    var r := Encode(d);
    assert forall i :: 0 <= i < |REQUIRED| ==> FieldOk(r, REQUIRED[i]);
  }

  /** Properties outside the six required ones never change the verdict. */
  lemma ExtraPropertiesIgnored(r: Record, key: string, v: Json)
    requires key !in REQUIRED
    ensures Validate(r[key := v]) == Validate(r)
  {
    var r' := r[key := v];
    assert forall f :: f in REQUIRED ==> (FieldOk(r', f) <==> FieldOk(r, f));
    assert forall f :: f in REQUIRED ==> f in r' ==> r'[f] == r[f];
    assert FirstViolation(r', REQUIRED) == FirstViolation(r, REQUIRED) by {
      FirstViolationLocal(r, r', REQUIRED);
    }
  }

  lemma {:induction false} FirstViolationLocal(r: Record, r': Record, fields: seq<string>)
    requires forall i :: 0 <= i < |fields| ==> (fields[i] in r <==> fields[i] in r')
    requires forall i :: 0 <= i < |fields| && fields[i] in r ==> r[fields[i]] == r'[fields[i]]
    ensures FirstViolation(r, fields) == FirstViolation(r', fields)
  {
    if fields != [] {
      FirstViolationLocal(r, r', fields[1..]);
    }
  }
}
