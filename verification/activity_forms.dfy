/** What the create and update forms share: the four required text fields,
    the error record keyed by field name, the required-field check and the
    way typing into a field clears its error. */
module ActivityForms {
  import opened JsText

  /** The text inputs of both forms, by their `name` attribute. */
  datatype Field = Name | FromAddress | ToEmailAddress | FromName

  /** The fields both forms require, in the order they are checked. */
  const RequiredFields: seq<Field> := [Name, FromAddress, ToEmailAddress, FromName]

  /** Every field of the forms is a required one. */
  lemma EveryFieldRequired()
    ensures forall f: Field :: f in RequiredFields
  {
    forall f: Field ensures f in RequiredFields {
      match f
      case Name => assert RequiredFields[0] == f;
      case FromAddress => assert RequiredFields[1] == f;
      case ToEmailAddress => assert RequiredFields[2] == f;
      case FromName => assert RequiredFields[3] == f;
    }
  }

  /** The message a blank required field gets. */
  const FieldRequired: string := "Field is required"

  /** The `errors` state: a message per field name; a field may hold `""`
      once it has been cleared. */
  type Errors = map<Field, string>

  /** `isInvalid={!!errors.f}`: the field is shown as invalid. */
  predicate ShowsInvalid(errors: Errors, f: Field) {
    f in errors && Truthy(errors[f])
  }

  /** The `newErrors` record `validate` builds: every listed field whose
      value is blank after `trim` gets the required message, and no other
      field gets an entry. */
  function CollectErrors(fields: seq<Field>, value: Field -> string): (e: Errors)
    ensures forall f :: f in e <==> f in fields && Blank(value(f))
    ensures forall f :: f in e ==> e[f] == FieldRequired
  {
    if fields == [] then map[]
    else
      var rest := CollectErrors(fields[1..], value);
      assert forall f :: f in fields <==> f == fields[0] || f in fields[1..];
      if Blank(value(fields[0])) then rest[fields[0] := FieldRequired] else rest
  }

  /** `Object.keys(newErrors).length === 0`: the form may be submitted
      exactly when no required field is blank. */
  lemma NoErrorsIff(fields: seq<Field>, value: Field -> string)
    ensures |CollectErrors(fields, value)| == 0 <==>
      forall i :: 0 <= i < |fields| ==> !Blank(value(fields[i]))
  {
    var e := CollectErrors(fields, value);
    if |e| != 0 {
      var f :| f in e;
      assert f in fields;
    }
  }

  /** The error side of `handleChange`: typing into a field that shows an
      error replaces its message with `""`; otherwise the errors stay. */
  function ClearOnEdit(errors: Errors, f: Field): (r: Errors)
    ensures !ShowsInvalid(r, f)
    ensures forall g :: g != f ==> (g in r <==> g in errors) && (g in errors ==> r[g] == errors[g])
    ensures f in r <==> f in errors
  {
    if f in errors && Truthy(errors[f]) then errors[f := ""] else errors
  }

  /** Clearing never makes another field show an error, and clearing twice
      is the same as clearing once. */
  lemma ClearOnEditIdempotent(errors: Errors, f: Field)
    ensures ClearOnEdit(ClearOnEdit(errors, f), f) == ClearOnEdit(errors, f)
    ensures forall g :: ShowsInvalid(ClearOnEdit(errors, f), g) <==> g != f && ShowsInvalid(errors, g)
  {
  }
}
