/** The create-activity form: four text inputs that start empty, a
    required-field check on submit, and a request that is sent only when
    every field has some non-blank text. */
module CreateActivity {
  import opened Wrappers
  import opened JsText
  import opened ActivityForms

  /** `AddActivityI`: the form's values, which are also the request body. */
  datatype AddActivityForm = AddActivityForm(
    name: string, fromAddress: string, toEmailAddress: string, fromName: string)
  {
    /** `formData[f]` */
    function Get(f: Field): string {
      match f
      case Name => name
      case FromAddress => fromAddress
      case ToEmailAddress => toEmailAddress
      case FromName => fromName
    }

    /** `{ ...prev, [f]: v }` */
    function With(f: Field, v: string): (r: AddActivityForm)
      ensures r.Get(f) == v
      ensures forall g :: g != f ==> r.Get(g) == Get(g)
    {
      match f
      case Name => this.(name := v)
      case FromAddress => this.(fromAddress := v)
      case ToEmailAddress => this.(toEmailAddress := v)
      case FromName => this.(fromName := v)
    }
  }

  /** The component's state: the form values and the error record. */
  datatype State = State(form: AddActivityForm, errors: Errors)

  /** Every field empty, no errors. */
  const Initial: State := State(AddActivityForm("", "", "", ""), map[])

  /** `validate`'s record: every entry of the form is required, so each
      blank field gets the required message and nothing else gets an entry. */
  function Validate(form: AddActivityForm): (errors: Errors)
    ensures forall f :: f in errors <==> Blank(form.Get(f))
    ensures forall f :: f in errors ==> errors[f] == FieldRequired
  {
    EveryFieldRequired();
    CollectErrors(RequiredFields, (f: Field) => form.Get(f))
  }

  /** `handleChange`: the typed value replaces the field, and the field's
      error is cleared if it was showing. */
  function HandleChange(s: State, f: Field, v: string): (r: State)
    ensures r.form.Get(f) == v
    ensures forall g :: g != f ==> r.form.Get(g) == s.form.Get(g)
    ensures !ShowsInvalid(r.errors, f)
    ensures forall g :: g != f ==> (ShowsInvalid(r.errors, g) <==> ShowsInvalid(s.errors, g))
  {
    State(s.form.With(f, v), ClearOnEdit(s.errors, f))
  }

  /** What a submit does: the new state, the request body it posts (none
      when validation fails) and whether it then calls `onCreated` and
      announces `activityCreated`. */
  datatype Submitted = Submitted(state: State, request: Option<AddActivityForm>, notified: bool)

  /** `handleSubmit`. The outcome of the request is only logged, so the
      callbacks follow every request that is sent, failed or not. */
  function HandleSubmit(s: State): (r: Submitted)
    ensures r.state.form == s.form
    ensures r.request.Some? <==> forall f :: !Blank(s.form.Get(f))
    ensures r.request.Some? ==> r.request.value == s.form
    ensures r.notified <==> r.request.Some?
    ensures forall f :: ShowsInvalid(r.state.errors, f) <==> Blank(s.form.Get(f))
  {
    var errors := Validate(s.form);
    var ok := |errors| == 0;
    assert ok <==> forall f :: f !in errors;
    var state := State(s.form, errors);
    if ok then Submitted(state, Some(s.form), true) else Submitted(state, None, false)
  }

  /** A field that is empty or holds only characters `trim` strips (spaces,
      tabs, line breaks, no-break spaces) is refused and marked. */
  lemma BlankFieldRefused(s: State, f: Field)
    requires forall i :: 0 <= i < |s.form.Get(f)| ==> IsTrimmable(s.form.Get(f)[i])
    ensures HandleSubmit(s).request == None
    ensures ShowsInvalid(HandleSubmit(s).state.errors, f)
  {
    BlankIff(s.form.Get(f));
  }

  /** Submitting the untouched form sends nothing. */
  lemma InitialSubmitSendsNothing()
    ensures HandleSubmit(Initial).request == None
    ensures !HandleSubmit(Initial).notified
  {
    BlankFieldRefused(Initial, Name);
  }

  /** Submitting the untouched form marks all four fields as required. */
  lemma InitialSubmitMarksAll()
    ensures forall f :: ShowsInvalid(HandleSubmit(Initial).state.errors, f)
  {
    forall f ensures ShowsInvalid(HandleSubmit(Initial).state.errors, f) {
      BlankFieldRefused(Initial, f);
    }
  }

  /** After a refused submit, typing into one field hides that field's
      error and leaves the others showing until the next submit. */
  lemma EditAfterRefusal(s: State, f: Field, v: string)
    ensures var after := HandleChange(HandleSubmit(s).state, f, v);
      && !ShowsInvalid(after.errors, f)
      && forall g :: g != f ==> (ShowsInvalid(after.errors, g) <==> Blank(s.form.Get(g)))
  {
  }
}
