/** The update-activity form: prefilled from the activity being edited, the
    same four required text fields as the create form, two date pickers that
    validation ignores, and a `PUT` to the activity's id. */
module UpdateActivity {
  import opened Wrappers
  import opened JsText
  import opened ActivityForms
  import opened Entities
  import Dtos
  import ActivityService

  /** `UpdateActivityI`: the form's values and the request body. The dates
      are ISO strings, or `null`/`undefined` (both `None`). */
  datatype UpdateActivityForm = UpdateActivityForm(
    id: string, name: string, fromAddress: string, toEmailAddress: string, fromName: string,
    openedDate: Option<string>, bouncedDate: Option<string>)
  {
    /** `formData[f]` for a text field. */
    function Get(f: Field): string {
      match f
      case Name => name
      case FromAddress => fromAddress
      case ToEmailAddress => toEmailAddress
      case FromName => fromName
    }

    /** `{ ...prev, [f]: v }` for a text field. */
    function With(f: Field, v: string): (r: UpdateActivityForm)
      ensures r.Get(f) == v
      ensures forall g :: g != f ==> r.Get(g) == Get(g)
      ensures r.id == id && r.openedDate == openedDate && r.bouncedDate == bouncedDate
    {
      match f
      case Name => this.(name := v)
      case FromAddress => this.(fromAddress := v)
      case ToEmailAddress => this.(toEmailAddress := v)
      case FromName => this.(fromName := v)
    }
  }

  /** The two date pickers, by their `name` attribute. */
  datatype DateField = OpenedDate | BouncedDate

  /** `x || ""` on a string. */
  function OrEmpty(s: string): string {
    if Truthy(s) then s else ""
  }

  /** `x || null` on a possibly missing string. */
  function OrNull(d: Option<string>): Option<string> {
    if TruthyOpt(d) then d else None
  }

  /** The initial form: every text field of the given activity (or `""`
      when there is none) and its dates, an empty date read as `null`. */
  function InitialForm(activity: Option<UpdateActivityForm>): (r: UpdateActivityForm)
    ensures activity.None? ==> r == UpdateActivityForm("", "", "", "", "", None, None)
    ensures activity.Some? ==> r.id == activity.value.id
    ensures activity.Some? ==> forall f :: r.Get(f) == activity.value.Get(f)
    ensures r.openedDate.Some? <==> activity.Some? && TruthyOpt(activity.value.openedDate)
    ensures r.bouncedDate.Some? <==> activity.Some? && TruthyOpt(activity.value.bouncedDate)
    ensures r.openedDate.Some? ==> r.openedDate == activity.value.openedDate
    ensures r.bouncedDate.Some? ==> r.bouncedDate == activity.value.bouncedDate
  {
    match activity
    case None => UpdateActivityForm("", "", "", "", "", None, None)
    case Some(a) =>
      UpdateActivityForm(
        OrEmpty(a.id), OrEmpty(a.name), OrEmpty(a.fromAddress), OrEmpty(a.toEmailAddress),
        OrEmpty(a.fromName), OrNull(a.openedDate), OrNull(a.bouncedDate))
  }

  /** The component's state: the form values and the error record. */
  datatype State = State(form: UpdateActivityForm, errors: Errors)

  /** The state on first render. */
  function Initial(activity: Option<UpdateActivityForm>): State {
    State(InitialForm(activity), map[])
  }

  /** `validate`: each of the four required text fields that is blank after
      `trim` gets the required message; the id and the dates are not checked. */
  function Validate(form: UpdateActivityForm): (errors: Errors)
    ensures forall f :: f in errors <==> Blank(form.Get(f))
    ensures forall f :: f in errors ==> errors[f] == FieldRequired
  {
    EveryFieldRequired();
    CollectErrors(RequiredFields, (f: Field) => form.Get(f))
  }

  /** The dates and the id never change what validation reports. */
  lemma ValidationIgnoresIdAndDates(form: UpdateActivityForm, id: string, openedAt: Option<string>, bouncedAt: Option<string>)
    ensures Validate(form.(id := id, openedDate := openedAt, bouncedDate := bouncedAt)) == Validate(form)
  {
    var form' := form.(id := id, openedDate := openedAt, bouncedDate := bouncedAt);
    assert forall f :: form'.Get(f) == form.Get(f);
  }

  /** `handleChange`: the typed value replaces the text field, and the
      field's error is cleared if it was showing. */
  function HandleChange(s: State, f: Field, v: string): (r: State)
    ensures r.form.Get(f) == v
    ensures forall g :: g != f ==> r.form.Get(g) == s.form.Get(g)
    ensures r.form.id == s.form.id
    ensures r.form.openedDate == s.form.openedDate && r.form.bouncedDate == s.form.bouncedDate
    ensures !ShowsInvalid(r.errors, f)
    ensures forall g :: g != f ==> (ShowsInvalid(r.errors, g) <==> ShowsInvalid(s.errors, g))
  {
    State(s.form.With(f, v), ClearOnEdit(s.errors, f))
  }

  /** `handleDateChange`: the picked date (an ISO string, or `null` when
      cleared) replaces one date; the text fields and errors stay. */
  function HandleDateChange(s: State, d: DateField, v: Option<string>): (r: State)
    ensures d == OpenedDate ==> r.form.openedDate == v && r.form.bouncedDate == s.form.bouncedDate
    ensures d == BouncedDate ==> r.form.bouncedDate == v && r.form.openedDate == s.form.openedDate
    ensures forall f :: r.form.Get(f) == s.form.Get(f)
    ensures r.form.id == s.form.id && r.errors == s.errors
  {
    match d
    case OpenedDate => s.(form := s.form.(openedDate := v))
    case BouncedDate => s.(form := s.form.(bouncedDate := v))
  }

  /** A `PUT /Activity/{id}` with the form as its body. */
  datatype Request = Request(id: string, body: UpdateActivityForm)

  /** What a submit does: the new state, the request (none when validation
      fails) and whether `onUpdated` is called and `activityUpdated` is
      announced. */
  datatype Submitted = Submitted(state: State, request: Option<Request>, notified: bool)

  /** `handleSubmit`. The outcome of the request is only logged, so the
      callbacks follow every request that is sent. */
  function HandleSubmit(s: State): (r: Submitted)
    ensures r.state.form == s.form
    ensures r.request.Some? <==> forall f :: !Blank(s.form.Get(f))
    ensures r.request.Some? ==> r.request.value == Request(s.form.id, s.form)
    ensures r.notified <==> r.request.Some?
    ensures forall f :: ShowsInvalid(r.state.errors, f) <==> Blank(s.form.Get(f))
  {
    var errors := Validate(s.form);
    var ok := |errors| == 0;
    assert ok <==> forall f :: f !in errors;
    var state := State(s.form, errors);
    if ok then Submitted(state, Some(Request(s.form.id, s.form)), true) else Submitted(state, None, false)
  }

  /** Submitting the untouched form of an activity whose text fields are all
      filled sends that activity back unchanged to its own id, provided
      its dates are missing or non-empty. */
  lemma UntouchedSubmitSendsActivity(a: UpdateActivityForm)
    requires forall f :: !Blank(a.Get(f))
    requires a.openedDate.None? || TruthyOpt(a.openedDate)
    requires a.bouncedDate.None? || TruthyOpt(a.bouncedDate)
    ensures HandleSubmit(Initial(Some(a))).request == Some(Request(a.id, a))
  {
    assert InitialForm(Some(a)) == a;
  }

  /** With no activity to edit, the id stays `""`; once the four text
      fields are filled the form is still sent, to an empty id. */
  lemma MissingActivitySendsEmptyId(name: string, fromAddress: string, toEmailAddress: string, fromName: string)
    requires !Blank(name) && !Blank(fromAddress) && !Blank(toEmailAddress) && !Blank(fromName)
    ensures var s := HandleChange(HandleChange(HandleChange(HandleChange(
        Initial(None), Name, name), FromAddress, fromAddress), ToEmailAddress, toEmailAddress), FromName, fromName);
      && HandleSubmit(s).request.Some?
      && HandleSubmit(s).request.value.id == ""
  {
    var s := HandleChange(HandleChange(HandleChange(HandleChange(
        Initial(None), Name, name), FromAddress, fromAddress), ToEmailAddress, toEmailAddress), FromName, fromName);
    assert forall f :: !Blank(s.form.Get(f));
  }

  /** The request body as the server binds it to `UpdateActivityDto`: the
      four text fields always arrive as strings, and each date arrives as
      `null` or as the instant `parse` reads from its ISO text. */
  function ToUpdateDto(body: UpdateActivityForm, parse: string -> DateTime): (dto: Dtos.UpdateActivityDto)
    ensures dto.name == Some(body.name) && dto.fromAddress == Some(body.fromAddress)
    ensures dto.toEmailAddress == Some(body.toEmailAddress) && dto.fromName == Some(body.fromName)
    ensures dto.openedDate.Some? <==> body.openedDate.Some?
    ensures dto.bouncedDate.Some? <==> body.bouncedDate.Some?
  {
    Dtos.UpdateActivityDto(
      Some(body.name), Some(body.fromAddress), Some(body.toEmailAddress), Some(body.fromName),
      if body.bouncedDate.Some? then Some(parse(body.bouncedDate.value)) else None,
      if body.openedDate.Some? then Some(parse(body.openedDate.value)) else None)
  }

  /** An update sent from this form replaces all four text columns of the
      stored activity, and a date left empty in the form clears the stored
      one: the server's keep-when-null rule never applies to the text. */
  lemma SubmittedFormOverwrites(row: Activity, s: State, parse: string -> DateTime)
    requires HandleSubmit(s).request.Some?
    ensures var body := HandleSubmit(s).request.value.body;
      var patched := ActivityService.Patched(row, ToUpdateDto(body, parse));
      && patched.name == Some(s.form.name)
      && patched.fromAddress == Some(s.form.fromAddress)
      && patched.toEmailAddress == Some(s.form.toEmailAddress)
      && patched.fromName == Some(s.form.fromName)
      && (s.form.openedDate.None? ==> patched.openedDate.None?)
      && (s.form.bouncedDate.None? ==> patched.bouncedDate.None?)
  {
  }
}
