/**
 * The form handling of the appointment handlers: how a submitted field is
 * read and normalised, and which submissions are accepted before the table
 * is touched.
 */
module Forms {
  import opened Wrappers
  import opened Text
  import opened Statuses

  /** A submitted form: field name to submitted text. A field not submitted is absent. */
  type Form = map<string, string>

  /** `request.form.get(key)`. */
  function Get(form: Form, key: string): Option<string> {
    if key in form then Some(form[key]) else None
  }

  /** The field was not submitted, or holds nothing but whitespace. */
  predicate IsMissing(form: Form, key: string) {
    key !in form || IsBlank(form[key])
  }

  /**
   * `(request.form.get(key) or "").strip()`: the stripped text of the field,
   * empty exactly when the field is missing or blank.
   */
  function Field(form: Form, key: string): (text: string)
    ensures HasNoOuterWhitespace(text)
    ensures text == [] <==> IsMissing(form, key)
  {
    match Get(form, key)
    case None => ""  // `"".strip()`
    case Some(submitted) => Strip(submitted)
  }

  /** A field submitted without surrounding whitespace is read as submitted. */
  lemma FieldAsSubmitted(form: Form, key: string)
    requires key in form && HasNoOuterWhitespace(form[key])
    ensures Field(form, key) == form[key]
  {
    StripKeepsStripped(form[key]);
  }

  /**
   * `(request.form.get("status") or "planned").strip().lower()`. The default
   * replaces only a missing or empty field: it is applied before stripping, so
   * a field of spaces becomes the empty text rather than "planned". The
   * default itself is returned as it is, since stripping and lower-casing
   * leave it unchanged (`StatusFieldAsWritten`).
   */
  function StatusField(form: Form): (text: string)
    ensures "status" !in form || form["status"] == "" ==> text == "planned"
    ensures "status" in form && form["status"] != "" && IsBlank(form["status"]) ==> text == ""
  {
    var raw := Get(form, "status");
    if raw.Some? && raw.value != "" then
      assert Strip(raw.value) == [] ==> Lower(Strip(raw.value)) == [];
      Lower(Strip(raw.value))
    else
      Name(Planned)
  }

  /** `StatusField` is the handler's expression, default included. */
  lemma StatusFieldAsWritten(form: Form)
    ensures var submitted := Get(form, "status");
      StatusField(form) == Lower(Strip(if submitted.Some? && submitted.value != "" then submitted.value else "planned"))
  {
    NameIsNormal(Planned);
  }

  /** Why a submission was refused. */
  datatype Rejection =
    | MissingRequired  // a required field is empty after stripping
    | InvalidStatus    // the normalised status is not one of `ALLOWED_STATUSES`

  datatype Result<+T> = Ok(value: T) | Err(reason: Rejection)

  /** The values `create_appointment` inserts. */
  datatype NewAppointment = NewAppointment(
    title: string, date: string, time: string, location: string, notes: string, status: Status)

  /** The values `update_appointment` writes. */
  datatype ContentEdit = ContentEdit(title: string, time: string, location: string, notes: string)

  /**
   * The checks of `create_appointment`, in the handler's order: the title,
   * date and time must be non-blank, then the normalised status must be an
   * allowed one. An accepted form yields the stripped fields and the status.
   */
  function CheckCreate(form: Form): (r: Result<NewAppointment>)
    ensures r == Err(MissingRequired) <==>
      IsMissing(form, "title") || IsMissing(form, "date") || IsMissing(form, "time")
    ensures r == Err(InvalidStatus) <==>
      !IsMissing(form, "title") && !IsMissing(form, "date") && !IsMissing(form, "time")
      && StatusField(form) !in AllowedStatuses
    ensures r.Ok? ==>
      && r.value.title == Field(form, "title") && r.value.date == Field(form, "date")
      && r.value.time == Field(form, "time") && r.value.location == Field(form, "location")
      && r.value.notes == Field(form, "notes") && Name(r.value.status) == StatusField(form)
  {
    var title := Field(form, "title");
    var date := Field(form, "date");
    var time := Field(form, "time");
    var location := Field(form, "location");
    var notes := Field(form, "notes");
    var status := StatusField(form);
    if title == [] || date == [] || time == [] then Err(MissingRequired)
    else match Parse(status)
      case None => Err(InvalidStatus)
      case Some(s) => Ok(NewAppointment(title, date, time, location, notes, s))
  }

  /** A form passes the checks of `create_appointment` exactly when its required fields and status do. */
  lemma CheckCreateAccepts(form: Form)
    requires !IsMissing(form, "title") && !IsMissing(form, "date") && !IsMissing(form, "time")
    requires StatusField(form) in AllowedStatuses
    ensures CheckCreate(form) == Ok(NewAppointment(
      Field(form, "title"), Field(form, "date"), Field(form, "time"),
      Field(form, "location"), Field(form, "notes"), Parse(StatusField(form)).value))
  {
  }

  /**
   * The check of `update_appointment`: the title and the time (field
   * "time_text") must be non-blank. An accepted form yields the stripped title,
   * time, location and notes; no other field is read.
   */
  function CheckEdit(form: Form): (r: Result<ContentEdit>)
    ensures r.Err? <==> IsMissing(form, "title") || IsMissing(form, "time_text")
    ensures r.Err? ==> r.reason == MissingRequired
    ensures r.Ok? ==> r.value == ContentEdit(
      Field(form, "title"), Field(form, "time_text"), Field(form, "location"), Field(form, "notes"))
  {
    var title := Field(form, "title");
    var time := Field(form, "time_text");
    if title == [] || time == [] then Err(MissingRequired)
    else Ok(ContentEdit(title, time, Field(form, "location"), Field(form, "notes")))
  }

  /** The fields `update_appointment` reads. */
  const EditFields: set<string> := {"title", "time_text", "location", "notes"}

  /**
   * Extra fields in the edit form, such as "date_text" or "status", change
   * nothing: neither whether the edit is accepted nor what it writes.
   */
  lemma CheckEditIgnoresOtherFields(form: Form, key: string, value: string)
    requires key !in EditFields
    ensures CheckEdit(form[key := value]) == CheckEdit(form)
  {
    var form' := form[key := value];
    forall k | k in EditFields ensures Field(form', k) == Field(form, k) {
      assert Get(form', k) == Get(form, k);
    }
  }

  /** A stored creation never has a blank title, date or time, nor surrounding whitespace on any field. */
  lemma CreatedFieldsAreStripped(form: Form)
    requires CheckCreate(form).Ok?
    ensures var a := CheckCreate(form).value;
      && a.title != [] && a.date != [] && a.time != []
      && HasNoOuterWhitespace(a.title) && HasNoOuterWhitespace(a.date) && HasNoOuterWhitespace(a.time)
      && HasNoOuterWhitespace(a.location) && HasNoOuterWhitespace(a.notes)
  {
  }

  /** A missing or empty status field creates a planned appointment. */
  lemma DefaultStatusIsPlanned(form: Form)
    requires "status" !in form || form["status"] == ""
    requires !IsMissing(form, "title") && !IsMissing(form, "date") && !IsMissing(form, "time")
    ensures CheckCreate(form).Ok? && CheckCreate(form).value.status == Planned
  {
    assert StatusField(form) == "planned";
  }

  /**
   * The status field is read without regard to surrounding whitespace or the
   * case of ASCII letters: a field that strips and lower-cases to the name of a
   * status yields that status.
   */
  lemma StatusFieldNormalised(form: Form, status: Status)
    requires "status" in form && Lower(Strip(form["status"])) == Name(status)
    requires !IsMissing(form, "title") && !IsMissing(form, "date") && !IsMissing(form, "time")
    ensures CheckCreate(form).Ok? && CheckCreate(form).value.status == status
  {
    assert StatusField(form) == Name(status);
    ParseName(status);
  }

  /** The name of every status is already in normal form: stripping and lower-casing leave it alone. */
  lemma NameIsNormal(status: Status)
    ensures Lower(Strip(Name(status))) == Name(status)
  {
    var name := Name(status);
    forall k | 0 <= k < |name| ensures 'a' <= name[k] <= 'z' {
      assert name[k] in "planneddonecanceled";
    }
    LettersAreNormal(name);
  }

  /** A status field of nothing but whitespace is refused; it does not fall back to "planned". */
  lemma BlankStatusRejected(form: Form)
    requires "status" in form && form["status"] != "" && IsBlank(form["status"])
    requires !IsMissing(form, "title") && !IsMissing(form, "date") && !IsMissing(form, "time")
    ensures CheckCreate(form) == Err(InvalidStatus)
  {
    assert StatusField(form) == "";
  }
}
