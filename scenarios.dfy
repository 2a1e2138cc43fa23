/**
 * A client of the table: the edit, complete and delete sequence that the
 * application's tests run against one appointment, replayed on the model for
 * every choice of typed field values rather than one: title, date and time
 * non-empty, no field with surrounding whitespace, and a status given by one
 * of its three names.
 */
module Scenarios {
  import opened Wrappers
  import opened Text
  import opened Statuses
  import opened Forms
  import opened Appointments

  /** A required field as a user would type it: non-empty, without surrounding whitespace. */
  predicate IsTyped(text: string) {
    text != [] && HasNoOuterWhitespace(text)
  }

  /** The creation form of the test: title, date, time, location, notes and status. */
  function CreateForm(title: string, date: string, time: string, location: string, notes: string, status: Status): Form {
    map["title" := title, "date" := date, "time" := time, "location" := location, "notes" := notes, "status" := Name(status)]
  }

  /** The edit form of the test, which besides the content also carries a date and a status. */
  function EditForm(newTitle: string, newTime: string, newLocation: string, newNotes: string, otherDate: string, otherStatus: string): Form {
    map["title" := newTitle, "time_text" := newTime, "location" := newLocation, "notes" := newNotes,
        "date_text" := otherDate, "status" := otherStatus]
  }

  lemma CreateFormFields(title: string, date: string, time: string, location: string, notes: string, status: Status)
    requires IsTyped(title) && IsTyped(date) && IsTyped(time)
    requires HasNoOuterWhitespace(location) && HasNoOuterWhitespace(notes)
    ensures var form := CreateForm(title, date, time, location, notes, status);
      && Field(form, "title") == title && Field(form, "date") == date && Field(form, "time") == time
      && Field(form, "location") == location && Field(form, "notes") == notes
  {
    var form := CreateForm(title, date, time, location, notes, status);
    FieldAsSubmitted(form, "title");
    FieldAsSubmitted(form, "date");
    FieldAsSubmitted(form, "time");
    FieldAsSubmitted(form, "location");
    FieldAsSubmitted(form, "notes");
  }

  lemma CreateFormStatus(title: string, date: string, time: string, location: string, notes: string, status: Status)
    ensures StatusField(CreateForm(title, date, time, location, notes, status)) == Name(status)
  {
    NameIsNormal(status);
  }

  lemma CreateFormAccepted(title: string, date: string, time: string, location: string, notes: string, status: Status)
    requires IsTyped(title) && IsTyped(date) && IsTyped(time)
    requires HasNoOuterWhitespace(location) && HasNoOuterWhitespace(notes)
    ensures CheckCreate(CreateForm(title, date, time, location, notes, status))
      == Ok(NewAppointment(title, date, time, location, notes, status))
  {
    var form := CreateForm(title, date, time, location, notes, status);
    CreateFormFields(title, date, time, location, notes, status);
    CreateFormStatus(title, date, time, location, notes, status);
    ParseName(status);
    CheckCreateAccepts(form);
  }

  lemma EditFormAccepted(newTitle: string, newTime: string, newLocation: string, newNotes: string, otherDate: string, otherStatus: string)
    requires IsTyped(newTitle) && IsTyped(newTime)
    requires HasNoOuterWhitespace(newLocation) && HasNoOuterWhitespace(newNotes)
    ensures CheckEdit(EditForm(newTitle, newTime, newLocation, newNotes, otherDate, otherStatus))
      == Ok(ContentEdit(newTitle, newTime, newLocation, newNotes))
  {
    var form := EditForm(newTitle, newTime, newLocation, newNotes, otherDate, otherStatus);
    FieldAsSubmitted(form, "title");
    FieldAsSubmitted(form, "time_text");
    FieldAsSubmitted(form, "location");
    FieldAsSubmitted(form, "notes");
  }

  /**
   * Create an appointment on `date` at `time` with a location and notes, then edit it with a form that
   * also tries to move the date and change the status, complete it, and delete
   * it. The edit keeps the date and status and sets `updated_at`; completing
   * marks it done and keeps `updated_at`; afterwards the row cannot be found.
   */
  method EditCompleteDelete(
    title: string, date: string, time: string, location: string, notes: string, status: Status,
    newTitle: string, newTime: string, newLocation: string, newNotes: string, otherDate: string, otherStatus: string,
    createdAt: Timestamp, editedAt: Timestamp)
    returns (created: Appointment, edited: Appointment, completed: Appointment, afterDelete: Option<EditView>)
    requires IsTyped(title) && IsTyped(date) && IsTyped(time)
    requires HasNoOuterWhitespace(location) && HasNoOuterWhitespace(notes)
    requires IsTyped(newTitle) && IsTyped(newTime)
    requires HasNoOuterWhitespace(newLocation) && HasNoOuterWhitespace(newNotes)
    ensures created.title == title && created.date == date && created.time == time
    ensures created.location == Some(location) && created.notes == Some(notes)
    ensures created.status == status && created.updatedAt == None && created.createdAt == createdAt
    ensures edited.title == newTitle && edited.time == newTime
    ensures edited.location == Some(newLocation) && edited.notes == Some(newNotes)
    ensures edited.date == date && edited.status == status && edited.updatedAt == Some(editedAt)
    ensures completed.status == Done && completed.updatedAt == edited.updatedAt
    ensures afterDelete == None
  {
    var table := new AppointmentTable();
    CreateFormAccepted(title, date, time, location, notes, status);
    var outcome := table.Create(CreateForm(title, date, time, location, notes, status), createdAt);
    var id := 1;
    created := table.rows[id];

    EditFormAccepted(newTitle, newTime, newLocation, newNotes, otherDate, otherStatus);
    outcome := table.UpdateContent(id, EditForm(newTitle, newTime, newLocation, newNotes, otherDate, otherStatus), editedAt);
    edited := table.rows[id];

    table.Complete(id);
    completed := table.rows[id];

    table.Delete(id);
    afterDelete := table.Get(id);
  }
}
