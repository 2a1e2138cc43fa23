# Appointment table of the appointments web app, in Dafny

This project models the appointment table behind the request handlers of the
Flask application in `app.py`. The handlers read a submitted form, normalise
its fields, validate them, and then run one SQL statement against the
`testapp_appointments` table. They create an appointment, list all of them
newest first, show one for editing, delete one, mark one done, and edit its
content.

The table is an `AppointmentTable` object. It holds a map from id to row and
the next value of the `SERIAL` id sequence. Each handler is a method of that
object, and each SQL statement is one atomic step. `CURRENT_TIMESTAMP` is a
parameter `now`. A submitted form is a map from field name to text, and
`request.form.get(key)` is a lookup in it.

Modules:

- `Wrappers` (`wrappers.dfy`): `Option`.
- `Text` (`text.dfy`): Python's `str.strip()` over the exact `str.isspace()`
  character set, and ASCII `str.lower()`.
- `Statuses` (`statuses.dfy`): the closed status set `ALLOWED_STATUSES`, which
  the table's CHECK constraint also enforces, as a datatype.
- `Forms` (`forms.dfy`): how the handlers read fields and decide whether a
  submission is accepted, as pure functions.
- `Appointments` (`appointments.dfy`): the rows, the `ORDER BY id DESC`
  selection, and the table class with one method per handler.
- `Scenarios` (`scenarios.dfy`): the create, edit, complete and delete sequence
  from the application's tests, replayed for all typed field values, location
  and notes included. Typed means the title, date and time are non-empty, no
  field has surrounding whitespace, and the status is one of its three names.

The repository expects more than `app.py` implements. The tests at
tests/test_app.py:78-146 log in, read an `owner_user_id` column
(tests/test_app.py:51) and use an administrator status screen. None of them
checks that appointments are scoped by owner. `init_db` adds the `owner_user_id`,
`status_updated_at` and `status_updated_by_user_id` columns (db.py:90-107).
`app.py` has no login, no owner filter and no status-change handler, and never
writes those columns. The model follows `app.py`, so it has none of them.

Behaviour of the code that the model keeps:

- The status default is applied before stripping. So a status field made only of
  spaces is refused. It does not fall back to planned (`Forms.BlankStatusRejected`).
- The create form names the time field `time`, but the edit form names it
  `time_text`. The edit handler never reads `date_text` or `status`.
- Delete, complete and edit on an id with no row change nothing, and the
  handler still redirects to the list as if it had succeeded.

## Model

| member | source | states |
|---|---|---|
| `Text.IsWhitespace` | app.py:29-34 | The characters for which Python's `str.isspace()` holds, which are the ones `str.strip()` removes. |
| `Text.Strip` | app.py:29-33 | The stripped text has no whitespace at either end. It is empty exactly when the input is all whitespace. |
| `Text.StripIsStripOf` | app.py:29-33 | `Strip` removes a blank prefix and a blank suffix, and the rest starts and ends with non-whitespace. |
| `Text.StripOfIsStrip` | app.py:29-33 | Any string obtained from the input that way is `Strip` of it, so this description fixes `strip()` completely. |
| `Text.StripKeepsStripped` | app.py:29-33 | A text without surrounding whitespace is returned unchanged. |
| `Text.StripIdempotent` | app.py:29-33 | Stripping twice gives the same result as stripping once. |
| `Text.LeadingWhitespace` | app.py:29-33 | The count of leading whitespace characters: everything before it is whitespace, and the next character is not. |
| `Text.TrailingWhitespace` | app.py:29-33 | The count of trailing whitespace characters: everything after the cut is whitespace, and the character before it is not. |
| `Text.LowerChar` | app.py:34 | `str.lower()` on one character: an ASCII capital becomes its small letter, and every other character is unchanged. |
| `Text.Lower` | app.py:34 | Lower-casing keeps the length and maps each character through ASCII lower-casing. The result contains no upper-case ASCII letter. |
| `Text.LowerIdempotent` | app.py:34 | Lower-casing twice gives the same result as lower-casing once. |
| `Text.LowerKeepsLowercase` | app.py:34 | A text without upper-case ASCII letters is returned unchanged. |
| `Statuses.AllowedStatuses` | app.py:8 | `ALLOWED_STATUSES`: exactly the texts "planned", "done" and "canceled", which are also the values the CHECK constraint at db.py:54 admits. |
| `Statuses.Name` | db.py:54 | Every status is stored as one of the texts in `ALLOWED_STATUSES`. |
| `Statuses.Parse` | app.py:8 | A text denotes a status exactly when it is in `ALLOWED_STATUSES`, and that status's stored name is the text. |
| `Statuses.ParseName` | db.py:54 | Reading back a stored status name gives the same status. |
| `Statuses.NameInjective` | db.py:54 | Different statuses have different stored names. |
| `Forms.Get` | app.py:29-34 | `request.form.get(key)`: the submitted text, or nothing when the field was not submitted. |
| `Forms.Field` | app.py:29-33 | A read field has no surrounding whitespace. It is empty exactly when the field is missing or blank. |
| `Forms.FieldAsSubmitted` | app.py:29-33 | A field submitted without surrounding whitespace is read exactly as submitted. |
| `Forms.StatusField` | app.py:34 | A missing or empty status field reads as "planned". A non-empty field of only whitespace reads as the empty text. |
| `Forms.StatusFieldAsWritten` | app.py:34 | `StatusField` is the handler's normalisation taken literally: an absent or empty status is replaced by "planned" first, then the text is stripped and lower-cased. |
| `Forms.NameIsNormal` | app.py:34 | Stripping and lower-casing leave every status name unchanged. |
| `Forms.CheckCreate` | app.py:29-41 | Create refuses for a missing required field exactly when the title, date or time is missing or blank. Otherwise it refuses for an invalid status exactly when the normalised status is outside `ALLOWED_STATUSES`. Accepted values are the stripped fields and the status the normalised text names. |
| `Forms.CheckCreateAccepts` | app.py:36-50 | A form with title, date and time filled in and an allowed status is accepted, with exactly those values. |
| `Forms.CreatedFieldsAreStripped` | app.py:29-38 | An accepted creation has a non-empty title, date and time. No accepted field starts or ends with whitespace. |
| `Forms.DefaultStatusIsPlanned` | app.py:34 | Once title, date and time are filled in, a form with a missing or empty status is accepted as planned. |
| `Forms.StatusFieldNormalised` | app.py:34-41 | A status field that strips and lower-cases to a status name is accepted as that status, whatever its case and surrounding whitespace. |
| `Forms.BlankStatusRejected` | app.py:34-41 | A non-empty status field of only whitespace is refused as an invalid status. It does not become planned. |
| `Forms.CheckEdit` | app.py:136-143 | An edit is refused, as missing a required field, exactly when the title or `time_text` is missing or blank. An accepted edit carries the stripped title, time, location and notes. |
| `Forms.CheckEditIgnoresOtherFields` | app.py:136-139 | Adding or changing a field other than title, `time_text`, location and notes (such as `date_text` or `status`) does not change the result of the edit check. |
| `Appointments.OrEmpty` | app.py:75-76 | A null location or notes column is shown as "", and a stored text as itself. |
| `Appointments.ListingOf` | app.py:69-81 | The listing entry a fetched row becomes: its columns, with a null location or notes shown as "". |
| `Appointments.SelectByIdDesc` | app.py:58-65 | The selection lists rows in strictly descending id order, each exactly as stored. Its ids are exactly the table's ids below the bound. |
| `Appointments.DescendingIdsDistinct` | app.py:62 | Rows in strictly descending id order have as many distinct ids as there are rows. |
| `Appointments.SelectEveryRow` | app.py:58-65 | When all ids are below the bound, the selection has one entry per row, and every row's id appears in it. |
| `Appointments.AppointmentTable.constructor` | db.py:47-57 | A new table is empty, and its id sequence starts at 1. |
| `Appointments.AppointmentTable.Create` | app.py:27-52 | A refused form leaves the table and the sequence as they were. An accepted form inserts exactly one row, under an id above every existing id. The row holds the stripped title, date, time, location and notes, the normalised status, a null `updated_at` and `created_at = now`. No other row changes. |
| `Appointments.AppointmentTable.List` | app.py:55-84 | Every row appears exactly once, and there are as many listings as rows. Ids are in strictly descending order. Each listing shows its row's columns, with a missing location or notes shown as "". |
| `Appointments.AppointmentTable.Get` | app.py:104-131 | Returns nothing exactly when no row has the id. Otherwise it returns that row's columns, with a missing location or notes shown as "". |
| `Appointments.AppointmentTable.Delete` | app.py:87-91 | Only the row with the id is removed, if there is one. Every other row and the sequence stay as they were. |
| `Appointments.AppointmentTable.Complete` | app.py:94-101 | The row with the id, if there is one, gets status done whatever its status was. Its other columns, including `updated_at`, stay as they were. No other row changes. |
| `Appointments.AppointmentTable.UpdateContent` | app.py:134-159 | A blank title or time is refused with nothing changed. Otherwise the row with the id, if any, gets the stripped title, time, location and notes and `updated_at = now`. Its date, status and `created_at` stay as they were, whatever the form holds. No other row changes, and no row is added or removed. |
| `Scenarios.EditCompleteDelete` | tests/test_app.py:149-195 | Replays the test sequence for all typed field values (title, date and time non-empty, no field with surrounding whitespace, status one of the three names), with the create and edit forms carrying location and notes as the test's do. Creating stores the submitted location and notes and gives a null `updated_at`. The edit stores the new location and notes. The edit keeps the date and the status even though the form carries others, and sets `updated_at`. Completing gives done and keeps `updated_at`. After deletion the id is not found. |

## Left out

- HTTP routing, `render_template`, `flash` and `redirect` (app.py:17-24, app.py:162-165): a handler's user-visible result is an `Accepted` / `Rejected(reason)` outcome, or the data a template would receive. The Hebrew message texts are not modelled.
- The database connection and transaction plumbing of `get_cursor` / `get_db_connection` (db.py:6-28). These are I/O through a foreign library, so each handler's statement is one atomic step that cannot fail. Storage errors are not modelled.
- The schema creation and migration of `init_db` (db.py:31-107, init_db.py). The model keeps only the row shape, the nullable `location`, `notes` and `updated_at` columns, and the status constraint, which the `Status` datatype enforces by construction.
- `format_timestamp` and the `updated_at_text` listing field (app.py:11-14, app.py:79): formatting uses `datetime.strftime`. Timestamps are opaque integers, and listings carry the `updated_at` value itself.
- `Text.Lower`: lower-cases ASCII letters only, so a non-ASCII capital such as "É" is left unchanged where Python's `str.lower()` would lower-case it. No non-ASCII character lower-cases to a single letter of "planned", "done" or "canceled" (the Kelvin sign becomes "k"), so which status values are accepted is the same.
- `Text.LowerChar`: lower-cases only 'A' to 'Z'. Every other character is returned unchanged, including non-ASCII capitals that Python's `str.lower()` lower-cases, for the reason the `Text.Lower` line gives.
- `Text.LowerKeepsLowercase`: holds for the ASCII-only `Text.Lower`. It would not hold for Python's `str.lower()` on a text with a non-ASCII capital, for the reason the line above gives.
- `Appointments.AppointmentTable.Create`: promises only that the sequence moves past the new id, not by how much. A PostgreSQL sequence may skip values. The body advances it by one.
- Registration, login, sessions, administrators, the owner column and the status-audit columns. The tests exercise them (tests/test_app.py:1-20, tests/test_app.py:78-146), but `app.py` implements none of them and never writes `owner_user_id`, `status_updated_at` or `status_updated_by_user_id`.
- Route parameters that are not non-negative integers: Flask's `int` converter rejects them before any handler runs, so ids are `nat`.
- tests/conftest.py: deriving the database URL and creating the database are test-environment I/O.
