/**
 * The `testapp_appointments` table and the request handlers that read and
 * change it. Each handler's SQL statement is one atomic step on the table.
 */
module Appointments {
  import opened Wrappers
  import opened Statuses
  import opened Forms

  /** A `TIMESTAMP` value; the handlers receive `CURRENT_TIMESTAMP` as `now`. */
  type Timestamp = int

  /**
   * One row of the table, without its id. `location` and `notes` are nullable
   * columns; `updatedAt` is null until the content is first edited.
   */
  datatype Appointment = Appointment(
    title: string,
    date: string,
    time: string,
    location: Option<string>,
    notes: Option<string>,
    status: Status,
    updatedAt: Option<Timestamp>,
    createdAt: Timestamp)

  datatype Row = Row(id: nat, appointment: Appointment)

  /** What `list_appointments` shows of a row. */
  datatype Listing = Listing(
    id: nat, title: string, date: string, time: string, location: string, notes: string,
    status: Status, updatedAt: Option<Timestamp>, createdAt: Timestamp)

  /** What `edit_appointment` shows of a row. */
  datatype EditView = EditView(
    id: nat, title: string, date: string, time: string, location: string, notes: string,
    status: Status, createdAt: Timestamp)

  /** The outcome of a handler that validates its form before writing. */
  datatype Outcome = Accepted | Rejected(reason: Rejection)

  /** `value or ""` on a nullable text column. */
  function OrEmpty(value: Option<string>): string {
    value.GetOr("")
  }

  /** The entry the listing loop builds from one fetched row. */
  function ListingOf(row: Row): Listing {
    var a := row.appointment;
    Listing(row.id, a.title, a.date, a.time, OrEmpty(a.location), OrEmpty(a.notes), a.status, a.updatedAt, a.createdAt)
  }

  /** The ids of a sequence of rows. */
  function Ids(rs: seq<Row>): set<nat> {
    set i | 0 <= i < |rs| :: rs[i].id
  }

  predicate StrictlyDescendingIds(rs: seq<Row>) {
    forall i, j :: 0 <= i < j < |rs| ==> rs[i].id > rs[j].id
  }

  /**
   * `SELECT ... ORDER BY id DESC` over the rows whose id is below `below`:
   * every such row exactly once, as stored, newest id first.
   */
  function SelectByIdDesc(rows: map<nat, Appointment>, below: nat): (r: seq<Row>)
    ensures StrictlyDescendingIds(r)
    ensures forall i :: 0 <= i < |r| ==> r[i].id < below && r[i].id in rows && rows[r[i].id] == r[i].appointment
    ensures Ids(r) == set id | id in rows && id < below
    decreases below
  {
    if below == 0 then []
    else
      var older := SelectByIdDesc(rows, below - 1);
      if below - 1 in rows then
        var r := [Row(below - 1, rows[below - 1])] + older;
        assert Ids(r) == {below - 1} + Ids(older) by {
          assert forall i :: 0 < i < |r| ==> r[i] == older[i - 1];
          assert forall i :: 0 <= i < |older| ==> older[i] == r[i + 1];
        }
        r
      else older
  }

  /** Rows with strictly descending ids carry as many distinct ids as there are rows. */
  lemma {:induction false} DescendingIdsDistinct(rs: seq<Row>)
    requires StrictlyDescendingIds(rs)
    ensures |Ids(rs)| == |rs|
  {
    if rs != [] {
      var tail := rs[1..];
      DescendingIdsDistinct(tail);
      assert Ids(rs) == {rs[0].id} + Ids(tail) by {
        assert forall i :: 0 < i < |rs| ==> rs[i] == tail[i - 1];
        assert forall i :: 0 <= i < |tail| ==> tail[i] == rs[i + 1];
      }
      assert rs[0].id !in Ids(tail);
    }
  }

  /**
   * When every id is below `below`, the selection holds every row of the
   * table exactly once.
   */
  lemma SelectEveryRow(rows: map<nat, Appointment>, below: nat)
    requires forall id :: id in rows ==> id < below
    ensures var r := SelectByIdDesc(rows, below);
      && |r| == |rows|
      && forall id :: id in rows ==> exists i :: 0 <= i < |r| && r[i].id == id
  {
    var r := SelectByIdDesc(rows, below);
    assert Ids(r) == rows.Keys;
    DescendingIdsDistinct(r);
    forall id | id in rows ensures exists i :: 0 <= i < |r| && r[i].id == id {
      assert id in Ids(r);
    }
  }

  /**
   * The appointments table: rows by id, and the next value of the `SERIAL`
   * id sequence, which starts at 1 and only grows.
   */
  class AppointmentTable {
    var rows: map<nat, Appointment>
    var nextId: nat

    /** Every id in use was handed out by the sequence. */
    ghost predicate Valid()
      reads this
    {
      1 <= nextId && forall id :: id in rows ==> 1 <= id < nextId
    }

    /** An empty table whose sequence has not been used. */
    constructor ()
      ensures Valid()
      ensures rows == map[] && nextId == 1
    {
      rows := map[];
      nextId := 1;
    }

    /**
     * `create_appointment`: a form with a blank title, date or time, or with
     * a status outside `ALLOWED_STATUSES`, is refused and the table is left
     * as it was. Otherwise one row is inserted under a fresh id greater than
     * every id in the table, holding the stripped fields and the normalised
     * status, with `updated_at` null and `created_at` now; no other row
     * changes.
     */
    method Create(form: Form, now: Timestamp) returns (outcome: Outcome)
      requires Valid()
      modifies this
      ensures Valid()
      ensures outcome.Rejected? <==> CheckCreate(form).Err?
      ensures outcome.Rejected? ==>
        outcome.reason == CheckCreate(form).reason && rows == old(rows) && nextId == old(nextId)
      ensures outcome.Accepted? ==>
        var a := CheckCreate(form).value;
        var newId := old(nextId);
        && (forall id :: id in old(rows) ==> id < newId)
        && rows == old(rows)[newId := Appointment(
             a.title, a.date, a.time, Some(a.location), Some(a.notes), a.status, None, now)]
        && nextId > newId
    {
      var checked := CheckCreate(form);
      match checked
      case Err(reason) =>
        outcome := Rejected(reason);
      case Ok(a) =>
        var id := nextId;
        nextId := nextId + 1;
        rows := rows[id := Appointment(a.title, a.date, a.time, Some(a.location), Some(a.notes), a.status, None, now)];
        outcome := Accepted;
    }

    /**
     * `list_appointments`: every row of the table exactly once, newest id
     * first, with a missing location or notes shown as the empty text.
     */
    method List() returns (listing: seq<Listing>)
      requires Valid()
      ensures |listing| == |rows|
      ensures forall i, j :: 0 <= i < j < |listing| ==> listing[i].id > listing[j].id
      ensures forall i :: 0 <= i < |listing| ==> listing[i].id in rows
      ensures forall id :: id in rows ==> exists i :: 0 <= i < |listing| && listing[i].id == id
      ensures forall i :: 0 <= i < |listing| ==>
        var a := rows[listing[i].id];
        && listing[i].title == a.title && listing[i].date == a.date && listing[i].time == a.time
        && listing[i].location == OrEmpty(a.location) && listing[i].notes == OrEmpty(a.notes)
        && listing[i].status == a.status && listing[i].updatedAt == a.updatedAt
        && listing[i].createdAt == a.createdAt
    {
      var fetched := SelectByIdDesc(rows, nextId);
      listing := [];
      for i := 0 to |fetched|
        invariant |listing| == i
        invariant forall k :: 0 <= k < i ==> listing[k] == ListingOf(fetched[k])
      {
        listing := listing + [ListingOf(fetched[i])];
      }
      SelectEveryRow(rows, nextId);
      forall i | 0 <= i < |listing|
        ensures listing[i].id == fetched[i].id && listing[i].id in rows
        ensures var a := rows[listing[i].id];
          && listing[i].title == a.title && listing[i].date == a.date && listing[i].time == a.time
          && listing[i].location == OrEmpty(a.location) && listing[i].notes == OrEmpty(a.notes)
          && listing[i].status == a.status && listing[i].updatedAt == a.updatedAt
          && listing[i].createdAt == a.createdAt
      {
        assert listing[i] == ListingOf(fetched[i]);
        assert rows[fetched[i].id] == fetched[i].appointment;
      }
      forall id | id in rows ensures exists i :: 0 <= i < |listing| && listing[i].id == id {
        var i :| 0 <= i < |fetched| && fetched[i].id == id;
        assert listing[i].id == id;
      }
    }

    /**
     * `edit_appointment`: the row with id `id`, or nothing when there is no
     * such row; a missing location or notes is shown as the empty text.
     */
    method Get(id: nat) returns (view: Option<EditView>)
      ensures view.None? <==> id !in rows
      ensures view.Some? ==>
        var a := rows[id];
        && view.value.id == id && view.value.title == a.title && view.value.date == a.date
        && view.value.time == a.time && view.value.location == OrEmpty(a.location)
        && view.value.notes == OrEmpty(a.notes) && view.value.status == a.status
        && view.value.createdAt == a.createdAt
    {
      if id in rows {
        var a := rows[id];
        view := Some(EditView(id, a.title, a.date, a.time, OrEmpty(a.location), OrEmpty(a.notes), a.status, a.createdAt));
      } else {
        view := None;
      }
    }

    /** `delete_appointment`: the row with id `id` is gone, if it was there; no other row changes. */
    method Delete(id: nat)
      requires Valid()
      modifies this
      ensures Valid()
      ensures rows == old(rows) - {id}
      ensures nextId == old(nextId)
    {
      rows := rows - {id};
    }

    /**
     * `complete_appointment`: the row with id `id`, if there is one, has
     * status done whatever its status was; none of its other columns, including
     * `updated_at`, and no other row changes.
     */
    method Complete(id: nat)
      requires Valid()
      modifies this
      ensures Valid()
      ensures rows.Keys == old(rows).Keys && nextId == old(nextId)
      ensures id in rows ==> rows[id] == old(rows)[id].(status := Done)
      ensures forall other :: other in rows && other != id ==> rows[other] == old(rows)[other]
    {
      if id in rows {
        rows := rows[id := rows[id].(status := Done)];
      }
    }

    /**
     * `update_appointment`: a form with a blank title or time is refused and
     * nothing changes. Otherwise the row with id `id`, if there is one, gets
     * the stripped title, time, location and notes and `updated_at` now; its
     * date, status and creation time stay as they were, whatever the form
     * holds, and no other row changes.
     */
    method UpdateContent(id: nat, form: Form, now: Timestamp) returns (outcome: Outcome)
      requires Valid()
      modifies this
      ensures Valid()
      ensures outcome.Rejected? <==> CheckEdit(form).Err?
      ensures outcome.Rejected? ==> outcome.reason == MissingRequired && unchanged(this)
      ensures rows.Keys == old(rows).Keys && nextId == old(nextId)
      ensures forall other :: other in rows && other != id ==> rows[other] == old(rows)[other]
      ensures outcome.Accepted? && id in rows ==>
        var e := CheckEdit(form).value;
        && rows[id].title == e.title && rows[id].time == e.time
        && rows[id].location == Some(e.location) && rows[id].notes == Some(e.notes)
        && rows[id].updatedAt == Some(now)
        && rows[id].date == old(rows)[id].date && rows[id].status == old(rows)[id].status
        && rows[id].createdAt == old(rows)[id].createdAt
    {
      var checked := CheckEdit(form);
      if checked.Err? {
        outcome := Rejected(checked.reason);
        return;
      }
      var e := checked.value;
      if id in rows {
        var a := rows[id];
        rows := rows[id := Appointment(
          e.title, a.date, e.time, Some(e.location), Some(e.notes), a.status, Some(now), a.createdAt)];
        assert rows.Keys == old(rows).Keys;
      }
      outcome := Accepted;
    }
  }
}
