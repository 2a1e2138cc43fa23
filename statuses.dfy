/**
 * Appointment status: the closed set `ALLOWED_STATUSES` of the web handlers,
 * which the table's CHECK constraint also enforces.
 */
module Statuses {
  import opened Wrappers

  datatype Status = Planned | Done | Canceled

  /** `ALLOWED_STATUSES`: the status texts a form may submit and the column may hold. */
  const AllowedStatuses: set<string> := {"planned", "done", "canceled"}

  /** The text stored in the `status` column for a status. */
  function Name(status: Status): (text: string)
    ensures text in AllowedStatuses
  {
    match status
    case Planned => "planned"
    case Done => "done"
    case Canceled => "canceled"
  }

  /**
   * The status a normalised text denotes: `None` exactly for the texts outside
   * `AllowedStatuses`, and otherwise the status whose name it is.
   */
  function Parse(text: string): (status: Option<Status>)
    ensures status.Some? <==> text in AllowedStatuses
    ensures status.Some? ==> Name(status.value) == text
  {
    if text == "planned" then Some(Planned)
    else if text == "done" then Some(Done)
    else if text == "canceled" then Some(Canceled)
    else None
  }

  /** Reading back the stored text of a status gives that status. */
  lemma ParseName(status: Status)
    ensures Parse(Name(status)) == Some(status)
  {
  }

  /** Different statuses are stored as different texts. */
  lemma NameInjective(a: Status, b: Status)
    requires Name(a) == Name(b)
    ensures a == b
  {
  }
}
