/**
 * The entities the leave-management controller works on: leave records, the
 * per-user leave document, the authenticated user, the approver-view filter,
 * and the abstract outcomes a handler reports.
 */
module LeaveTypes {
  import opened Wrappers

  /**
   * One leave record. Dates are day numbers; the controller never inspects
   * them itself. `approved` is tri-state: None is pending, Some(b) a decision.
   */
  datatype LeaveData = LeaveData(id: string, startDate: int, endDate: int, approved: Option<bool>)

  /** A document of the `leaves` collection, stored under its user's name. */
  datatype LeaveDoc = LeaveDoc(approver: string, leaves: seq<LeaveData>)

  /** A request body naming a user and a sequence of leaves (apply and approval). */
  datatype LeaveApplication = LeaveApplication(username: string, leaves: seq<LeaveData>)

  /** The identity the authenticator returns and the login handler remembers. */
  datatype User = User(username: string, team: string, approverName: string)

  /** The zero value of a user: the session before anybody has logged in. */
  const NO_USER := User("", "", "")

  /** Filter of the approver view: whose applications, and optionally which approval state. */
  datatype ViewApplications = ViewApplications(approverName: string, isLeaveApproved: Option<bool>)

  /** The abstract outcome a handler reports in place of an HTTP status. */
  datatype Status =
    | Ok             // 200
    | NotFound       // 404
    | Unauthorized   // 401
    | InternalError  // 500
    | Aborted        // the process exits (log.Fatal); nothing is written

  /** What a read-only view answers: the matching documents keyed by username, or a failure status. */
  datatype View = Found(docs: map<string, LeaveDoc>) | Fail(status: Status)

  /** The matched and modified document counts an update reports. */
  datatype UpdateResult = UpdateResult(matchedCount: nat, modifiedCount: nat)
}
