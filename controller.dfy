/**
 * The state-changing handlers of the leave-management controller, as
 * methods of one store object: the `leaves` collection (username to leave
 * document), the `employees` collection (username to team), and the
 * process-wide `userInfo` value set at login. The read-only views are the
 * functions of module Queries, applied to these fields.
 */
module Controller {
  import opened Wrappers
  import opened LeaveTypes
  import opened Decomposition
  import opened Approval
  import Queries

  class LeaveStore {
    var leaves: map<string, LeaveDoc>
    var employees: map<string, string>
    var userInfo: User

    /** A store holding the given collections, before anybody has logged in. */
    constructor (leaves0: map<string, LeaveDoc>, employees0: map<string, string>)
      ensures leaves == leaves0 && employees == employees0 && userInfo == NO_USER
    {
      leaves, employees, userInfo := leaves0, employees0, NO_USER;
    }

    /** Login: the user the authenticator returned becomes the session user. */
    method Login(validated: User)
      modifies this
      ensures userInfo == validated
      ensures leaves == old(leaves) && employees == old(employees)
    {
      userInfo := validated;
    }

    /**
     * Apply: decompose the requested leaves (holiday pass, then weekend pass)
     * and append the resulting records to the user's document in one update.
     * Any failure leaves the store as it was.
     */
    method Apply(app: LeaveApplication, holiday: Splitter, weekend: Splitter, updateFails: bool)
      returns (status: Status)
      modifies this
      ensures employees == old(employees) && userInfo == old(userInfo)
      ensures Decompose(holiday, weekend, app.leaves).HolidayFailed? ==> status == InternalError
      ensures Decompose(holiday, weekend, app.leaves).WeekendFailed? ==> status == Aborted
      ensures Decompose(holiday, weekend, app.leaves).Decomposed? ==>
                status == (if updateFails then InternalError
                           else if app.username !in old(leaves) then NotFound
                           else Ok)
      ensures status == Ok ==>
                && Decompose(holiday, weekend, app.leaves).Decomposed?
                && leaves == old(leaves)[app.username :=
                     old(leaves)[app.username].(leaves := old(leaves)[app.username].leaves
                                                          + Decompose(holiday, weekend, app.leaves).records)]
      ensures status != Ok ==> leaves == old(leaves)
      ensures leaves.Keys == old(leaves).Keys
      ensures forall u :: u in old(leaves) && u != app.username ==> leaves[u] == old(leaves)[u]
      ensures forall u :: u in old(leaves) ==>
                leaves[u].approver == old(leaves)[u].approver && old(leaves)[u].leaves <= leaves[u].leaves
    {
      var split: seq<LeaveData> := [];
      for i := 0 to |app.leaves|
        invariant SplitAll(holiday, app.leaves[..i]) == Success(split)
      {
        assert app.leaves[..i + 1][..i] == app.leaves[..i];
        var slices := holiday(app.leaves[i]);
        if slices.Failure? {
          return InternalError;
        }
        split := split + slices.value;
      }
      assert app.leaves[..|app.leaves|] == app.leaves;

      var records: seq<LeaveData> := [];
      for i := 0 to |split|
        invariant SplitAll(weekend, split[..i]) == Success(records)
      {
        assert split[..i + 1][..i] == split[..i];
        var slices := weekend(split[i]);
        if slices.Failure? {
          return Aborted;
        }
        records := records + slices.value;
      }
      assert split[..|split|] == split;

      if updateFails {
        return InternalError;
      }
      if app.username !in leaves {
        return NotFound;
      }
      var doc := leaves[app.username];
      leaves := leaves[app.username := doc.(leaves := doc.leaves + records)];
      return Ok;
    }

    /**
     * Approval: in the named user's document, the first leave whose id is
     * that of the request's FIRST leave takes that leave's approval state.
     * The ids of the request's other leaves are not looked at.
     */
    method Approve(req: LeaveApplication, updateFails: bool) returns (status: Status, result: UpdateResult)
      requires |req.leaves| > 0
      modifies this
      ensures employees == old(employees) && userInfo == old(userInfo)
      ensures status == (if updateFails then InternalError else Ok)
      ensures var u, id := req.username, req.leaves[0].id;
              if updateFails || u !in old(leaves) || !HasId(old(leaves)[u].leaves, id) then
                && leaves == old(leaves)
                && result == UpdateResult(0, 0)
              else
                && result.matchedCount == 1
                && leaves == old(leaves)[u :=
                     old(leaves)[u].(leaves := SetFirstApproval(old(leaves)[u].leaves, id, req.leaves[0].approved))]
      ensures result.modifiedCount == 1 <==> leaves != old(leaves)
      ensures result.modifiedCount <= result.matchedCount <= 1
    {
      var target := req.leaves[0];
      if updateFails {
        return InternalError, UpdateResult(0, 0);
      }
      if req.username !in leaves {
        return Ok, UpdateResult(0, 0);
      }
      var doc := leaves[req.username];
      var found, k := FindFirstWithId(doc.leaves, target.id);
      if !found {
        return Ok, UpdateResult(0, 0);
      }
      var updated := doc.leaves[k := doc.leaves[k].(approved := target.approved)];
      assert updated == SetFirstApproval(doc.leaves, target.id, target.approved);
      var modified := if doc.leaves[k].approved == target.approved then 0 else 1;
      ghost var before := leaves;
      leaves := leaves[req.username := doc.(leaves := updated)];
      if modified == 1 {
        assert leaves[req.username].leaves[k] != before[req.username].leaves[k];
      } else {
        assert updated == doc.leaves;
      }
      return Ok, UpdateResult(1, modified);
    }

    /** The team view as the handler runs it: against the session user held by this store. */
    function ViewTeamLeaves(req: User, employeesFindFails: bool, leavesFindFails: bool): (r: View)
      reads this
      ensures r == Fail(Unauthorized) <==> !Queries.Authorized(userInfo, req)
    {
      Queries.TeamView(userInfo, employees, leaves, req, employeesFindFails, leavesFindFails)
    }
  }

  /** After a login, the team view answers the logged-in user and nobody else. */
  method LoginGatesTeamView(store: LeaveStore, validated: User, req: User)
    requires validated != NO_USER
    modifies store
    ensures store.userInfo == validated
    ensures store.ViewTeamLeaves(req, false, false) == Fail(Unauthorized)
            <==> req.username != validated.username
  {
    store.Login(validated);
  }
}
