/**
 * The three read-only views of the controller (own leaves, team leaves,
 * leave applications of an approver), as functions over a snapshot of the
 * `leaves` collection (username to document) and of the `employees`
 * collection (username to team). A failing storage call is a boolean
 * parameter, since the store itself is not modelled.
 */
module Queries {
  import opened Wrappers
  import opened LeaveTypes

  /** `find` on `leaves` with `username` in `names`: the matching documents, keyed by username. */
  function FindLeaves(leaves: map<string, LeaveDoc>, names: set<string>): map<string, LeaveDoc>
  {
    map u | u in leaves && u in names :: leaves[u]
  }

  /** The own-leaves view: the document stored under the requested username. */
  function SelfView(leaves: map<string, LeaveDoc>, user: User, findFails: bool): (r: View)
    ensures findFails ==> r == Fail(InternalError)
    ensures !findFails ==> (r == Fail(NotFound) <==> user.username !in leaves)
    ensures r.Found? ==> r.docs == map[user.username := leaves[user.username]]
    ensures !findFails && user.username in leaves ==> r == Found(map[user.username := leaves[user.username]])
  {
    if findFails then Fail(InternalError)
    else
      var docs := FindLeaves(leaves, {user.username});
      assert user.username in leaves ==> user.username in docs;
      if docs == map[] then Fail(NotFound) else Found(docs)
  }

  /** `find` on `employees` by team, reduced to the usernames the loop collects. */
  function TeamUsernames(employees: map<string, string>, team: string): set<string>
  {
    set u | u in employees && employees[u] == team
  }

  /** The session holds somebody, and that somebody is the user the request names. */
  predicate Authorized(session: User, req: User)
  {
    session != NO_USER && session.username == req.username
  }

  /**
   * The team view. The session user must be set and carry the requested
   * username; the team searched is the one in the request, whatever the
   * session user's own team is.
   */
  function TeamView(session: User, employees: map<string, string>, leaves: map<string, LeaveDoc>,
                    req: User, employeesFindFails: bool, leavesFindFails: bool): (r: View)
    ensures r == Fail(Unauthorized) <==> !Authorized(session, req)
    ensures Authorized(session, req) && (employeesFindFails || leavesFindFails) ==> r == Fail(InternalError)
    ensures Authorized(session, req) && !employeesFindFails && !leavesFindFails ==>
              (r == Fail(NotFound) <==>
                 forall u :: u in leaves ==> !(u in employees && employees[u] == req.team))
    ensures r.Found? ==>
              forall u :: u in r.docs <==> u in leaves && u in employees && employees[u] == req.team
    ensures r.Found? ==> forall u :: u in r.docs ==> r.docs[u] == leaves[u]
    ensures Authorized(session, req) && !employeesFindFails && !leavesFindFails ==>
              ((exists u :: u in leaves && u in employees && employees[u] == req.team) ==> r.Found?)
  {
    if !Authorized(session, req) then Fail(Unauthorized)
    else if employeesFindFails then Fail(InternalError)
    else
      var names := TeamUsernames(employees, req.team);
      if leavesFindFails then Fail(InternalError)
      else
        var docs := FindLeaves(leaves, names);
        assert forall u :: u in leaves && u in names ==> u in docs;
        if docs == map[] then Fail(NotFound) else Found(docs)
  }

  /** The leaves of `s` whose approval state is the decision `v`, in their original order. */
  function KeepApproved(s: seq<LeaveData>, v: bool): (r: seq<LeaveData>)
    ensures |r| <= |s|
    ensures forall x :: x in r <==> x in s && x.approved == Some(v)
  {
    if s == [] then []
    else (if s[0].approved == Some(v) then [s[0]] else []) + KeepApproved(s[1..], v)
  }

  /** Filtering distributes over concatenation: kept leaves keep their relative order. */
  lemma {:induction false} KeepApprovedAppend(a: seq<LeaveData>, b: seq<LeaveData>, v: bool)
    ensures KeepApproved(a + b, v) == KeepApproved(a, v) + KeepApproved(b, v)
    decreases |a|
  {
    if a == [] {
      assert a + b == b;
    } else {
      assert (a + b)[1..] == a[1..] + b;
      KeepApprovedAppend(a[1..], b, v);
    }
  }

  /**
   * When no leave is pending, the approved and the rejected leaves together
   * are all of them; a pending leave appears under neither filter.
   */
  lemma {:induction false} KeepApprovedPartition(s: seq<LeaveData>)
    requires forall i :: 0 <= i < |s| ==> s[i].approved.Some?
    ensures multiset(KeepApproved(s, true)) + multiset(KeepApproved(s, false)) == multiset(s)
    decreases |s|
  {
    if s != [] {
      var x, rest := s[0], s[1..];
      assert s == [x] + rest;
      KeepApprovedPartition(rest);
      var t, f := KeepApproved(rest, true), KeepApproved(rest, false);
      if x.approved.value {
        assert KeepApproved(s, true) == [x] + t;
        assert KeepApproved(s, false) == f;
      } else {
        assert KeepApproved(s, true) == t;
        assert KeepApproved(s, false) == [x] + f;
      }
    }
  }

  /** One stage of the aggregation pipeline. */
  datatype Stage =
    | MatchApprover(approver: string)  // `$match` on the document's approver
    | FilterLeaves(approved: bool)     // `$addFields` with `$filter` on each leave's approval state

  /** The pipeline the handler builds from its filter. */
  function Pipeline(f: ViewApplications): seq<Stage>
  {
    [MatchApprover(f.approverName)]
      + (if f.isLeaveApproved.Some? then [FilterLeaves(f.isLeaveApproved.value)] else [])
  }

  function RunStage(docs: map<string, LeaveDoc>, stage: Stage): map<string, LeaveDoc>
  {
    match stage
    case MatchApprover(a) => map u | u in docs && docs[u].approver == a :: docs[u]
    case FilterLeaves(v) => map u | u in docs :: docs[u].(leaves := KeepApproved(docs[u].leaves, v))
  }

  /** `aggregate` over the whole collection: the stages applied in order. */
  function Aggregate(docs: map<string, LeaveDoc>, p: seq<Stage>): map<string, LeaveDoc>
    decreases |p|
  {
    if p == [] then docs else Aggregate(RunStage(docs, p[0]), p[1..])
  }

  /** What the two-stage pipeline yields, document by document. */
  lemma AggregateOfPipeline(leaves: map<string, LeaveDoc>, f: ViewApplications)
    ensures var docs := Aggregate(leaves, Pipeline(f));
            && (forall u :: u in docs <==> u in leaves && leaves[u].approver == f.approverName)
            && (forall u :: u in docs ==>
                  docs[u] == match f.isLeaveApproved
                             case None => leaves[u]
                             case Some(v) => leaves[u].(leaves := KeepApproved(leaves[u].leaves, v)))
  {
    var p := Pipeline(f);
    var matched := RunStage(leaves, p[0]);
    assert Aggregate(leaves, p) == Aggregate(matched, p[1..]);
    match f.isLeaveApproved
    case None =>
      assert Aggregate(matched, p[1..]) == matched;
    case Some(v) =>
      assert p[1..][1..] == [];
      assert Aggregate(matched, p[1..]) == RunStage(matched, FilterLeaves(v));
  }

  /**
   * The approver view. Only documents whose approver is the requested one
   * are returned; with a decision filter each of them keeps just the leaves
   * in that state, and stays even when none is left. An aggregation error
   * is reported as NotFound, like an empty answer.
   */
  function ApproverView(leaves: map<string, LeaveDoc>, f: ViewApplications, aggregateFails: bool): (r: View)
    ensures r.Found? || r == Fail(NotFound)
    ensures aggregateFails ==> r == Fail(NotFound)
    ensures !aggregateFails ==>
              (r == Fail(NotFound) <==> forall u :: u in leaves ==> leaves[u].approver != f.approverName)
    ensures r.Found? ==> forall u :: u in r.docs <==> u in leaves && leaves[u].approver == f.approverName
    ensures r.Found? ==> forall u :: u in r.docs ==> r.docs[u].approver == f.approverName
    ensures r.Found? && f.isLeaveApproved.None? ==> forall u :: u in r.docs ==> r.docs[u] == leaves[u]
    ensures r.Found? && f.isLeaveApproved.Some? ==>
              forall u :: u in r.docs ==>
                r.docs[u] == leaves[u].(leaves := KeepApproved(leaves[u].leaves, f.isLeaveApproved.value))
  {
    if aggregateFails then Fail(NotFound)
    else
      var docs := Aggregate(leaves, Pipeline(f));
      AggregateOfPipeline(leaves, f);
      if docs == map[] then Fail(NotFound) else Found(docs)
  }

  /**
   * The filtered approver view answers for exactly the documents of the
   * unfiltered one, each with its leaves narrowed to the chosen decision.
   */
  lemma FilteredViewNarrowsUnfiltered(leaves: map<string, LeaveDoc>, approver: string, v: bool, aggregateFails: bool)
    ensures var all := ApproverView(leaves, ViewApplications(approver, None), aggregateFails);
            var some := ApproverView(leaves, ViewApplications(approver, Some(v)), aggregateFails);
            && (all.Found? <==> some.Found?)
            && (all.Found? ==>
                  && some.docs.Keys == all.docs.Keys
                  && forall u :: u in some.docs ==>
                       some.docs[u] == all.docs[u].(leaves := KeepApproved(all.docs[u].leaves, v)))
  {
  }
}
