/**
 * The positional update behind the approval handler: in one user's leave
 * sequence, the first leave carrying the requested id gets the requested
 * approval state, and nothing else changes.
 */
module Approval {
  import opened Wrappers
  import opened LeaveTypes

  /** Some leave of `s` carries `id` (the `$elemMatch` part of the update's filter). */
  predicate HasId(s: seq<LeaveData>, id: string)
  {
    exists i :: 0 <= i < |s| && s[i].id == id
  }

  /** `k` is the first position of `s` whose leave carries `id` (the element `$` designates). */
  predicate IsFirstWithId(s: seq<LeaveData>, id: string, k: int)
  {
    && 0 <= k < |s|
    && s[k].id == id
    && forall j :: 0 <= j < k ==> s[j].id != id
  }

  /** `$set` of `leaves.$.approved`: the first leave with `id` takes the approval state `v`. */
  function SetFirstApproval(s: seq<LeaveData>, id: string, v: Option<bool>): (r: seq<LeaveData>)
    ensures |r| == |s|
    ensures forall i :: 0 <= i < |s| && !IsFirstWithId(s, id, i) ==> r[i] == s[i]
    ensures forall i :: IsFirstWithId(s, id, i) ==> r[i] == s[i].(approved := v)
    ensures !HasId(s, id) ==> r == s
  {
    if s == [] then []
    else if s[0].id == id then [s[0].(approved := v)] + s[1..]
    else
      var rest := SetFirstApproval(s[1..], id, v);
      assert forall i :: 1 <= i < |s| ==> (IsFirstWithId(s, id, i) <==> IsFirstWithId(s[1..], id, i - 1));
      assert HasId(s[1..], id) ==> HasId(s, id);
      [s[0]] + rest
  }

  /** Approving twice with the same decision is the same as approving once. */
  lemma SetFirstApprovalIdempotent(s: seq<LeaveData>, id: string, v: Option<bool>)
    ensures SetFirstApproval(SetFirstApproval(s, id, v), id, v) == SetFirstApproval(s, id, v)
  {
  }

  /** Search for the first leave with `id`, as the storage engine resolves the positional `$`. */
  method FindFirstWithId(s: seq<LeaveData>, id: string) returns (found: bool, k: nat)
    ensures found ==> IsFirstWithId(s, id, k)
    ensures !found <==> !HasId(s, id)
  {
    k := 0;
    while k < |s|
      invariant k <= |s|
      invariant forall j :: 0 <= j < k ==> s[j].id != id
    {
      if s[k].id == id {
        return true, k;
      }
      k := k + 1;
    }
    return false, k;
  }
}
