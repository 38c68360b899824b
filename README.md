# LeafMS leave controller, modelled in Dafny

This project models the leave-management controller of LeafMS
(`controller/routes.go`) over an abstract in-memory store. The store has three parts:

- the `leaves` collection, a map from username to a document holding the approver and the ordered leave records;
- the `employees` collection, a map from username to team;
- the process-wide `userInfo` session value.

The handlers are modelled as follows:

- `Login` records the user the authenticator returned.
- `Apply` runs the two-pass decomposition: every requested leave goes through the holiday splitter, then every slice goes through the weekend splitter. If anything fails, nothing is written. Otherwise the records are appended to the user's document.
- The self view looks up the document stored under the requested username.
- The team view first checks that the session user is set and carries the requested username. It then gathers the documents of everybody in the team named in the request.
- The approver view builds an aggregation pipeline: a match on the approver, plus an optional per-leave filter on the approval state. It then evaluates that pipeline.
- `Approve` sets the approval state of the first leave whose id is the id of the request's first leave.

Modules:

- `Wrappers` holds Option and Result.
- `LeaveTypes` holds the entities: `LeaveData`, `LeaveDoc`, `LeaveApplication`, `User`, `ViewApplications`, `Status`, `View` and `UpdateResult`.
- `Decomposition` holds the splitter passes and how they compose.
- `Queries` holds the three read-only views, as functions over a snapshot of the collections.
- `Approval` holds the positional update of one leave.
- `Controller` holds the class `LeaveStore`, whose methods are the handlers that change state.

The date splitters `utils.RemoveHolidayFromLeaveData` and `utils.RemoveWeekendsFromLeaveData` are not part of this model. Each one is a parameter of type `LeaveData -> Result<seq<LeaveData>>`. All properties about decomposition hold for every choice of splitter.

A storage call that returns an error is modelled as a boolean parameter of the operation, for example `updateFails`.

The model follows the code as written:

- Approval looks only at `Leaves[0]`, as the comment at `controller/routes.go:259` notes. Ids at later positions are ignored.
- An aggregation error in the approver view is answered with NotFound, not with an internal error (`controller/routes.go:230-232`).
- The team view takes the team from the request body, not from the session user. Only the username is compared.
- The handler does not check that a start date is before its end date. Any such check would sit in the splitters.
- The unfiltered approver view is the union of the views filtered on `true` and on `false` only when no leave is pending. `Queries.KeepApprovedPartition` proves the union for decided leaves. A pending leave (`approved == None`) is kept by neither filter, as `Queries.KeepApproved`'s contract states.

## Model

| member | source | states |
|---|---|---|
| `Decomposition.SplitAll` | controller/routes.go:66-86 | One splitter pass succeeds exactly when the splitter accepts every leave. On failure, the error is that of the first rejected leave, and every earlier leave was accepted. |
| `Decomposition.SplitAllAppend` | controller/routes.go:75-85 | A pass over `a + b` succeeds exactly when the passes over `a` and over `b` both succeed. Its output is then their outputs concatenated, so slices stay in request order. |
| `Decomposition.SplitAllIdentity` | controller/routes.go:66-86 | When the splitter leaves every leave whole, the pass returns the input unchanged. |
| `Decomposition.Decompose` | controller/routes.go:66-88 | The holiday pass fails exactly when some requested leave is rejected by the holiday splitter. That failure wins over any weekend failure, and its error is that of the first rejected leave. Otherwise decomposition succeeds exactly when the weekend splitter accepts every holiday slice. |
| `Decomposition.TwoPassIsPerLeave` | controller/routes.go:66-88 | The two-pass result equals, in order, the concatenation over each requested leave of its holiday slices, each weekend-split. The two succeed together. |
| `Decomposition.DecomposeAppend` | controller/routes.go:66-88 | Decomposing `a + b` gives the records of `a` followed by the records of `b`. |
| `Decomposition.DecomposeFixedPoint` | controller/routes.go:66-88 | Leaves that both splitters leave whole, such as a single business day, decompose into themselves. |
| `Controller.LeaveStore.Apply` | controller/routes.go:58-116 | A holiday failure gives InternalError, and a weekend failure aborts. A failing update gives InternalError. A missing user document gives NotFound. In all these cases the store is unchanged. On success, the decomposed records are appended after the user's existing leaves, and all other documents are unchanged. |
| `Controller.LeaveStore.constructor` | controller/routes.go:16 | A fresh store holds the given collections and the zero session user. |
| `Controller.LeaveStore.Login` | controller/routes.go:36-38 | The validated user becomes the session user. The collections are unchanged. |
| `Queries.SelfView` | controller/routes.go:131-140 | A storage error gives InternalError. A missing username gives NotFound. Otherwise the answer is exactly the document stored under the username. |
| `Queries.TeamView` | controller/routes.go:160-188 | The answer is Unauthorized exactly when the session user is the zero user or has another username, whatever the storage does. When authorized, the answer is exactly the documents of employees of the request's team, or NotFound when there are none, or InternalError on a storage error. |
| `Controller.LeaveStore.ViewTeamLeaves` | controller/routes.go:160-163 | Against the store's own `userInfo`, the team view refuses exactly when nobody is logged in or a different username is logged in. |
| `Controller.LoginGatesTeamView` | controller/routes.go:160-163 | After a login by a non-zero user, the team view refuses a request exactly when its username differs from the logged-in one. |
| `Queries.KeepApproved` | controller/routes.go:214-226 | The `$filter` stage keeps exactly the leaves whose approval state equals the given decision. A pending leave is never kept. |
| `Queries.KeepApprovedAppend` | controller/routes.go:218-223 | Filtering distributes over concatenation, so the kept leaves stay in their original order. |
| `Queries.KeepApprovedPartition` | controller/routes.go:214-226 | When no leave is pending, the leaves kept by the `true` filter and by the `false` filter together are all the leaves, as multisets. |
| `Queries.AggregateOfPipeline` | controller/routes.go:208-229 | Evaluating the pipeline keeps exactly the documents of the given approver. Each one is unchanged without a filter, and has its leaves narrowed with one. |
| `Queries.ApproverView` | controller/routes.go:200-237 | Every returned document has the requested approver, and every document of that approver is returned. Without a filter, leaves are unchanged. With filter `v`, each document's leaves are exactly those with state `v`, and the document is kept even when none is left. No such document, or an aggregation error, gives NotFound. |
| `Queries.FilteredViewNarrowsUnfiltered` | controller/routes.go:214-237 | The filtered view answers for the same documents as the unfiltered view, each with its leaves narrowed to the chosen decision. |
| `Approval.SetFirstApproval` | controller/routes.go:256-266 | Only the first leave carrying the id takes the new approval state. Every other leave is unchanged, and without such a leave the sequence is unchanged. |
| `Approval.SetFirstApprovalIdempotent` | controller/routes.go:261-264 | Applying the same approval twice gives the same result as applying it once. |
| `Approval.FindFirstWithId` | controller/routes.go:257-259 | The search finds a position exactly when some leave carries the id, and that position is the first one with the id. |
| `Controller.LeaveStore.Approve` | controller/routes.go:249-274 | Only `Leaves[0]` is used. A storage error gives InternalError and no change. With no document for the user, or no leave with the id, the matched count is 0 and the store is unchanged. Otherwise the matched count is 1, and only the first leave with that id in that user's document changes, taking the requested state. The modified count is 1 exactly when the store changed. |

## Left out

- HTTP decoding, status-code writing and JSON marshalling are not modelled. This includes the 400 answers to undecodable bodies of the apply, view and approval handlers. Handlers report an abstract `Status` or `View` instead.
- `validateCred`, `generateJWT` and `uuid.New` are not part of this model. `Login` takes the user that credential validation returned and reports no status. Its body decoding, token and session-id issuance, and its two process exits are left out: `log.Fatal` when the body cannot be decoded (`controller/routes.go:30`, which makes the 400 after it unreachable) and `log.Fatalf` when no token can be generated (`controller/routes.go:44`).
- `utils.RemoveHolidayFromLeaveData` and `utils.RemoveWeekendsFromLeaveData` are not part of this model. They are parameters, so no calendar behaviour is assumed. The converters `utils.ReturnLeaves` and `utils.ReturnUsers` are taken to return the documents unchanged.
- The MongoDB driver is modelled only by the semantics the handlers rely on: equality and `$in` match, `$push` with `$each`, the positional `$set`, `$match`, and `$filter`. Storage errors are boolean parameters.
- Results are keyed by username, so no order among documents is modelled. Order within a document's leaves is modelled.
- `Controller.LeaveStore.Apply` returns only the status. The update result it writes on success is not modelled.
- Only the `log.Fatalln` of the weekend pass (`controller/routes.go:82`) is modelled, as the outcome `Aborted` of `Controller.LeaveStore.Apply` with no store change.
- Controller.LeaveStore.Approve: an empty `Leaves` in the request makes the source panic on the unchecked index `Leaves[0]` (`controller/routes.go:259`, `263`), ending the request with no update. The method's `requires |req.leaves| > 0` excludes that case instead of modelling the panic.
- Concurrent requests and races on the shared `userInfo` are left out. The model is one sequential session.
- `HandleViewHolidays` is a pass-through find on reference data and is left out.
- `db.User`, `db.Leaves` and `db.LeaveData` are not part of this model. Their fields are taken as `User(username, team, approverName)`, a leave document with an approver and leaves, and `LeaveData(id, startDate, endDate, approved)` with `approved` optional.
