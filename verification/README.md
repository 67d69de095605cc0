# Membership register and edit-approval flow

A functional Dafny model of the logic of a small membership-register admin
front end. The register holds member records (five required text fields and
nineteen optional ones). An administrator ("admin1") searches the register,
adds members and drafts update requests. A head ("head1") approves or rejects
update requests in an inbox. Every component's state transition is a pure
function over immutable datatypes:

| module | file | models |
|---|---|---|
| `Members` | members.dfy | the `Member` record, field access and update, the four seed records |
| `Dashboard` | dashboard.dfy | `MemberDashboard.tsx`: search, clear, add, role gating |
| `AddMember` | add_member.dfy | `AddMemberModal.tsx`: initial form, field edits, required-field check |
| `UpdateRequest` | update_request.dfy | `UpdateRequestModal.tsx`: draft, diff, submit checks, request id, shown values |
| `PendingRequests` | pending_requests.dfy | `PendingRequestsModal.tsx`: request queue, approve, reject, pending/processed split, the detail view's copy of a request |
| `Financial` | financial.dfy | `FinancialDetailsModal.tsx`: payment badge, amount formatting, share section |
| `Session` | session.dfy | `LoginPage.tsx` and `pages/Index.tsx`: login gate, session, page switch |
| `Workflow` | workflow.dfy | the components wired together: the dashboard mounted only while logged in, the add form feeding it, plus end-to-end scenarios |
| `Strings`, `Seqs`, `Decimal`, `Wrappers` | strings.dfy, seqs.dfy, decimal.dfy, wrappers.dfy | JavaScript `trim`/`toLowerCase`/`includes`, `filter`, `toString`/`slice(-k)`, `Option` |

Where the code and its design description disagree, the model follows the code:

- The update form's "No Changes Detected" check tests whether the draft has any keys. It does not test whether the diff is empty.
- The diff compares with strict inequality. An absent optional field is not read as "".
- Approve and reject overwrite any status. Neither checks that the request is pending.
- Adding a member does not check for a repeated member number.
- Approving writes nothing back to the member record.
- A submitted request only yields an id. The head's inbox always opens on its own two hard-coded requests. `SubmitRequest` has no queue among its inputs, so nothing submitted can reach the inbox.

The register lives in the dashboard's own state. Logging out unmounts the dashboard, so members added before a logout are gone after the next login (`Workflow.LogoutForgetsAddedMembers`).

## Model

| member | source | states |
|---|---|---|
| Strings.Trim | src/components/MemberDashboard.tsx:166 | `trim()` is the stretch of the text that starts after its leading whitespace and is followed only by whitespace; it is "" exactly when the text is blank (all JavaScript whitespace), otherwise it starts and ends with non-whitespace |
| Strings.Contains | src/components/MemberDashboard.tsx:173-175 | `includes` holds exactly when the needle occurs at some position of the text |
| Strings.Lower | src/components/MemberDashboard.tsx:173-175 | lower-casing turns each ASCII capital into its small letter and keeps every other character, so the length is kept and no capital is left |
| Seqs.FilterSpec | src/components/MemberDashboard.tsx:171-178 | `filter` keeps exactly the elements satisfying the test, with their multiplicities, as an order-preserving subsequence |
| Seqs.FilterPartition | src/components/PendingRequestsModal.tsx:80-81 | filtering by a test and by its negation splits the list: sizes and multisets add up |
| Members.Get | src/components/MemberDashboard.tsx:14-39 | the five required fields are always present; optional ones may be absent |
| Members.Set | src/components/AddMemberModal.tsx:72-77 | writing a field changes that field and no other |
| Dashboard.HandleSearch | src/components/MemberDashboard.tsx:165-181 | a blank term shows the whole register; otherwise exactly the register's matching members, in register order, never drawn from the rows shown before |
| Dashboard.SearchIgnoresDisplayedRows | src/components/MemberDashboard.tsx:171-180 | the search result does not depend on the rows previously shown |
| Dashboard.KeepIgnoresCase | src/components/MemberDashboard.tsx:172-175 | whether a member matches does not depend on the case of the term or of the searched key |
| Dashboard.MixedCaseMatch | src/components/MemberDashboard.tsx:172-173 | the mixed-case term "Ab" finds member number "aB1" |
| Dashboard.UnknownKeyFindsNothing | src/components/MemberDashboard.tsx:177 | a key other than member number or site number finds nothing |
| Dashboard.SeedSearchMemberNo | src/components/MemberDashboard.tsx:47-173 | on the seed register, member-number term "01" shows exactly 001 and 010 |
| Dashboard.SeedSearchSiteNo | src/components/MemberDashboard.tsx:47-175 | on the seed register, site-number term "1" shows exactly 001 and 003 |
| Dashboard.SeedKeepMemberNo | src/components/MemberDashboard.tsx:172-173 | which seed records match "01" by member number |
| Dashboard.SeedKeepSiteNo | src/components/MemberDashboard.tsx:174-175 | which seed records match "1" by site number |
| Dashboard.EditSearchTerm | src/components/MemberDashboard.tsx:270-276 | typing changes the term only; rows are recomputed on the search action alone |
| Dashboard.ClearSearch | src/components/MemberDashboard.tsx:183-186 | clearing empties the term and shows the whole register |
| Dashboard.ClearIsBlankSearch | src/components/MemberDashboard.tsx:165-186 | clearing shows what a blank search shows and undoes any earlier search |
| Dashboard.HandleAddMember | src/components/MemberDashboard.tsx:188-192 | the new member is appended, earlier members keep their places, no duplicate check, rows reset to the new register |
| Dashboard.Actions | src/components/MemberDashboard.tsx:217-389 | only "admin1" gets the Update action; only "head1" gets the inbox and the approval-only badge; every role gets view, financial, add, logout |
| Dashboard.RolesSeparateEditing | src/components/MemberDashboard.tsx:421-432 | the update form renders only for "admin1" and the inbox only for "head1", whatever opened them |
| AddMember.InputChange | src/components/AddMemberModal.tsx:72-77 | an input change sets the named field and leaves every other field as it was |
| AddMember.Submit | src/components/AddMemberModal.tsx:79-95 | rejected exactly when some required field is ""; otherwise `onAdd` gets the form record unchanged |
| AddMember.InitialFormRejected | src/components/AddMemberModal.tsx:43-87 | the form as it opens is rejected |
| AddMember.OptionalFieldsNeverBlock | src/components/AddMemberModal.tsx:80 | editing an optional field never changes acceptance |
| AddMember.RequiredFieldsSuffice | src/components/AddMemberModal.tsx:80-89 | any non-empty required values, whitespace included, make the form acceptable |
| AddMember.EmptyRequiredRejects | src/components/AddMemberModal.tsx:80-87 | emptying any required field makes the form unacceptable |
| UpdateRequest.Position | src/components/UpdateRequestModal.tsx:45 | the place of a key in the draft, or past the end when it has none |
| UpdateRequest.Lookup | src/components/UpdateRequestModal.tsx:45 | a draft value is present exactly for the draft's keys |
| UpdateRequest.LookupIff | src/components/UpdateRequestModal.tsx:45 | an entry is in the draft exactly when the draft maps its field to its value |
| UpdateRequest.FieldChange | src/components/UpdateRequestModal.tsx:49-54 | a field edit sets that one key; other keys keep their values and places; a new key goes last |
| UpdateRequest.ChangedFieldsExact | src/components/UpdateRequestModal.tsx:92-96 | the changed set holds exactly the draft entries that strictly differ from the record, in draft order |
| UpdateRequest.SubmitRequest | src/components/UpdateRequestModal.tsx:56-90 | "No Changes Detected" exactly when the draft has no keys, checked first; then "Reason Required" exactly for a blank reason; otherwise the request id |
| UpdateRequest.RequestId | src/components/UpdateRequestModal.tsx:81 | "UPD-" then at most six digits; exactly ten characters once the timestamp has six digits |
| UpdateRequest.RequestIdDigits | src/components/UpdateRequestModal.tsx:81 | the id's digits denote the timestamp modulo one million |
| UpdateRequest.Displayed | src/components/UpdateRequestModal.tsx:141-188 | a box shows the draft value if present, else the record value, else "" |
| UpdateRequest.DisplayedAfterEdit | src/components/UpdateRequestModal.tsx:141-188 | an edited box shows what was typed; an untouched form shows the record |
| UpdateRequest.RevertKeepsKey | src/components/UpdateRequestModal.tsx:57-96 | editing a field and typing the original back keeps the key: the no-changes check passes, yet the field is not changed |
| UpdateRequest.RevertFromEmpty | src/components/UpdateRequestModal.tsx:57-96 | from an empty draft, an edit reverted gives an empty changed set yet a draft that submits |
| UpdateRequest.AbsentFieldAlwaysChanged | src/components/UpdateRequestModal.tsx:92-96 | an edit to an absent optional field, even to "", is a change |
| Decimal.ToDecimal | src/components/UpdateRequestModal.tsx:81 | `toString` of a timestamp is at least one digit, with no leading zero |
| Decimal.Last | src/components/UpdateRequestModal.tsx:81 | `slice(-k)` is the last k characters, or all of a shorter text; for k = 0 it is the whole text |
| Decimal.ValueOfDecimal | src/components/UpdateRequestModal.tsx:81 | reading back the decimal text gives the number |
| Decimal.LastDigitsValue | src/components/UpdateRequestModal.tsx:81 | the last k digits of a number denote it modulo ten to the k |
| PendingRequests.SetStatus | src/components/PendingRequestsModal.tsx:57-71 | the status map keeps the queue's length |
| PendingRequests.SetStatusSpec | src/components/PendingRequestsModal.tsx:57-71 | requests with the id get the new status and keep every other field; all other requests are untouched |
| PendingRequests.ApproveSpec | src/components/PendingRequestsModal.tsx:57-60 | approve sets "approved" on every matching request, changes nothing but status, keeps length and order |
| PendingRequests.RejectSpec | src/components/PendingRequestsModal.tsx:68-71 | reject does the same with "rejected" |
| PendingRequests.UnknownIdUnchanged | src/components/PendingRequestsModal.tsx:58-60 | an id no request carries leaves the queue unchanged |
| PendingRequests.LastDecisionWins | src/components/PendingRequestsModal.tsx:57-71 | no transition guard: approving a rejected request approves it, and a repeated decision changes nothing |
| PendingRequests.Partition | src/components/PendingRequestsModal.tsx:80-81 | pending and processed partition the queue by status, in order, with sizes summing to the total |
| PendingRequests.DecisionLeavesPending | src/components/PendingRequestsModal.tsx:57-81 | after a decision on an id, the pending list is the old one without that id |
| PendingRequests.SeedQueueAllPending | src/components/PendingRequestsModal.tsx:24-50 | the seed inbox is UPD-123456 and UPD-789012, both pending, none processed |
| PendingRequests.ControlsSurviveDecision | src/components/PendingRequestsModal.tsx:55-172 | a decision from the detail view reaches the list, but the view's copy stays pending with both buttons shown, so a second, contrary decision overrides the first |
| PendingRequests.SeedApproveThenReject | src/components/PendingRequestsModal.tsx:24-172 | opening UPD-123456, approving, then rejecting leaves it rejected while the view still shows it pending |
| PendingRequests.ReopenedDecisionHasNoControls | src/components/PendingRequestsModal.tsx:154-172 | details reopened from the updated list show the decision and no buttons, yet a further approve or reject of that id still goes through and overrides it |
| PendingRequests.SyncedDecisionIsFinal | src/components/PendingRequestsModal.tsx:154-172 | with the copy kept in step, a decision hides the buttons, the view and the list agree, and later clicks change nothing |
| Financial.StatusOf | src/components/FinancialDetailsModal.tsx:44-57 | "Fully Paid" iff nothing remains and something was paid; "Partially Paid" iff both are positive; "Unpaid" iff nothing was paid; "Unknown" iff paid is negative, or positive with a negative remainder |
| Financial.TotalIgnored | src/components/FinancialDetailsModal.tsx:45 | the total amount never affects the badge |
| Financial.AmountOf | src/components/FinancialDetailsModal.tsx:45-47 | an absent or empty amount is read as the `|| "0"` fallback |
| Financial.NoPaidAmountIsUnpaid | src/components/FinancialDetailsModal.tsx:46-54 | a record with no paid amount is unpaid, whatever else it holds |
| Financial.SeedStatuses | src/components/FinancialDetailsModal.tsx:44-57 | read from the seed records, 001, 003 and 010 are partly paid and 002 fully paid; a record with no amounts is unpaid |
| Financial.FormatAmount | src/components/FinancialDetailsModal.tsx:39-42 | an absent or empty amount shows as "₹0"; every amount starts with "₹" |
| Financial.ShareSectionIff | src/components/FinancialDetailsModal.tsx:173 | the share section shows exactly when a share field is non-empty, and no other field affects it |
| Session.RoleOf | src/components/LoginPage.tsx:72-88 | the administrator button passes "admin1" and the head button "head1" |
| Session.HandleLogin | src/components/LoginPage.tsx:16-21 | `onLogin` is called, with the button's role, exactly when both credentials are non-empty (the buttons' enabled condition) |
| Session.PageOf | src/pages/Index.tsx:16-20 | no session shows the login page; a session shows the dashboard with that role |
| Session.LoginLogoutPages | src/pages/Index.tsx:8-14 | login shows the role's dashboard from any session; logout from any session shows the login page |
| Session.StepValid | src/pages/Index.tsx:6-20 | each click keeps the session none or one of the two roles; logout ends it |
| Session.RunValid | src/pages/Index.tsx:6-20 | any sequence of clicks keeps the session valid |
| Session.ReachableValid | src/pages/Index.tsx:6-20 | from the initial no-session state, the dashboard shows exactly when someone is logged in |
| Workflow.AppStep | src/pages/Index.tsx:6-20 | the dashboard's state exists exactly while the dashboard is shown; it survives while shown and starts afresh on each login |
| Workflow.AppAdd | src/components/MemberDashboard.tsx:188-192 | on a mounted dashboard, submitting the add form is `AddFlow` on its state; with no dashboard nothing changes; the session and the mounting rule are kept |
| Workflow.LogoutForgetsAddedMembers | src/components/MemberDashboard.tsx:155-163 | a member added before logout is listed until then; after logout and a new login the register is the seed register again |
| Workflow.AddFlow | src/components/MemberDashboard.tsx:407-411 | an accepted form is appended to the register, the rows reset to it and the search term and key kept; a rejected one leaves the dashboard as it was |
| Workflow.AddedMemberIsListed | src/components/AddMemberModal.tsx:79-94 | a form with all required fields ends up listed and on display; a missing one changes nothing |
| Workflow.LoginThenDashboard | src/components/LoginPage.tsx:16-21 | logging in with credentials shows that button's dashboard, and only the administrator's offers updates |
| Workflow.EmptyCredentialsStay | src/components/LoginPage.tsx:17-20 | empty credentials leave the login page showing |
| Workflow.ContactChangeScenario | src/components/UpdateRequestModal.tsx:49-96 | member 001's contact number edited with a reason gives a one-entry changed set and an accepted submission |

## Findings

| source | as written | input that shows it | evidently intended | confidence | as-written member | corrected member |
|---|---|---|---|---|---|---|
| src/components/PendingRequestsModal.tsx:57-71 | approve and reject update only the request list; the detail view shows the copy taken when it was opened, so its status badge and its buttons (line 154) stay as if the request were pending | open the details of UPD-123456, click "Approve Request", then "Reject Request": the request ends rejected while the view shows it pending throughout | the detail view follows the decision: it shows the new status and no more buttons | medium, not executed | PendingRequests.ControlsSurviveDecision | PendingRequests.SyncedDecisionIsFinal |

`PendingRequests.DecideFromDetails` is the handler as written and `PendingRequests.DecideFromDetailsSynced` the corrected one. The rest of the model keeps the list operations (`Approve`, `Reject`), which both share, and no other part of it reads the detail view.

## Left out

- Rendering, styling, icons and the modal open/close flags are presentation. So are the detail view's navigation and the hard-coded "Pending Requests (2)" label.
- Toast notifications are left out. Their titles survive only as the outcome constructors (`MissingRequiredFields`, `NoChangesDetected`, `ReasonRequired`).
- The two-second simulated delay and the `isSubmitting` busy flag in the update form are asynchronous timing. Submit is one step.
- `Date.now()` is the natural-number parameter `now` of `RequestId` and `SubmitRequest`.
- `parseFloat` and `toLocaleString` (floating point and locale) are not modelled. `Financial.AmountOf` takes `parse` and `Financial.FormatAmount` takes `localise` as parameters, and badge amounts are integers. A non-numeric amount, which `parseFloat` would read as NaN, is not modelled.
- Strings.Lower: lower-cases ASCII letters only, not the full Unicode case mapping of `toLowerCase`.
- Financial.SeedStatuses: reads amounts with `DigitAmount`, which gives the digits' value for digit text, as `parseFloat` does, and 0 for any other text.
- src/components/MemberDetails.tsx is not part of this model: it is a read-only display with a "Not provided" fallback.
- The financial view's other text fallbacks ("Not specified", "Not assigned", "0") and the update form's "Empty" label in its change summary are display text.
- Session.Step: clicks act only on the page being shown (login buttons on the login page, logout on the dashboard). The source reaches its handlers only through those rendered controls.
- Behaviour the code lacks is not invented: duplicate-member rejection, writing approved changes back to a record, a queue shared between submit and approve, and a pending-only guard on approve and reject.
