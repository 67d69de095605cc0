/** The head's inbox of update requests: approving, rejecting, and the
    split into pending and processed requests. */
module PendingRequests {
  import opened Wrappers
  import opened Seqs

  datatype Status = Pending | Approved | Rejected

  /** One requested field change, as text. */
  datatype Change = Change(field: string, oldValue: string, newValue: string)

  datatype Request = Request(
    id: string,
    memberNo: string,
    memberName: string,
    requestedBy: string,
    requestDate: string,
    reason: string,
    changes: seq<Change>,
    status: Status
  )

  /** The inbox as it opens: two hard-coded pending requests. Requests
      submitted from the update form never reach it. */
  const SeedQueue: seq<Request> := [
    Request(
      "UPD-123456", "001", "Rajesh Kumar", "Administrator", "2024-01-15",
      "Member requested to update contact details due to change in phone number",
      [ Change("contactDetails", "9876543210", "9876543999"),
        Change("address", "123 Main Street, Delhi", "456 New Address, Delhi") ],
      Pending),
    Request(
      "UPD-789012", "002", "Priya Sharma", "Administrator", "2024-01-14",
      "Correction needed in payment amount after bank verification",
      [ Change("paidAmount", "60000", "65000") ],
      Pending)
  ]

  /** The status update behind both decisions: every request carrying the
      id gets the new status, every other request is kept as it is. */
  function SetStatus(reqs: seq<Request>, id: string, status: Status): (r: seq<Request>)
    ensures |r| == |reqs|
    decreases |reqs|
  {
    if |reqs| == 0 then []
    else [if reqs[0].id == id then reqs[0].(status := status) else reqs[0]] + SetStatus(reqs[1..], id, status)
  }

  /** What `SetStatus` does at each position: a request with the id gets the
      new status, whatever its old one, and keeps every other field; every
      other request is left as it was. Length and order are kept. */
  lemma {:induction false} SetStatusSpec(reqs: seq<Request>, id: string, status: Status)
    ensures forall i :: 0 <= i < |reqs| && reqs[i].id == id ==> SetStatus(reqs, id, status)[i] == reqs[i].(status := status)
    ensures forall i :: 0 <= i < |reqs| && reqs[i].id != id ==> SetStatus(reqs, id, status)[i] == reqs[i]
    decreases |reqs|
  {
    if |reqs| > 0 {
      SetStatusSpec(reqs[1..], id, status);
      var r := SetStatus(reqs, id, status);
      forall i | 1 <= i < |reqs| ensures r[i] == SetStatus(reqs[1..], id, status)[i - 1] {
      }
    }
  }

  /** `handleApproveRequest`. */
  function Approve(reqs: seq<Request>, id: string): seq<Request> {
    SetStatus(reqs, id, Approved)
  }

  /** `handleRejectRequest`. */
  function Reject(reqs: seq<Request>, id: string): seq<Request> {
    SetStatus(reqs, id, Rejected)
  }

  /** Approving touches nothing but the status of the requests with that
      id; it does not look at their current status. */
  lemma ApproveSpec(reqs: seq<Request>, id: string)
    ensures |Approve(reqs, id)| == |reqs|
    ensures forall i :: 0 <= i < |reqs| ==>
      && Approve(reqs, id)[i].status == (if reqs[i].id == id then Approved else reqs[i].status)
      && Approve(reqs, id)[i] == reqs[i].(status := Approve(reqs, id)[i].status)
  {
    SetStatusSpec(reqs, id, Approved);
  }

  /** Rejecting likewise touches nothing but the status. */
  lemma RejectSpec(reqs: seq<Request>, id: string)
    ensures |Reject(reqs, id)| == |reqs|
    ensures forall i :: 0 <= i < |reqs| ==>
      && Reject(reqs, id)[i].status == (if reqs[i].id == id then Rejected else reqs[i].status)
      && Reject(reqs, id)[i] == reqs[i].(status := Reject(reqs, id)[i].status)
  {
    SetStatusSpec(reqs, id, Rejected);
  }

  /** An id that no request carries leaves the list as it was. */
  lemma UnknownIdUnchanged(reqs: seq<Request>, id: string, status: Status)
    requires forall i :: 0 <= i < |reqs| ==> reqs[i].id != id
    ensures SetStatus(reqs, id, status) == reqs
  {
    SetStatusSpec(reqs, id, status);
  }

  /** There is no transition guard: the last decision wins, so approving a
      rejected request approves it, and deciding twice is deciding once. */
  lemma LastDecisionWins(reqs: seq<Request>, id: string)
    ensures Approve(Reject(reqs, id), id) == Approve(reqs, id)
    ensures Reject(Approve(reqs, id), id) == Reject(reqs, id)
    ensures Approve(Approve(reqs, id), id) == Approve(reqs, id)
  {
    LastWins(reqs, id, Rejected, Approved);
    LastWins(reqs, id, Approved, Rejected);
    LastWins(reqs, id, Approved, Approved);
  }

  lemma LastWins(reqs: seq<Request>, id: string, s: Status, t: Status)
    ensures SetStatus(SetStatus(reqs, id, s), id, t) == SetStatus(reqs, id, t)
  {
    var a := SetStatus(reqs, id, s);
    SetStatusSpec(reqs, id, s);
    SetStatusSpec(a, id, t);
    SetStatusSpec(reqs, id, t);
  }

  predicate IsPending(r: Request) {
    r.status == Pending
  }

  predicate IsProcessed(r: Request) {
    r.status != Pending
  }

  /** The "pending" column: the requests whose status is pending. */
  function PendingOf(reqs: seq<Request>): seq<Request> {
    Filter(reqs, IsPending)
  }

  /** The "processed" column: the requests whose status is anything else. */
  function ProcessedOf(reqs: seq<Request>): seq<Request> {
    Filter(reqs, IsProcessed)
  }

  /** Pending and processed partition the list: each request is in exactly
      one of them according to its status, both keep the list's order, and
      their sizes add up to the total. */
  lemma Partition(reqs: seq<Request>)
    ensures |PendingOf(reqs)| + |ProcessedOf(reqs)| == |reqs|
    ensures multiset(PendingOf(reqs)) + multiset(ProcessedOf(reqs)) == multiset(reqs)
    ensures forall r :: r in PendingOf(reqs) <==> r in reqs && r.status == Pending
    ensures forall r :: r in ProcessedOf(reqs) <==> r in reqs && r.status != Pending
    ensures IsSubsequence(PendingOf(reqs), reqs) && IsSubsequence(ProcessedOf(reqs), reqs)
  {
    FilterSpec(reqs, IsPending);
    FilterSpec(reqs, IsProcessed);
    FilterPartition(reqs, IsPending, IsProcessed);
  }

  /** After approving or rejecting an id, no request with that id is left
      pending, and the other pending requests stay pending in their order. */
  lemma {:induction false} DecisionLeavesPending(reqs: seq<Request>, id: string, status: Status)
    requires status != Pending
    ensures PendingOf(SetStatus(reqs, id, status)) == Filter(PendingOf(reqs), (r: Request) => r.id != id)
    decreases |reqs|
  {
    if |reqs| > 0 {
      DecisionLeavesPending(reqs[1..], id, status);
      var head := reqs[0];
      assert reqs == [head] + reqs[1..];
      assert SetStatus(reqs, id, status)[1..] == SetStatus(reqs[1..], id, status);
      if head.status == Pending {
        assert PendingOf(reqs)[1..] == PendingOf(reqs[1..]);
      }
    }
  }

  /** The seed inbox holds the two requests, both pending, and nothing has
      been processed. */
  lemma SeedQueueAllPending()
    ensures |SeedQueue| == 2
    ensures SeedQueue[0].id == "UPD-123456" && SeedQueue[1].id == "UPD-789012"
    ensures PendingOf(SeedQueue) == SeedQueue
    ensures ProcessedOf(SeedQueue) == []
  {
    assert SeedQueue[1..] == [SeedQueue[1]];
    assert SeedQueue[1..][1..] == [];
  }

  /** The approve and reject buttons of the detail view are shown only for
      a pending request. */
  predicate DecisionControlsShown(selected: Request) {
    selected.status == Pending
  }

  /** The inbox screen: the request list, and the detail view's own copy of
      the request whose details were opened. The copy is taken when the
      details are opened and nothing refreshes it afterwards. */
  datatype Inbox = Inbox(requests: seq<Request>, selected: Option<Request>)

  const InitialInbox: Inbox := Inbox(SeedQueue, None)

  /** "View Details" (or "View") on the list entry at position `i`. */
  function ViewDetails(inbox: Inbox, i: nat): Inbox
    requires i < |inbox.requests|
  {
    inbox.(selected := Some(inbox.requests[i]))
  }

  /** "Back" from the detail view. */
  function Back(inbox: Inbox): Inbox {
    inbox.(selected := None)
  }

  datatype Decision = ApproveClicked | RejectClicked

  function DecidedStatus(d: Decision): Status {
    match d
    case ApproveClicked => Approved
    case RejectClicked => Rejected
  }

  /** The approve or reject handler for an id. */
  function Decide(reqs: seq<Request>, id: string, d: Decision): seq<Request> {
    match d
    case ApproveClicked => Approve(reqs, id)
    case RejectClicked => Reject(reqs, id)
  }

  /** A click on the detail view's approve or reject button. The buttons
      exist only while the copy is pending; the click updates the list and
      leaves the copy as it was. */
  function DecideFromDetails(inbox: Inbox, d: Decision): Inbox {
    if inbox.selected.Some? && DecisionControlsShown(inbox.selected.value)
    then inbox.(requests := Decide(inbox.requests, inbox.selected.value.id, d))
    else inbox
  }

  /** A decision taken in the detail view reaches the list, yet the view
      keeps showing the request as pending with both buttons, so a second,
      contrary decision goes through and overrides the first. */
  lemma ControlsSurviveDecision(inbox: Inbox, d: Decision, e: Decision)
    requires inbox.selected.Some? && DecisionControlsShown(inbox.selected.value)
    ensures var after := DecideFromDetails(inbox, d);
      && after.selected == inbox.selected
      && DecisionControlsShown(after.selected.value)
      && after.requests == SetStatus(inbox.requests, inbox.selected.value.id, DecidedStatus(d))
    ensures DecideFromDetails(DecideFromDetails(inbox, d), e).requests
         == SetStatus(inbox.requests, inbox.selected.value.id, DecidedStatus(e))
  {
    var id := inbox.selected.value.id;
    LastWins(inbox.requests, id, DecidedStatus(d), DecidedStatus(e));
  }

  /** Approving UPD-123456 from its detail view and then clicking reject,
      which is still on screen, leaves it rejected. */
  lemma SeedApproveThenReject()
    ensures var details := ViewDetails(InitialInbox, 0);
      var after := DecideFromDetails(DecideFromDetails(details, ApproveClicked), RejectClicked);
      && after.requests[0].status == Rejected
      && after.selected.value.status == Pending
  {
    var details := ViewDetails(InitialInbox, 0);
    ControlsSurviveDecision(details, ApproveClicked, RejectClicked);
    SetStatusSpec(SeedQueue, "UPD-123456", Rejected);
  }

  /** The detail view with the copy brought up to date after a decision:
      the list and the view then agree. */
  function DecideFromDetailsSynced(inbox: Inbox, d: Decision): Inbox {
    if inbox.selected.Some? && DecisionControlsShown(inbox.selected.value)
    then Inbox(Decide(inbox.requests, inbox.selected.value.id, d),
               Some(inbox.selected.value.(status := DecidedStatus(d))))
    else inbox
  }

  /** With the copy kept in step, a decision hides the buttons, the view
      shows the status the list holds, and a later click changes nothing. */
  lemma SyncedDecisionIsFinal(inbox: Inbox, d: Decision, e: Decision, i: nat)
    requires inbox.selected.Some? && DecisionControlsShown(inbox.selected.value)
    requires i < |inbox.requests| && inbox.requests[i].id == inbox.selected.value.id
    ensures var after := DecideFromDetailsSynced(inbox, d);
      && !DecisionControlsShown(after.selected.value)
      && after.selected.value.status == after.requests[i].status
      && DecideFromDetailsSynced(after, e) == after
  {
    SetStatusSpec(inbox.requests, inbox.selected.value.id, DecidedStatus(d));
  }

  /** Reopening the details of a decided request, from the updated list,
      shows its decision and no buttons, although the operations themselves
      would still accept it. */
  lemma ReopenedDecisionHasNoControls(inbox: Inbox, d: Decision, e: Decision, i: nat)
    requires inbox.selected.Some? && DecisionControlsShown(inbox.selected.value)
    requires i < |inbox.requests| && inbox.requests[i].id == inbox.selected.value.id
    ensures var after := DecideFromDetails(inbox, d);
      var reopened := ViewDetails(Back(after), i);
      && reopened.selected.value.status == DecidedStatus(d)
      && !DecisionControlsShown(reopened.selected.value)
    ensures Decide(DecideFromDetails(inbox, d).requests, inbox.selected.value.id, e)
         == SetStatus(inbox.requests, inbox.selected.value.id, DecidedStatus(e))
  {
    var id := inbox.selected.value.id;
    SetStatusSpec(inbox.requests, id, DecidedStatus(d));
    LastWins(inbox.requests, id, DecidedStatus(d), DecidedStatus(e));
  }
}
