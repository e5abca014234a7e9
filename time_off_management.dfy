/**
  The time-off table of admin-dashboard/src/pages/admin/TimeOffManagement.tsx:
  the status filter, the pending-only actions, the status chip colour, the
  detail dialog and the status write.  The page shows the documents of the
  'timeOff' collection, as its snapshot listener delivers them; the status
  write goes to the 'timeOffRequests' collection.  Both collections are the
  value `Db`; `Timestamp.now()` is the parameter `now`.
*/
module TimeOffManagementPage {
  import opened Wrappers
  import opened CivilTime
  import opened Seqs
  import opened Types

  /** The filter select: every request, or those with one status. */
  datatype RequestFilter = All | Only(status: TimeOffStatus)

  /** The test `filteredRequests` applies to each request. */
  function Passes(filter: RequestFilter): TimeOffRequest -> bool
  {
    (r: TimeOffRequest) => filter == All || r.status == filter.status
  }

  /** `filteredRequests`. */
  function FilteredRequests(requests: seq<TimeOffRequest>, filter: RequestFilter): (r: seq<TimeOffRequest>)
    ensures filter == All ==> r == requests
    ensures filter.Only? ==> forall x :: x in r <==> x in requests && x.status == filter.status
    ensures filter.Only? ==> forall x :: multiset(r)[x] == if x.status == filter.status then multiset(requests)[x] else 0
    ensures IsSubsequence(r, requests)
  {
    if filter == All then FilterKeepsAll(requests, Passes(filter)); Filter(requests, Passes(filter))
    else FilterMultiset(requests, Passes(filter)); Filter(requests, Passes(filter))
  }

  /** Every request passes exactly one of the three status filters. */
  lemma {:induction false} FiltersPartition(requests: seq<TimeOffRequest>)
    ensures |FilteredRequests(requests, Only(TimeOffStatus.Pending))| +
      |FilteredRequests(requests, Only(TimeOffStatus.Approved))| +
      |FilteredRequests(requests, Only(TimeOffStatus.Rejected))| == |requests|
  {
    if requests != [] {
      FiltersPartition(requests[1..]);
      FilterStep(requests, Passes(Only(TimeOffStatus.Pending)));
      FilterStep(requests, Passes(Only(TimeOffStatus.Approved)));
      FilterStep(requests, Passes(Only(TimeOffStatus.Rejected)));
    }
  }

  /** The Approve and Reject buttons are shown for pending requests only. */
  predicate ActionsOffered(r: TimeOffRequest)
  {
    r.status == TimeOffStatus.Pending
  }

  datatype ChipColour = Success | Error | Warning

  /** The colour of the status chip. */
  function StatusColour(s: TimeOffStatus): (c: ChipColour)
    ensures c == Success <==> s == TimeOffStatus.Approved
    ensures c == Error <==> s == TimeOffStatus.Rejected
    ensures c == Warning <==> s == TimeOffStatus.Pending
  {
    match s
    case Approved => Success
    case Rejected => Error
    case Pending => Warning
  }

  /** A request is offered the actions exactly when its chip is the warning colour. */
  lemma ActionsIffWarning(r: TimeOffRequest)
    ensures ActionsOffered(r) <==> StatusColour(r.status) == Warning
  {
  }

  // ---------------------------------------------------------------------
  // The status write

  /** The two buttons: 'approved' or 'rejected'. */
  datatype Decision = Approve | Reject

  function DecisionStatus(d: Decision): TimeOffStatus
  {
    match d
    case Approve => TimeOffStatus.Approved
    case Reject => TimeOffStatus.Rejected
  }

  /**
    `updateDoc(..., { status, updatedAt })` on a collection: the request with
    that id gets the new status and time, nothing else changes; without such
    a document the update fails and nothing changes.
  */
  function SetStatus(docs: seq<TimeOffRequest>, requestId: string, d: Decision, now: TimeValue): (r: seq<TimeOffRequest>)
    ensures |r| == |docs|
    ensures forall i :: 0 <= i < |docs| && docs[i].id != requestId ==> r[i] == docs[i]
    ensures forall i :: 0 <= i < |docs| && docs[i].id == requestId ==>
      r[i] == docs[i].(status := DecisionStatus(d), updatedAt := now)
  {
    Map(docs, (x: TimeOffRequest) => if x.id == requestId then x.(status := DecisionStatus(d), updatedAt := now) else x)
  }

  /** Deciding twice the same way at the same time is deciding once. */
  lemma SetStatusIdempotent(docs: seq<TimeOffRequest>, requestId: string, d: Decision, now: TimeValue)
    ensures SetStatus(SetStatus(docs, requestId, d, now), requestId, d, now) == SetStatus(docs, requestId, d, now)
  {
  }

  /** After a decision the request leaves the pending filter; every other request keeps its place in it. */
  lemma {:induction false} DecidedLeavesPending(docs: seq<TimeOffRequest>, requestId: string, d: Decision, now: TimeValue)
    ensures FilteredRequests(SetStatus(docs, requestId, d, now), Only(TimeOffStatus.Pending)) ==
      Filter(docs, (x: TimeOffRequest) => x.status == TimeOffStatus.Pending && x.id != requestId)
  {
    if docs != [] {
      var r := SetStatus(docs, requestId, d, now);
      DecidedLeavesPending(docs[1..], requestId, d, now);
      assert r[1..] == SetStatus(docs[1..], requestId, d, now);
    }
  }

  /** The Firestore collections the page reads and writes. */
  datatype Db = Db(timeOff: seq<TimeOffRequest>, timeOffRequests: seq<TimeOffRequest>)

  /** `handleStatusChange` as written: the write goes to 'timeOffRequests'; a failed write is only logged. */
  function HandleStatusChange(db: Db, requestId: string, d: Decision, now: TimeValue): (r: Db)
    ensures r.timeOff == db.timeOff
    ensures r.timeOffRequests == SetStatus(db.timeOffRequests, requestId, d, now)
  {
    db.(timeOffRequests := SetStatus(db.timeOffRequests, requestId, d, now))
  }

  /**
    The page lists 'timeOff', so after approving or rejecting a pending
    request it still lists it as pending, with the buttons still offered.
  */
  lemma DecisionNotShown(db: Db, i: nat, d: Decision, now: TimeValue)
    requires i < |db.timeOff| && ActionsOffered(db.timeOff[i])
    ensures var shown := HandleStatusChange(db, db.timeOff[i].id, d, now).timeOff;
      shown[i] == db.timeOff[i] && ActionsOffered(shown[i]) &&
      shown[i] in FilteredRequests(shown, Only(TimeOffStatus.Pending))
  {
  }

  /** `handleStatusChange` writing the collection the page lists. */
  function DecideShown(db: Db, requestId: string, d: Decision, now: TimeValue): (r: Db)
    ensures r.timeOff == SetStatus(db.timeOff, requestId, d, now)
    ensures r.timeOffRequests == db.timeOffRequests
  {
    db.(timeOff := SetStatus(db.timeOff, requestId, d, now))
  }

  /** Written there, the decided request shows its new status and loses the buttons; no other row changes. */
  lemma DecisionShown(db: Db, i: nat, d: Decision, now: TimeValue)
    requires i < |db.timeOff|
    ensures var shown := DecideShown(db, db.timeOff[i].id, d, now).timeOff;
      shown[i].status == DecisionStatus(d) && !ActionsOffered(shown[i]) &&
      (forall j :: 0 <= j < |shown| && db.timeOff[j].id != db.timeOff[i].id ==> shown[j] == db.timeOff[j])
  {
  }

  // ---------------------------------------------------------------------
  // Page state

  class TimeOffManagement {
    var timeOffRequests: seq<TimeOffRequest>
    var loading: bool
    var openDialog: bool
    var selectedRequest: Option<TimeOffRequest>
    var filter: RequestFilter

    constructor ()
      ensures timeOffRequests == [] && loading && !openDialog && selectedRequest == None && filter == All
    {
      timeOffRequests := [];
      loading := true;
      openDialog := false;
      selectedRequest := None;
      filter := All;
    }

    /** The snapshot listener: the list becomes the delivered 'timeOff' documents. */
    method OnSnapshot(db: Db)
      modifies this
      ensures timeOffRequests == db.timeOff && !loading
      ensures openDialog == old(openDialog) && selectedRequest == old(selectedRequest) && filter == old(filter)
    {
      timeOffRequests := db.timeOff;
      loading := false;
    }

    method SetFilter(f: RequestFilter)
      modifies this
      ensures filter == f
      ensures timeOffRequests == old(timeOffRequests) && loading == old(loading)
      ensures openDialog == old(openDialog) && selectedRequest == old(selectedRequest)
    {
      filter := f;
    }

    /** `handleOpenDialog`: opens the dialog; a passed request becomes the selection, none keeps the old one. */
    method HandleOpenDialog(request: Option<TimeOffRequest>)
      modifies this
      ensures openDialog
      ensures selectedRequest == if request.Some? then request else old(selectedRequest)
      ensures timeOffRequests == old(timeOffRequests) && loading == old(loading) && filter == old(filter)
    {
      if request.Some? {
        selectedRequest := request;
      }
      openDialog := true;
    }

    /** `handleCloseDialog`: closes the dialog and clears the selection. */
    method HandleCloseDialog()
      modifies this
      ensures !openDialog && selectedRequest == None
      ensures timeOffRequests == old(timeOffRequests) && loading == old(loading) && filter == old(filter)
    {
      openDialog := false;
      selectedRequest := None;
    }
  }
}
