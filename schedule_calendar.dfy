/**
  The shift list of admin-dashboard/src/pages/schedule/ScheduleCalendar.tsx:
  the list state, its grouping by start date and the local effects of the
  dialog, save and delete handlers.  Firestore reads and writes are
  parameters: the fetched documents, the id `addDoc` assigns, and whether a
  write succeeded.  `Timestamp.now()` is the parameter `now`.
*/
module ScheduleCalendarPage {
  import opened Wrappers
  import opened CivilTime
  import opened Seqs
  import opened Types

  /** A fetched shift document: its Firestore id and its data. */
  datatype ShiftDoc = ShiftDoc(docId: string, data: Shift)

  /** The shift `fetchShifts` builds from a document: the document id replaces any id in the data. */
  function FromDoc(d: ShiftDoc): Shift
  {
    d.data.(id := d.docId)
  }

  /** The sort key of `fetchShifts`: `startTime.toMillis()`. */
  function StartKey(s: Shift): int
  {
    s.startTime
  }

  // ---------------------------------------------------------------------
  // Grouping by start date

  /** The date a shift is listed under (the calendar day of its start). */
  function DateKey(s: Shift): Civil
  {
    CivilOf(s.startTime)
  }

  function OnDate(d: Civil): Shift -> bool
  {
    (s: Shift) => DateKey(s) == d
  }

  /** One entry of `shiftsByDate`: a date and the shifts listed under it. */
  datatype DateGroup = DateGroup(date: Civil, shifts: seq<Shift>)

  function DateOf(b: DateGroup): Civil
  {
    b.date
  }

  function Dates(g: seq<DateGroup>): seq<Civil>
  {
    Map(g, DateOf)
  }

  /** Index of the group for date d, or -1 when there is none. */
  function FindDate(g: seq<DateGroup>, d: Civil): (i: int)
    ensures -1 <= i < |g|
    ensures 0 <= i ==> g[i].date == d
    ensures i < 0 <==> d !in Dates(g)
  {
    if g == [] then -1
    else if g[0].date == d then 0
    else
      var i := FindDate(g[1..], d);
      assert Dates(g) == [g[0].date] + Dates(g[1..]);
      if i < 0 then -1 else i + 1
  }

  /** The groups for a list of shifts: one per start date, in order of first appearance. */
  predicate GroupsOf(groups: seq<DateGroup>, shifts: seq<Shift>)
  {
    Dates(groups) == Distinct(Map(shifts, DateKey)) &&
    forall j :: 0 <= j < |groups| ==> groups[j].shifts == Filter(shifts, OnDate(groups[j].date))
  }

  lemma MapSnoc<T, U>(s: seq<T>, i: nat, f: T -> U)
    requires i < |s|
    ensures Map(s[..i + 1], f) == Map(s[..i], f) + [f(s[i])]
  {
  }

  /** A date that no shift of the prefix starts on has an empty list. */
  lemma FilterAbsentDate(prefix: seq<Shift>, d: Civil)
    requires d !in Distinct(Map(prefix, DateKey))
    ensures Filter(prefix, OnDate(d)) == []
  {
  }

  lemma DistinctSnoc<T(!new)>(m: seq<T>, x: T)
    ensures Distinct(m + [x]) == if x in Distinct(m) then Distinct(m) else Distinct(m) + [x]
  {
    assert (m + [x])[..|m|] == m;
  }

  lemma FilterSnoc(prefix: seq<Shift>, s: Shift, d: Civil)
    ensures Filter(prefix + [s], OnDate(d)) == Filter(prefix, OnDate(d)) + (if DateKey(s) == d then [s] else [])
  {
    FilterAppend(prefix, [s], OnDate(d));
  }

  /** A group for another date than the new shift's keeps its list. */
  lemma GroupUnaffected(prefix: seq<Shift>, s: Shift, groups: seq<DateGroup>, e: nat)
    requires GroupsOf(groups, prefix)
    requires e < |groups| && groups[e].date != DateKey(s)
    ensures groups[e].shifts == Filter(prefix + [s], OnDate(groups[e].date))
  {
    FilterSnoc(prefix, s, groups[e].date);
  }

  /** The dates after a shift on a new date: the old dates, then that date. */
  lemma DatesStepNew(prefix: seq<Shift>, s: Shift, groups: seq<DateGroup>)
    requires Dates(groups) == Distinct(Map(prefix, DateKey))
    requires DateKey(s) !in Dates(groups)
    ensures Dates(groups + [DateGroup(DateKey(s), [s])]) == Distinct(Map(prefix + [s], DateKey))
  {
    var d := DateKey(s);
    MapAppendOne(prefix, s, DateKey);
    DistinctSnoc(Map(prefix, DateKey), d);
    MapAppendOne(groups, DateGroup(d, [s]), DateOf);
  }

  /** The new group holds exactly the new shift. */
  lemma NewGroupList(prefix: seq<Shift>, s: Shift)
    requires DateKey(s) !in Distinct(Map(prefix, DateKey))
    ensures [s] == Filter(prefix + [s], OnDate(DateKey(s)))
  {
    FilterAbsentDate(prefix, DateKey(s));
    FilterSnoc(prefix, s, DateKey(s));
  }

  /** A shift on a date that has no group yet opens a new group at the end. */
  lemma GroupStepNew(prefix: seq<Shift>, s: Shift, groups: seq<DateGroup>)
    requires GroupsOf(groups, prefix)
    requires DateKey(s) !in Dates(groups)
    ensures GroupsOf(groups + [DateGroup(DateKey(s), [s])], prefix + [s])
  {
    var d := DateKey(s);
    var g := groups + [DateGroup(d, [s])];
    DatesStepNew(prefix, s, groups);
    NewGroupList(prefix, s);
    forall e | 0 <= e < |groups|
      ensures g[e].shifts == Filter(prefix + [s], OnDate(g[e].date))
    {
      assert Dates(groups)[e] == g[e].date;
      GroupUnaffected(prefix, s, groups, e);
    }
  }

  /** A shift on a date that has group j is pushed onto that group. */
  lemma GroupStepExisting(prefix: seq<Shift>, s: Shift, groups: seq<DateGroup>, j: nat)
    requires GroupsOf(groups, prefix)
    requires j < |groups| && groups[j].date == DateKey(s)
    ensures GroupsOf(groups[j := groups[j].(shifts := groups[j].shifts + [s])], prefix + [s])
  {
    var d := DateKey(s);
    var g := groups[j := groups[j].(shifts := groups[j].shifts + [s])];
    assert Dates(g) == Distinct(Map(prefix + [s], DateKey)) by {
      assert Map(prefix + [s], DateKey) == Map(prefix, DateKey) + [d];
      assert Dates(groups)[j] == d;
      DistinctSnoc(Map(prefix, DateKey), d);
      assert Dates(g) == Dates(groups);
    }
    assert g[j].shifts == Filter(prefix + [s], OnDate(d)) by {
      FilterSnoc(prefix, s, d);
    }
    forall e | 0 <= e < |g| && e != j
      ensures g[e].shifts == Filter(prefix + [s], OnDate(g[e].date))
    {
      assert Dates(groups)[e] == g[e].date && Dates(groups)[j] == d;
      GroupUnaffected(prefix, s, groups, e);
    }
  }

  /**
    Every shift lies in exactly one group, the one for its start date: the
    dates are distinct, every shift's date has a group, and a group holds a
    shift exactly when the dates agree.
  */
  lemma ExactlyOneGroup(groups: seq<DateGroup>, shifts: seq<Shift>)
    requires GroupsOf(groups, shifts)
    ensures NoDuplicates(Dates(groups))
    ensures forall x :: x in shifts ==> DateKey(x) in Dates(groups)
    ensures forall x, j :: x in shifts && 0 <= j < |groups| ==> (x in groups[j].shifts <==> groups[j].date == DateKey(x))
  {
    forall x | x in shifts
      ensures DateKey(x) in Dates(groups)
    {
      var n :| 0 <= n < |shifts| && shifts[n] == x;
      assert Map(shifts, DateKey)[n] == DateKey(x);
    }
  }

  /** The shift appended in new mode; a title that is missing or empty becomes 'Untitled Shift'. */
  function NewShift(formData: ShiftDraft, docId: string, now: TimeValue): (r: Shift)
    requires formData.startTime.Some? && formData.endTime.Some?
    ensures r.id == docId && r.title != "" && r.createdAt == now && r.updatedAt == now
    ensures r.title == (if formData.title.Some? && formData.title.value != "" then formData.title.value else "Untitled Shift")
    ensures r.employeeId == formData.employeeId.GetOr("")
    ensures r.startTime == formData.startTime.value && r.endTime == formData.endTime.value
    ensures r.description == formData.description && r.location == formData.location
    ensures r.notes.None? && r.isRecurring.None?
  {
    Shift(docId,
      if formData.title.Some? && formData.title.value != "" then formData.title.value else "Untitled Shift",
      formData.employeeId.GetOr(""),
      formData.startTime.value, formData.endTime.value,
      formData.status.GetOr(ShiftStatus.Pending),
      None, formData.description, formData.location, now, now, None)
  }

  /** A shift after the edit: the form's fields merged over it and updatedAt refreshed. */
  function Edited(s: Shift, formData: ShiftDraft, now: TimeValue): Shift
  {
    Overlay(s, formData).(updatedAt := now)
  }

  function HasId(id: string): Shift -> bool
  {
    (s: Shift) => s.id == id
  }

  function NotId(id: string): Shift -> bool
  {
    (s: Shift) => s.id != id
  }

  /** The list after editing the shift with the given id. */
  function EditShifts(shifts: seq<Shift>, id: string, formData: ShiftDraft, now: TimeValue): (r: seq<Shift>)
    ensures |r| == |shifts|
    ensures forall i :: 0 <= i < |shifts| && shifts[i].id != id ==> r[i] == shifts[i]
    ensures forall i :: 0 <= i < |shifts| && shifts[i].id == id ==> r[i] == Edited(shifts[i], formData, now)
  {
    Map(shifts, (s: Shift) => if s.id == id then Edited(s, formData, now) else s)
  }

  /**
    Saving the same form twice at the same time changes nothing more than
    saving it once, whether or not the form carries an id of its own.
  */
  lemma EditIdempotent(shifts: seq<Shift>, id: string, formData: ShiftDraft, now: TimeValue)
    ensures EditShifts(EditShifts(shifts, id, formData, now), id, formData, now) == EditShifts(shifts, id, formData, now)
  {
    var r := EditShifts(shifts, id, formData, now);
    var r2 := EditShifts(r, id, formData, now);
    forall i | 0 <= i < |shifts|
      ensures r2[i] == r[i]
    {
      if shifts[i].id == id && r[i].id == id {
        assert Edited(r[i], formData, now) == r[i];
      }
    }
  }

  /**
    When the form keeps the shift's id, the shifts with other ids are kept
    as they were and in order, and the number with that id is unchanged.
  */
  lemma {:induction false} EditKeepsOthers(shifts: seq<Shift>, id: string, formData: ShiftDraft, now: TimeValue)
    requires formData.id.None? || formData.id == Some(id)
    ensures Filter(EditShifts(shifts, id, formData, now), NotId(id)) == Filter(shifts, NotId(id))
    ensures |Filter(EditShifts(shifts, id, formData, now), HasId(id))| == |Filter(shifts, HasId(id))|
  {
    if shifts != [] {
      var r := EditShifts(shifts, id, formData, now);
      EditKeepsOthers(shifts[1..], id, formData, now);
      assert r[1..] == EditShifts(shifts[1..], id, formData, now);
      assert r[0].id == shifts[0].id;
    }
  }

  /** The list after deleting the shifts with the given id. */
  function DeleteShifts(shifts: seq<Shift>, id: string): (r: seq<Shift>)
    ensures forall x :: x in r <==> x in shifts && x.id != id
    ensures IsSubsequence(r, shifts)
  {
    Filter(shifts, NotId(id))
  }

  /** Deleting removes exactly the shifts with the id: as many as were there. */
  lemma DeleteCount(shifts: seq<Shift>, id: string)
    ensures |DeleteShifts(shifts, id)| == |shifts| - |Filter(shifts, HasId(id))|
    ensures DeleteShifts(DeleteShifts(shifts, id), id) == DeleteShifts(shifts, id)
  {
    FilterPartition(shifts, HasId(id), NotId(id));
    FilterKeepsAll(DeleteShifts(shifts, id), NotId(id));
  }

  /** The `forEach` of `fetchShifts`: one shift per document, in document order, each with its document id. */
  method ShiftsFromDocs(docs: seq<ShiftDoc>) returns (data: seq<Shift>)
    ensures |data| == |docs|
    ensures forall i :: 0 <= i < |docs| ==> data[i] == docs[i].data.(id := docs[i].docId)
    ensures data == Map(docs, FromDoc)
  {
    data := [];
    for i := 0 to |docs|
      invariant data == Map(docs[..i], FromDoc)
    {
      data := data + [FromDoc(docs[i])];
    }
    assert docs[..|docs|] == docs;
  }

  /** The `sort` of `fetchShifts`, one insertion per element; its result is the stable sort by start time. */
  method SortByStart(data: seq<Shift>) returns (sorted: seq<Shift>)
    ensures sorted == SortBy(data, StartKey)
    ensures SortedBy(sorted, StartKey) && multiset(sorted) == multiset(data)
  {
    sorted := [];
    for i := 0 to |data|
      invariant sorted == SortBy(data[..i], StartKey)
    {
      assert data[..i + 1][..i] == data[..i];
      sorted := InsertSorted(sorted, data[i], StartKey);
    }
    assert data[..|data|] == data;
  }

  class ScheduleCalendar {
    var shifts: seq<Shift>
    var loading: bool
    var openShiftDialog: bool
    var selectedShift: Option<Shift>
    var isNewShift: bool

    constructor ()
      ensures shifts == [] && loading && !openShiftDialog && selectedShift == None && isNewShift
    {
      shifts := [];
      loading := true;
      openShiftDialog := false;
      selectedShift := None;
      isNewShift := true;
    }

    /**
      `fetchShifts`: pushes one shift per document, then sorts the list by
      start time.  A failed read leaves the list as it was; either way the
      page stops loading.
    */
    method FetchShifts(docs: seq<ShiftDoc>, readOk: bool)
      modifies this
      ensures readOk ==> shifts == SortBy(Map(docs, FromDoc), StartKey)
      ensures readOk ==> SortedBy(shifts, StartKey) && multiset(shifts) == multiset(Map(docs, FromDoc))
      ensures readOk ==> forall k :: Filter(shifts, KeyIs(StartKey, k)) == Filter(Map(docs, FromDoc), KeyIs(StartKey, k))
      ensures !readOk ==> shifts == old(shifts)
      ensures !loading
      ensures openShiftDialog == old(openShiftDialog) && selectedShift == old(selectedShift) && isNewShift == old(isNewShift)
    {
      if readOk {
        var data := ShiftsFromDocs(docs);
        shifts := SortByStart(data);
        forall k
          ensures Filter(shifts, KeyIs(StartKey, k)) == Filter(data, KeyIs(StartKey, k))
        {
          SortByStable(data, StartKey, k);
        }
      }
      loading := false;
    }

    /** `shiftsByDate`: the `reduce` that pushes every shift onto the list for its start date. */
    method ShiftsByDate() returns (groups: seq<DateGroup>)
      ensures GroupsOf(groups, shifts)
      ensures NoDuplicates(Dates(groups))
      ensures forall x, j :: x in shifts && 0 <= j < |groups| ==> (x in groups[j].shifts <==> groups[j].date == DateKey(x))
    {
      groups := [];
      for i := 0 to |shifts|
        invariant GroupsOf(groups, shifts[..i])
      {
        var s := shifts[i];
        var j := FindDate(groups, DateKey(s));
        assert shifts[..i + 1] == shifts[..i] + [s];
        if j < 0 {
          GroupStepNew(shifts[..i], s, groups);
          groups := groups + [DateGroup(DateKey(s), [s])];
        } else {
          GroupStepExisting(shifts[..i], s, groups, j);
          groups := groups[j := groups[j].(shifts := groups[j].shifts + [s])];
        }
      }
      assert shifts[..|shifts|] == shifts;
      ExactlyOneGroup(groups, shifts);
    }

    /** `handleOpenShiftDialog`: a shift opens it for editing that shift, none for a new one. */
    method HandleOpenShiftDialog(shift: Option<Shift>)
      modifies this
      ensures openShiftDialog
      ensures selectedShift == shift
      ensures isNewShift <==> shift.None?
      ensures shifts == old(shifts) && loading == old(loading)
    {
      if shift.Some? {
        selectedShift := shift;
        isNewShift := false;
      } else {
        selectedShift := None;
        isNewShift := true;
      }
      openShiftDialog := true;
    }

    /** `handleCloseShiftDialog`: closes the dialog and clears the selection. */
    method HandleCloseShiftDialog()
      modifies this
      ensures !openShiftDialog && selectedShift == None
      ensures shifts == old(shifts) && loading == old(loading) && isNewShift == old(isNewShift)
    {
      openShiftDialog := false;
      selectedShift := None;
    }

    /**
      `handleSaveShift`: in new mode a successful write appends the new shift
      at the end when both times are present; in edit mode with a selected
      id a successful write merges the form over every shift with that id.
      A failed write changes nothing; otherwise the dialog closes.
    */
    method HandleSaveShift(formData: ShiftDraft, newDocId: string, now: TimeValue, writeOk: bool)
      modifies this
      ensures isNewShift && writeOk && formData.startTime.Some? && formData.endTime.Some? ==>
        shifts == old(shifts) + [NewShift(formData, newDocId, now)]
      ensures isNewShift && !(writeOk && formData.startTime.Some? && formData.endTime.Some?) ==>
        shifts == old(shifts)
      ensures !isNewShift && old(selectedShift).Some? && old(selectedShift).value.id != "" && writeOk ==>
        shifts == EditShifts(old(shifts), old(selectedShift).value.id, formData, now)
      ensures !isNewShift && !(old(selectedShift).Some? && old(selectedShift).value.id != "" && writeOk) ==>
        shifts == old(shifts)
      ensures var written := isNewShift || (old(selectedShift).Some? && old(selectedShift).value.id != "");
        if written && !writeOk then openShiftDialog == old(openShiftDialog) && selectedShift == old(selectedShift)
        else !openShiftDialog && selectedShift == None
      ensures isNewShift == old(isNewShift) && loading == old(loading)
    {
      if isNewShift {
        if !writeOk {
          return;
        }
        if formData.startTime.Some? && formData.endTime.Some? {
          shifts := shifts + [NewShift(formData, newDocId, now)];
        }
      } else if selectedShift.Some? && selectedShift.value.id != "" {
        if !writeOk {
          return;
        }
        shifts := EditShifts(shifts, selectedShift.value.id, formData, now);
      }
      HandleCloseShiftDialog();
    }

    /**
      `handleDeleteShift`: with a selected id, a successful delete drops every
      shift with that id and closes the dialog; without one nothing happens.
    */
    method HandleDeleteShift(writeOk: bool)
      modifies this
      ensures old(selectedShift).Some? && old(selectedShift).value.id != "" && writeOk ==>
        shifts == DeleteShifts(old(shifts), old(selectedShift).value.id) && !openShiftDialog && selectedShift == None
      ensures !(old(selectedShift).Some? && old(selectedShift).value.id != "" && writeOk) ==>
        shifts == old(shifts) && openShiftDialog == old(openShiftDialog) && selectedShift == old(selectedShift)
      ensures isNewShift == old(isNewShift) && loading == old(loading)
    {
      if selectedShift.Some? && selectedShift.value.id != "" && writeOk {
        shifts := DeleteShifts(shifts, selectedShift.value.id);
        HandleCloseShiftDialog();
      }
    }
  }
}
