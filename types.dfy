/**
  The records of admin-dashboard/src/types.ts that the pages share: shifts
  and time-off requests with their status enumerations.
*/
module Types {
  import opened Wrappers
  import opened CivilTime

  datatype ShiftStatus = Pending | Approved | Rejected | Completed | InProgress | Cancelled | Scheduled

  /** A shift: its times are Firestore timestamps. */
  datatype Shift = Shift(
    id: string,
    title: string,
    employeeId: string,
    startTime: TimeValue,
    endTime: TimeValue,
    status: ShiftStatus,
    notes: Option<string>,
    description: Option<string>,
    location: Option<string>,
    createdAt: TimeValue,
    updatedAt: TimeValue,
    isRecurring: Option<bool>)

  /** `Partial<Shift>`: the shape of a shift form, where every field may be absent. */
  datatype ShiftDraft = ShiftDraft(
    id: Option<string>,
    title: Option<string>,
    employeeId: Option<string>,
    startTime: Option<TimeValue>,
    endTime: Option<TimeValue>,
    status: Option<ShiftStatus>,
    notes: Option<string>,
    description: Option<string>,
    location: Option<string>,
    createdAt: Option<TimeValue>,
    updatedAt: Option<TimeValue>,
    isRecurring: Option<bool>)

  const EmptyDraft := ShiftDraft(None, None, None, None, None, None, None, None, None, None, None, None)

  /** A field of `{...base, ...over}`: the overriding value when present. */
  function Pick<T>(over: Option<T>, base: T): T
  {
    if over.Some? then over.value else base
  }

  function PickOption<T>(over: Option<T>, base: Option<T>): Option<T>
  {
    if over.Some? then over else base
  }

  /** `{...shift, ...draft}`: every field present in the draft replaces the shift's. */
  function Overlay(shift: Shift, d: ShiftDraft): Shift
  {
    Shift(
      Pick(d.id, shift.id), Pick(d.title, shift.title), Pick(d.employeeId, shift.employeeId),
      Pick(d.startTime, shift.startTime), Pick(d.endTime, shift.endTime), Pick(d.status, shift.status),
      PickOption(d.notes, shift.notes), PickOption(d.description, shift.description),
      PickOption(d.location, shift.location), Pick(d.createdAt, shift.createdAt),
      Pick(d.updatedAt, shift.updatedAt), PickOption(d.isRecurring, shift.isRecurring))
  }

  /** `{...base, ...over}` on two partial shifts. */
  function OverlayDraft(base: ShiftDraft, over: ShiftDraft): ShiftDraft
  {
    ShiftDraft(
      PickOption(over.id, base.id), PickOption(over.title, base.title),
      PickOption(over.employeeId, base.employeeId), PickOption(over.startTime, base.startTime),
      PickOption(over.endTime, base.endTime), PickOption(over.status, base.status),
      PickOption(over.notes, base.notes), PickOption(over.description, base.description),
      PickOption(over.location, base.location), PickOption(over.createdAt, base.createdAt),
      PickOption(over.updatedAt, base.updatedAt), PickOption(over.isRecurring, base.isRecurring))
  }

  datatype TimeOffStatus = Pending | Approved | Rejected

  datatype TimeOffRequest = TimeOffRequest(
    id: string,
    employeeId: string,
    employeeName: string,
    startDate: TimeValue,
    endDate: TimeValue,
    reason: string,
    status: TimeOffStatus,
    createdAt: TimeValue,
    updatedAt: TimeValue)
}
