/**
  The shift form of admin-dashboard/src/components/ShiftForm.tsx: its state is
  the partial shift being edited and a dictionary of error messages keyed by
  field name.  `Timestamp.now()` is the parameter `now`.
*/
module ShiftFormPage {
  import opened Wrappers
  import opened CivilTime
  import opened Text
  import opened Types

  const TitleRequired := "Title is required"
  const EmployeeIdRequired := "Employee ID is required"
  const StartTimeRequired := "Start time is required"
  const EndTimeRequired := "End time is required"
  const EndAfterStart := "End time must be after start time"

  /** The form's fields before `initialData` is spread over them. */
  function Defaults(now: TimeValue): ShiftDraft
  {
    EmptyDraft.(title := Some(""), employeeId := Some(""), startTime := Some(now), endTime := Some(now),
                status := Some(ShiftStatus.Pending), isRecurring := Some(false))
  }

  /**
    The initial form: the defaults with every field of `initialData` that is
    present taking precedence; the six defaulted fields are always present.
  */
  function InitialFormData(initial: ShiftDraft, now: TimeValue): (r: ShiftDraft)
    ensures r.title == (if initial.title.Some? then initial.title else Some(""))
    ensures r.employeeId == (if initial.employeeId.Some? then initial.employeeId else Some(""))
    ensures r.startTime == (if initial.startTime.Some? then initial.startTime else Some(now))
    ensures r.endTime == (if initial.endTime.Some? then initial.endTime else Some(now))
    ensures r.status == (if initial.status.Some? then initial.status else Some(ShiftStatus.Pending))
    ensures r.isRecurring == (if initial.isRecurring.Some? then initial.isRecurring else Some(false))
    ensures r.id == initial.id && r.notes == initial.notes && r.description == initial.description
    ensures r.location == initial.location && r.createdAt == initial.createdAt && r.updatedAt == initial.updatedAt
  {
    OverlayDraft(Defaults(now), initial)
  }

  /** The field names that the error dictionary is keyed by. */
  datatype FormField = TitleField | EmployeeIdField | StartTimeField | EndTimeField

  /** `!value?.trim()`: the field is missing or only white space. */
  predicate MissingText(value: Option<string>)
  {
    value.None? || Trim(value.value) == ""
  }

  lemma MissingTextIff(value: Option<string>)
    ensures MissingText(value) <==> value.None? || IsBlank(value.value)
  {
    if value.Some? {
      TrimEmptyIffBlank(value.value);
    }
  }

  /** The error dictionary that `validateForm` builds, from an empty one. */
  function ValidationErrors(d: ShiftDraft): (r: map<FormField, string>)
    ensures TitleField in r <==> d.title.None? || IsBlank(d.title.value)
    ensures EmployeeIdField in r <==> d.employeeId.None? || IsBlank(d.employeeId.value)
    ensures StartTimeField in r <==> d.startTime.None?
    ensures EndTimeField in r <==> d.endTime.None? || (d.startTime.Some? && d.endTime.value <= d.startTime.value)
    ensures TitleField in r ==> r[TitleField] == TitleRequired
    ensures EmployeeIdField in r ==> r[EmployeeIdField] == EmployeeIdRequired
    ensures StartTimeField in r ==> r[StartTimeField] == StartTimeRequired
    ensures EndTimeField in r ==> r[EndTimeField] == (if d.endTime.None? then EndTimeRequired else EndAfterStart)
  {
    MissingTextIff(d.title);
    MissingTextIff(d.employeeId);
    TitleErrors(d) + EmployeeIdErrors(d) + StartTimeErrors(d) + EndTimeErrors(d)
  }

  function TitleErrors(d: ShiftDraft): map<FormField, string>
  {
    if MissingText(d.title) then map[TitleField := TitleRequired] else map[]
  }

  function EmployeeIdErrors(d: ShiftDraft): map<FormField, string>
  {
    if MissingText(d.employeeId) then map[EmployeeIdField := EmployeeIdRequired] else map[]
  }

  function StartTimeErrors(d: ShiftDraft): map<FormField, string>
  {
    if d.startTime.None? then map[StartTimeField := StartTimeRequired] else map[]
  }

  function EndTimeErrors(d: ShiftDraft): map<FormField, string>
  {
    if d.endTime.None? then map[EndTimeField := EndTimeRequired]
    else if d.startTime.Some? && d.endTime.value <= d.startTime.value then map[EndTimeField := EndAfterStart]
    else map[]
  }

  /**
    The form is valid exactly when title and employee id have a non-blank
    value and both times are present with the end strictly after the start.
  */
  lemma ValidIff(d: ShiftDraft)
    ensures ValidationErrors(d) == map[] <==>
      d.title.Some? && !IsBlank(d.title.value) && d.employeeId.Some? && !IsBlank(d.employeeId.value) &&
      d.startTime.Some? && d.endTime.Some? && d.startTime.value < d.endTime.value
  {
    var r := ValidationErrors(d);
    if r != map[] {
      var k :| k in r;
    }
  }

  /** The two text inputs bound to `handleChange`. */
  datatype TextField = Title | EmployeeId

  function KeyOf(f: TextField): FormField
  {
    match f
    case Title => TitleField
    case EmployeeId => EmployeeIdField
  }

  class ShiftForm {
    var formData: ShiftDraft
    var errors: map<FormField, string>

    constructor (initial: ShiftDraft, now: TimeValue)
      ensures formData == InitialFormData(initial, now)
      ensures errors == map[]
    {
      formData := InitialFormData(initial, now);
      errors := map[];
    }

    /** The effect run when `initialData` changes: a present value resets the form from the defaults. */
    method InitialDataChanged(initial: Option<ShiftDraft>, now: TimeValue)
      modifies this
      ensures formData == if initial.Some? then InitialFormData(initial.value, now) else old(formData)
      ensures errors == old(errors)
    {
      if initial.Some? {
        formData := InitialFormData(initial.value, now);
      }
    }

    /**
      `handleChange`: sets the named field; that field's error is blanked to ''
      only when it held a non-empty message, and no other error changes.
    */
    method HandleChange(field: TextField, value: string)
      modifies this
      ensures formData == match field
        case Title => old(formData).(title := Some(value))
        case EmployeeId => old(formData).(employeeId := Some(value))
      ensures KeyOf(field) in old(errors) && old(errors)[KeyOf(field)] != "" ==>
        errors == old(errors)[KeyOf(field) := ""]
      ensures !(KeyOf(field) in old(errors) && old(errors)[KeyOf(field)] != "") ==> errors == old(errors)
    {
      match field {
        case Title => formData := formData.(title := Some(value));
        case EmployeeId => formData := formData.(employeeId := Some(value));
      }
      var name := KeyOf(field);
      if name in errors && errors[name] != "" {
        errors := errors[name := ""];
      }
    }

    /** `handleSwitchChange` on the isRecurring switch. */
    method HandleSwitchChange(checked: bool)
      modifies this
      ensures formData == old(formData).(isRecurring := Some(checked))
      ensures errors == old(errors)
    {
      formData := formData.(isRecurring := Some(checked));
    }

    /** `handleSelectChange` on the status select. */
    method HandleSelectChange(status: ShiftStatus)
      modifies this
      ensures formData == old(formData).(status := Some(status))
      ensures errors == old(errors)
    {
      formData := formData.(status := Some(status));
    }

    /** `handleStartTimeChange`: a cleared picker stores now. */
    method HandleStartTimeChange(newValue: Option<TimeValue>, now: TimeValue)
      modifies this
      ensures formData == old(formData).(startTime := Some(newValue.GetOr(now)))
      ensures errors == old(errors)
    {
      formData := formData.(startTime := Some(if newValue.Some? then newValue.value else now));
    }

    /** `handleEndTimeChange`: a cleared picker stores now. */
    method HandleEndTimeChange(newValue: Option<TimeValue>, now: TimeValue)
      modifies this
      ensures formData == old(formData).(endTime := Some(newValue.GetOr(now)))
      ensures errors == old(errors)
    {
      formData := formData.(endTime := Some(if newValue.Some? then newValue.value else now));
    }

    /** `validateForm`: rebuilds the error dictionary from scratch and reports whether it has no keys at all. */
    method ValidateForm() returns (ok: bool)
      modifies this
      ensures formData == old(formData)
      ensures errors == ValidationErrors(formData)
      ensures ok <==> errors == map[]
    {
      var newErrors: map<FormField, string> := map[];
      if MissingText(formData.title) {
        newErrors := newErrors[TitleField := TitleRequired];
      }
      assert newErrors == TitleErrors(formData);
      if MissingText(formData.employeeId) {
        newErrors := newErrors[EmployeeIdField := EmployeeIdRequired];
      }
      assert newErrors == TitleErrors(formData) + EmployeeIdErrors(formData);
      if formData.startTime.None? {
        newErrors := newErrors[StartTimeField := StartTimeRequired];
      }
      assert newErrors == TitleErrors(formData) + EmployeeIdErrors(formData) + StartTimeErrors(formData);
      if formData.endTime.None? {
        newErrors := newErrors[EndTimeField := EndTimeRequired];
      } else if formData.startTime.Some? && formData.endTime.value <= formData.startTime.value {
        newErrors := newErrors[EndTimeField := EndAfterStart];
      }
      assert newErrors == ValidationErrors(formData);
      errors := newErrors;
      ok := newErrors == map[];
    }

    /** `handleSubmit`: the form data, unchanged, is what `onSubmit` receives, exactly when it validates. */
    method HandleSubmit() returns (submitted: Option<ShiftDraft>)
      modifies this
      ensures formData == old(formData)
      ensures errors == ValidationErrors(formData)
      ensures submitted == if ValidationErrors(formData) == map[] then Some(formData) else None
    {
      var ok := ValidateForm();
      if ok {
        submitted := Some(formData);
      } else {
        submitted := None;
      }
    }
  }
}
