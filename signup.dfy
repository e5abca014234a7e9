/**
  The two-step sign-up wizard of admin-dashboard/src/pages/Signup.tsx: the
  organisation step, the account form's checks, the error shown when account
  creation fails, and the back button.  Account creation (the Auth and
  Firestore calls and the login after them) is outside the model: its
  outcome is the parameter `outcome`.
*/
module SignupPage {
  import opened Wrappers
  import opened Text

  datatype UserForm = UserForm(displayName: string, email: string, password: string, confirmPassword: string, department: string)

  const EmptyUserForm := UserForm("", "", "", "", "")

  const OrganizationRequired := "Organization name is required"
  const OrganizationSaved := "Organization details saved. Let's set up your account now."
  const FieldsRequired := "Please fill in all required fields"
  const PasswordsDiffer := "Passwords don't match"
  const PasswordTooShort := "Password must be at least 6 characters"
  const EmailInUse := "This email is already registered. Please login instead."
  const CreateFailed := "An error occurred while creating your account"

  /** The shortest password accepted. */
  const MinPasswordLength := 6

  /**
    The checks of `handleUserSubmit`, in their order: the first failing
    check's message, or None when all pass.  The confirmation is not among
    the required fields; only its equality with the password is checked.
    The password's length is JavaScript's, in UTF-16 code units.
  */
  function ValidateUserForm(f: UserForm): (r: Option<string>)
    ensures r == Some(FieldsRequired) <==>
      f.displayName == "" || f.email == "" || f.password == "" || f.department == ""
    ensures r == Some(PasswordsDiffer) <==>
      f.displayName != "" && f.email != "" && f.password != "" && f.department != "" &&
      f.password != f.confirmPassword
    ensures r == Some(PasswordTooShort) <==>
      f.displayName != "" && f.email != "" && f.password != "" && f.department != "" &&
      f.password == f.confirmPassword && Utf16Length(f.password) < MinPasswordLength
    ensures r == None <==>
      f.displayName != "" && f.email != "" && f.department != "" &&
      f.password == f.confirmPassword && Utf16Length(f.password) >= MinPasswordLength
  {
    if f.displayName == "" || f.email == "" || f.password == "" || f.department == "" then Some(FieldsRequired)
    else if f.password != f.confirmPassword then Some(PasswordsDiffer)
    else if Utf16Length(f.password) < MinPasswordLength then Some(PasswordTooShort)
    else None
  }

  /** A password of exactly six code units passes; one of five does not. */
  lemma PasswordBoundary(f: UserForm)
    requires f.displayName != "" && f.email != "" && f.department != "" && f.password == f.confirmPassword
    ensures Utf16Length(f.password) == 6 ==> ValidateUserForm(f) == None
    ensures Utf16Length(f.password) == 5 ==> ValidateUserForm(f) == Some(PasswordTooShort)
  {
  }

  /**
    Three characters above U+FFFF make a password of length 6, which passes:
    an emoji counts twice.
  */
  lemma ThreeEmojiPasswordPasses(displayName: string, email: string, department: string)
    requires displayName != "" && email != "" && department != ""
    ensures var p := "\U{1F60A}\U{1F60A}\U{1F60A}";
      |p| == 3 && ValidateUserForm(UserForm(displayName, email, p, p, department)) == None
  {
    var p := "\U{1F60A}\U{1F60A}\U{1F60A}";
    assert forall i :: 0 <= i < |p| ==> IsAstral(p[i]);
  }

  /** How account creation ended: every step succeeded, or one threw an error with this code and message. */
  datatype Outcome = Created | Failed(code: string, message: string)

  /** The error shown for a failed creation: an address in use has its own text; otherwise the error's message, or a fallback when it is empty. */
  function FailureMessage(code: string, message: string): (r: string)
    ensures r != ""
    ensures code == "auth/email-already-in-use" ==> r == EmailInUse
    ensures code != "auth/email-already-in-use" ==> (r == message || (message == "" && r == CreateFailed))
  {
    if code == "auth/email-already-in-use" then EmailInUse
    else if message != "" then message
    else CreateFailed
  }

  class Signup {
    var activeStep: nat
    var organizationName: string
    var userForm: UserForm
    var error: Option<string>
    var success: Option<string>
    var loading: bool
    /** The route navigated to, once the account exists. */
    var navigatedTo: Option<string>

    constructor ()
      ensures activeStep == 0 && organizationName == "" && userForm == EmptyUserForm
      ensures error == None && success == None && !loading && navigatedTo == None
    {
      activeStep := 0;
      organizationName := "";
      userForm := EmptyUserForm;
      error := None;
      success := None;
      loading := false;
      navigatedTo := None;
    }

    method SetOrganizationName(name: string)
      modifies this
      ensures organizationName == name
      ensures activeStep == old(activeStep) && userForm == old(userForm) && error == old(error)
      ensures success == old(success) && loading == old(loading) && navigatedTo == old(navigatedTo)
    {
      organizationName := name;
    }

    method SetUserForm(f: UserForm)
      modifies this
      ensures userForm == f
      ensures activeStep == old(activeStep) && organizationName == old(organizationName) && error == old(error)
      ensures success == old(success) && loading == old(loading) && navigatedTo == old(navigatedTo)
    {
      userForm := f;
    }

    /**
      `handleOrganizationSubmit`: an empty name stays on step 0 with its
      error; otherwise the saved notice is shown and, when the delay has
      run, cleared as the wizard moves to step 1.
    */
    method HandleOrganizationSubmit()
      modifies this
      ensures organizationName == "" ==> error == Some(OrganizationRequired) && activeStep == old(activeStep) && success == old(success)
      ensures organizationName != "" ==> error == None && activeStep == 1 && success == None
      ensures organizationName == old(organizationName) && userForm == old(userForm)
      ensures loading == old(loading) && navigatedTo == old(navigatedTo)
    {
      error := None;
      if organizationName == "" {
        error := Some(OrganizationRequired);
        return;
      }
      success := Some(OrganizationSaved);
      // the delayed callback
      success := None;
      activeStep := 1;
    }

    /**
      `handleUserSubmit`: runs the checks in order and shows the first
      failure; only when all pass does account creation start (`started`),
      ending on the dashboard or with the mapped error, and never loading.
    */
    method HandleUserSubmit(outcome: Outcome) returns (started: bool)
      modifies this
      ensures started <==> ValidateUserForm(userForm) == None
      ensures !started ==> error == ValidateUserForm(userForm) && navigatedTo == old(navigatedTo) && loading == old(loading)
      ensures started && outcome == Created ==> error == None && navigatedTo == Some("/dashboard") && !loading
      ensures started && outcome.Failed? ==>
        error == Some(FailureMessage(outcome.code, outcome.message)) && navigatedTo == old(navigatedTo) && !loading
      ensures success == None
      ensures activeStep == old(activeStep) && organizationName == old(organizationName) && userForm == old(userForm)
    {
      error := None;
      success := None;
      var check := ValidateUserForm(userForm);
      if check.Some? {
        error := check;
        return false;
      }
      loading := true;
      match outcome {
        case Created =>
          navigatedTo := Some("/dashboard");
        case Failed(code, message) =>
          error := Some(FailureMessage(code, message));
      }
      loading := false;
      return true;
    }

    /** `handleBack`: back to step 0 with no error and no notice. */
    method HandleBack()
      modifies this
      ensures activeStep == 0 && error == None && success == None
      ensures organizationName == old(organizationName) && userForm == old(userForm)
      ensures loading == old(loading) && navigatedTo == old(navigatedTo)
    {
      activeStep := 0;
      error := None;
      success := None;
    }
  }
}
