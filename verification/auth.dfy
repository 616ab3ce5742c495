/**
 * The authentication screen's view model: an immutable `AuthState`, the
 * `AuthEvent`s the screen sends, and a pure reducer `Step` that applies one
 * event. The submit events run their input checks, hand a request to the
 * authentication service and apply its callback; the service's answer is an
 * input (`AuthReply`), so the whole submit-then-callback sequence is a
 * function.
 */
module Auth {
  import opened Wrappers
  import opened Text
  import opened EmailFormat

  // ---------------------------------------------------------------------------
  // State, events, messages
  // ---------------------------------------------------------------------------

  datatype AuthState = AuthState(
    loginEmail: string,
    loginPassword: string,
    registerEmail: string,
    registerConfirmPassword: string,
    registerPassword: string,
    loginPasswordVisibility: bool,
    registerPasswordVisibility: bool,
    registerConfirmPasswordVisibility: bool,
    isLoading: bool,
    error: Option<string>,
    loginSuccessful: bool,
    resetPasswordEmail: string,
    isBottomSheetOpen: bool,
    resetEmailMessage: Option<string>,
    isLoadingLogin: bool,
    isLoadingRegister: bool,
    isLoadingResetPassword: bool
  )

  /** The state the screen starts in: empty fields, every flag off, no messages. */
  function InitialState(): (s: AuthState)
    ensures forall f :: IsEmptyValue(Get(s, f))
  {
    AuthState("", "", "", "", "", false, false, false, false, None, false, "", false, None, false, false, false)
  }

  datatype AuthEvent =
    | OnLoginEmailChange(email: string)
    | OnLoginPasswordChange(password: string)
    | ToggleLoginPasswordVisibility
    | OnRegisterEmailChange(email: string)
    | OnRegisterPasswordChange(password: string)
    | OnRegisterConfirmPasswordChange(confirmPassword: string)
    | ToggleRegisterPasswordVisibility
    | ToggleRegisterConfirmPasswordVisibility
    | OnResetPasswordChange(email: string)
    | SubmitLogin
    | SubmitRegister
    | SubmitResetPassword
    | ToggleBottomSheet
    | OnError(message: string)
    | ClearError

  datatype ToastMessage =
    | EmailEmpty
    | PasswordEmpty
    | InvalidEmailFormat
    | PasswordTooShort
    | PasswordsDoNotMatch
    | AuthFailed(reason: string)
    | AccountCreated
    | LoginSuccess
    | ResetEmailSent
    | ResetFailed(reason: string)

  /** The text each message shows. */
  function Message(t: ToastMessage): string {
    match t
    case EmailEmpty => "Email cannot be empty"
    case PasswordEmpty => "Password cannot be empty"
    case InvalidEmailFormat => "Please enter a valid email address"
    case PasswordTooShort => "Password must be at least 6 characters"
    case PasswordsDoNotMatch => "Passwords do not match"
    case AuthFailed(reason) => "Authentication failed. " + reason
    case AccountCreated => "Account successfully created"
    case LoginSuccess => "Login successful"
    case ResetEmailSent => "Password reset email sent"
    case ResetFailed(reason) => "Failed to send reset email. " + reason
  }

  /** The length of each check message; the five lengths differ. */
  lemma CheckMessageLength(t: ToastMessage)
    requires t in RegisterChecks
    ensures |Message(t)| == match t
      case EmailEmpty => 21
      case PasswordEmpty => 24
      case InvalidEmailFormat => 34
      case PasswordTooShort => 38
      case _ => 22
  {
  }

  /** The five check messages are pairwise different, so the screen can tell which check failed. */
  lemma CheckMessagesDistinct(t: ToastMessage, u: ToastMessage)
    requires t in RegisterChecks && u in RegisterChecks
    ensures Message(t) == Message(u) <==> t == u
  {
    CheckMessageLength(t);
    CheckMessageLength(u);
  }

  /** A failure message carries its reason after a fixed prefix, so different reasons give different texts. */
  lemma FailureReasonRecoverable(t: ToastMessage)
    requires t.AuthFailed? || t.ResetFailed?
    ensures var prefix := if t.AuthFailed? then "Authentication failed. " else "Failed to send reset email. ";
      Message(t) == prefix + t.reason && Message(t)[|prefix|..] == t.reason
  {
  }

  // ---------------------------------------------------------------------------
  // Field-wise view of the state, for "nothing else changes"
  // ---------------------------------------------------------------------------

  datatype Field =
    | LoginEmail | LoginPassword | RegisterEmail | RegisterConfirmPassword | RegisterPassword
    | LoginPasswordVisibility | RegisterPasswordVisibility | RegisterConfirmPasswordVisibility
    | IsLoading | Error | LoginSuccessful | ResetPasswordEmail | IsBottomSheetOpen
    | ResetEmailMessage | IsLoadingLogin | IsLoadingRegister | IsLoadingResetPassword

  datatype Value = TextValue(text: string) | FlagValue(flag: bool) | NoteValue(note: Option<string>)

  /** The `AuthState()` default of a field: "", false or null. */
  predicate IsEmptyValue(v: Value) {
    match v
    case TextValue(t) => t == ""
    case FlagValue(b) => !b
    case NoteValue(n) => n.None?
  }

  /** The value of one field of the state. */
  function Get(s: AuthState, f: Field): Value {
    match f
    case LoginEmail => TextValue(s.loginEmail)
    case LoginPassword => TextValue(s.loginPassword)
    case RegisterEmail => TextValue(s.registerEmail)
    case RegisterConfirmPassword => TextValue(s.registerConfirmPassword)
    case RegisterPassword => TextValue(s.registerPassword)
    case LoginPasswordVisibility => FlagValue(s.loginPasswordVisibility)
    case RegisterPasswordVisibility => FlagValue(s.registerPasswordVisibility)
    case RegisterConfirmPasswordVisibility => FlagValue(s.registerConfirmPasswordVisibility)
    case IsLoading => FlagValue(s.isLoading)
    case Error => NoteValue(s.error)
    case LoginSuccessful => FlagValue(s.loginSuccessful)
    case ResetPasswordEmail => TextValue(s.resetPasswordEmail)
    case IsBottomSheetOpen => FlagValue(s.isBottomSheetOpen)
    case ResetEmailMessage => NoteValue(s.resetEmailMessage)
    case IsLoadingLogin => FlagValue(s.isLoadingLogin)
    case IsLoadingRegister => FlagValue(s.isLoadingRegister)
    case IsLoadingResetPassword => FlagValue(s.isLoadingResetPassword)
  }

  /** Field by field: every record field other than the one `f` names is equal in `s` and `t`. */
  predicate AgreeOutside(s: AuthState, t: AuthState, f: Field) {
    && (f == LoginEmail || t.loginEmail == s.loginEmail)
    && (f == LoginPassword || t.loginPassword == s.loginPassword)
    && (f == RegisterEmail || t.registerEmail == s.registerEmail)
    && (f == RegisterConfirmPassword || t.registerConfirmPassword == s.registerConfirmPassword)
    && (f == RegisterPassword || t.registerPassword == s.registerPassword)
    && (f == LoginPasswordVisibility || t.loginPasswordVisibility == s.loginPasswordVisibility)
    && (f == RegisterPasswordVisibility || t.registerPasswordVisibility == s.registerPasswordVisibility)
    && (f == RegisterConfirmPasswordVisibility || t.registerConfirmPasswordVisibility == s.registerConfirmPasswordVisibility)
    && (f == IsLoading || t.isLoading == s.isLoading)
    && (f == Error || t.error == s.error)
    && (f == LoginSuccessful || t.loginSuccessful == s.loginSuccessful)
    && (f == ResetPasswordEmail || t.resetPasswordEmail == s.resetPasswordEmail)
    && (f == IsBottomSheetOpen || t.isBottomSheetOpen == s.isBottomSheetOpen)
    && (f == ResetEmailMessage || t.resetEmailMessage == s.resetEmailMessage)
    && (f == IsLoadingLogin || t.isLoadingLogin == s.isLoadingLogin)
    && (f == IsLoadingRegister || t.isLoadingRegister == s.isLoadingRegister)
    && (f == IsLoadingResetPassword || t.isLoadingResetPassword == s.isLoadingResetPassword)
  }

  /** A text field outside `f` is equal in two states that agree outside `f`. */
  lemma AgreeOnText(s: AuthState, t: AuthState, f: Field, g: Field)
    requires AgreeOutside(s, t, f) && g != f && Get(s, g).TextValue?
    ensures Get(t, g) == Get(s, g)
  {
  }

  /** A flag outside `f` is equal in two states that agree outside `f`. */
  lemma AgreeOnFlag(s: AuthState, t: AuthState, f: Field, g: Field)
    requires AgreeOutside(s, t, f) && g != f && Get(s, g).FlagValue?
    ensures Get(t, g) == Get(s, g)
  {
  }

  /** A nullable message outside `f` is equal in two states that agree outside `f`. */
  lemma AgreeOnNote(s: AuthState, t: AuthState, f: Field, g: Field)
    requires AgreeOutside(s, t, f) && g != f && Get(s, g).NoteValue?
    ensures Get(t, g) == Get(s, g)
  {
  }

  /** Agreeing record field by record field outside `f` is agreeing on every `Get` outside `f`. */
  lemma AgreeOutsideFrame(s: AuthState, t: AuthState, f: Field)
    requires AgreeOutside(s, t, f)
    ensures forall g :: g != f ==> Get(t, g) == Get(s, g)
  {
    forall g | g != f
      ensures Get(t, g) == Get(s, g)
    {
      match Get(s, g)
      case TextValue(_) => AgreeOnText(s, t, f, g);
      case FlagValue(_) => AgreeOnFlag(s, t, f, g);
      case NoteValue(_) => AgreeOnNote(s, t, f, g);
    }
  }

  /** States equal on every field have the same texts. */
  lemma SameTexts(s: AuthState, t: AuthState)
    requires forall g :: Get(s, g) == Get(t, g)
    ensures s.loginEmail == t.loginEmail
    ensures s.loginPassword == t.loginPassword
    ensures s.registerEmail == t.registerEmail
    ensures s.registerConfirmPassword == t.registerConfirmPassword
    ensures s.registerPassword == t.registerPassword
    ensures s.resetPasswordEmail == t.resetPasswordEmail
  {
    assert Get(s, LoginEmail) == Get(t, LoginEmail);
    assert Get(s, LoginPassword) == Get(t, LoginPassword);
    assert Get(s, RegisterEmail) == Get(t, RegisterEmail);
    assert Get(s, RegisterConfirmPassword) == Get(t, RegisterConfirmPassword);
    assert Get(s, RegisterPassword) == Get(t, RegisterPassword);
    assert Get(s, ResetPasswordEmail) == Get(t, ResetPasswordEmail);
  }

  /** States equal on every field have the same flags. */
  lemma SameFlags(s: AuthState, t: AuthState)
    requires forall g :: Get(s, g) == Get(t, g)
    ensures s.loginPasswordVisibility == t.loginPasswordVisibility
    ensures s.registerPasswordVisibility == t.registerPasswordVisibility
    ensures s.registerConfirmPasswordVisibility == t.registerConfirmPasswordVisibility
    ensures s.isLoading == t.isLoading
    ensures s.loginSuccessful == t.loginSuccessful
    ensures s.isBottomSheetOpen == t.isBottomSheetOpen
    ensures s.isLoadingLogin == t.isLoadingLogin
    ensures s.isLoadingRegister == t.isLoadingRegister
    ensures s.isLoadingResetPassword == t.isLoadingResetPassword
  {
    assert Get(s, LoginPasswordVisibility) == Get(t, LoginPasswordVisibility);
    assert Get(s, RegisterPasswordVisibility) == Get(t, RegisterPasswordVisibility);
    assert Get(s, RegisterConfirmPasswordVisibility) == Get(t, RegisterConfirmPasswordVisibility);
    assert Get(s, IsLoading) == Get(t, IsLoading);
    assert Get(s, LoginSuccessful) == Get(t, LoginSuccessful);
    assert Get(s, IsBottomSheetOpen) == Get(t, IsBottomSheetOpen);
    assert Get(s, IsLoadingLogin) == Get(t, IsLoadingLogin);
    assert Get(s, IsLoadingRegister) == Get(t, IsLoadingRegister);
    assert Get(s, IsLoadingResetPassword) == Get(t, IsLoadingResetPassword);
  }

  /** States equal on every field have the same messages. */
  lemma SameNotes(s: AuthState, t: AuthState)
    requires forall g :: Get(s, g) == Get(t, g)
    ensures s.error == t.error
    ensures s.resetEmailMessage == t.resetEmailMessage
  {
    assert Get(s, Error) == Get(t, Error);
    assert Get(s, ResetEmailMessage) == Get(t, ResetEmailMessage);
  }

  /** The fields cover the whole state: two states that agree on every field are equal. */
  lemma FieldsDetermineState(s: AuthState, t: AuthState)
    requires forall g :: Get(s, g) == Get(t, g)
    ensures s == t
  {
    SameTexts(s, t);
    SameFlags(s, t);
    SameNotes(s, t);
  }

  // ---------------------------------------------------------------------------
  // Register validation
  // ---------------------------------------------------------------------------

  /** The order in which the register form's checks are reported. */
  const RegisterChecks: seq<ToastMessage> :=
    [EmailEmpty, PasswordEmpty, InvalidEmailFormat, PasswordTooShort, PasswordsDoNotMatch]

  /** Whether the check that reports `t` fails on these inputs. */
  predicate Fails(t: ToastMessage, email: string, password: string, confirm: string) {
    match t
    case EmailEmpty => IsBlank(email)
    case PasswordEmpty => IsBlank(password)
    case InvalidEmailFormat => !MatchesEmail(email)
    case PasswordTooShort => |password| < 6
    case PasswordsDoNotMatch => password != confirm
    case _ => false
  }

  /**
   * `validate`: the message of the first failing check in `RegisterChecks`,
   * or None when every check passes.
   */
  function Validate(email: string, password: string, confirm: string): (r: Option<ToastMessage>)
    ensures r.None? <==> forall k :: 0 <= k < |RegisterChecks| ==> !Fails(RegisterChecks[k], email, password, confirm)
    ensures r.Some? ==>
      exists k :: 0 <= k < |RegisterChecks| && r.value == RegisterChecks[k]
        && Fails(RegisterChecks[k], email, password, confirm)
        && forall j :: 0 <= j < k ==> !Fails(RegisterChecks[j], email, password, confirm)
  {
    var fails := k requires 0 <= k < |RegisterChecks| => Fails(RegisterChecks[k], email, password, confirm);
    if IsBlank(email) then
      assert fails(0);
      Some(EmailEmpty)
    else if IsBlank(password) then
      assert !fails(0) && fails(1);
      Some(PasswordEmpty)
    else if !MatchesEmail(email) then
      assert !fails(0) && !fails(1) && fails(2);
      Some(InvalidEmailFormat)
    else if |password| < 6 then
      assert !fails(0) && !fails(1) && !fails(2) && fails(3);
      Some(PasswordTooShort)
    else if password != confirm then
      assert !fails(0) && !fails(1) && !fails(2) && !fails(3) && fails(4);
      Some(PasswordsDoNotMatch)
    else
      None
  }

  /**
   * The register form is accepted exactly when the e-mail matches the pattern,
   * the password is non-blank with at least six characters, and the
   * confirmation equals the password.
   */
  lemma ValidateAcceptsIff(email: string, password: string, confirm: string)
    ensures Validate(email, password, confirm).None? <==>
      (MatchesEmail(email) && !IsBlank(password) && |password| >= 6 && password == confirm)
  {
    if MatchesEmail(email) {
      MatchImpliesNotBlank(email);
    }
  }

  // ---------------------------------------------------------------------------
  // Submits and callbacks
  // ---------------------------------------------------------------------------

  /** What the authentication service reports to a callback: `(success, error: String?)`. */
  datatype AuthReply = AuthReply(success: bool, error: Option<string>)

  /** Kotlin's `toString()` on a `String?`: the text, or "null". */
  function ErrorText(e: Option<string>): (r: string)
    ensures e.Some? ==> r == e.value
    ensures e.None? ==> r == "null"
  {
    e.GetOr("null")
  }

  /** The call a submit makes on the authentication service. */
  datatype AuthRequest =
    | SignIn(email: string, password: string)
    | CreateAccount(email: string, password: string)
    | SendResetEmail(email: string)

  /** The outcome of a submit's input checks. */
  datatype Submission =
    | Rejected(state: AuthState, toast: Option<ToastMessage>)
    | Started(state: AuthState, request: AuthRequest)

  /** The result of one event: the new state and the message emitted to the screen, if any. */
  datatype Reaction = Reaction(state: AuthState, toast: Option<ToastMessage>)

  /** `submitLogin` up to the service call: the pattern check first, then the password. */
  function StartLogin(s: AuthState): (r: Submission)
    ensures r.Started? <==> MatchesEmail(s.loginEmail) && |s.loginPassword| > 0
    ensures !MatchesEmail(s.loginEmail) ==> r == Rejected(s, Some(InvalidEmailFormat))
    ensures MatchesEmail(s.loginEmail) && |s.loginPassword| == 0 ==> r == Rejected(s, Some(PasswordEmpty))
    ensures r.Started? ==>
      && r.request == SignIn(s.loginEmail, s.loginPassword)
      && r.state == s.(isLoadingLogin := r.state.isLoadingLogin)
      && r.state.isLoadingLogin != s.isLoadingLogin
  {
    if !MatchesEmail(s.loginEmail) then Rejected(s, Some(InvalidEmailFormat))
    else if |s.loginPassword| == 0 then Rejected(s, Some(PasswordEmpty))
    else Started(s.(isLoadingLogin := !s.isLoadingLogin), SignIn(s.loginEmail, s.loginPassword))
  }

  /** `submitRegister` up to the service call. */
  function StartRegister(s: AuthState): (r: Submission)
    ensures r.Started? <==> Validate(s.registerEmail, s.registerPassword, s.registerConfirmPassword).None?
    ensures r.Rejected? ==>
      && r.state == s
      && r.toast == Validate(s.registerEmail, s.registerPassword, s.registerConfirmPassword)
    ensures r.Started? ==>
      && r.request == CreateAccount(s.registerEmail, s.registerPassword)
      && r.state == s.(isLoadingRegister := r.state.isLoadingRegister)
      && r.state.isLoadingRegister != s.isLoadingRegister
  {
    match Validate(s.registerEmail, s.registerPassword, s.registerConfirmPassword)
    case Some(t) => Rejected(s, Some(t))
    case None => Started(s.(isLoadingRegister := !s.isLoadingRegister), CreateAccount(s.registerEmail, s.registerPassword))
  }

  /** `submitResetPassword` up to the service call; its messages go into `resetEmailMessage`, not to the screen's toast. */
  function StartResetPassword(s: AuthState): (r: Submission)
    ensures r.Started? <==> MatchesEmail(s.resetPasswordEmail)
    ensures r.Rejected? ==> r.toast.None? && r.state == s.(resetEmailMessage := r.state.resetEmailMessage)
    ensures r.Started? ==>
      && r.request == SendResetEmail(s.resetPasswordEmail)
      && r.state == s.(isLoadingResetPassword := r.state.isLoadingResetPassword)
      && r.state.isLoadingResetPassword != s.isLoadingResetPassword
  {
    if IsBlank(s.resetPasswordEmail) then
      Rejected(s.(resetEmailMessage := Some(Message(EmailEmpty))), None)
    else if !MatchesEmail(s.resetPasswordEmail) then
      Rejected(s.(resetEmailMessage := Some(Message(InvalidEmailFormat))), None)
    else
      MatchImpliesNotBlank(s.resetPasswordEmail);
      Started(s.(isLoadingResetPassword := !s.isLoadingResetPassword), SendResetEmail(s.resetPasswordEmail))
  }

  /**
   * The part shared by the sign-in and account-creation callbacks: loading
   * is switched off, and either the login is marked successful or the
   * failure is reported with the service's reason.
   */
  function Answer(s: AuthState, reply: AuthReply): (r: Reaction)
    ensures !r.state.isLoading
    ensures reply.success ==> r.state.loginSuccessful && r.toast.None?
    ensures !reply.success ==>
      && r.state.loginSuccessful == s.loginSuccessful
      && r.toast == Some(AuthFailed(ErrorText(reply.error)))
    ensures r.state == s.(isLoading := false, loginSuccessful := r.state.loginSuccessful)
  {
    var cleared := s.(isLoading := false);
    if reply.success then Reaction(cleared.(loginSuccessful := true), None)
    else Reaction(cleared, Some(AuthFailed(ErrorText(reply.error))))
  }

  /** The sign-in callback: the answer, then the login spinner toggled back. */
  function OnSignInReply(s: AuthState, reply: AuthReply): (r: Reaction)
    ensures r.state.isLoadingLogin != s.isLoadingLogin
    ensures r.toast == Answer(s, reply).toast
    ensures r.state == Answer(s, reply).state.(isLoadingLogin := r.state.isLoadingLogin)
  {
    var answered := Answer(s, reply);
    Reaction(answered.state.(isLoadingLogin := !answered.state.isLoadingLogin), answered.toast)
  }

  /** The account-creation callback: the answer, then the register spinner toggled back. */
  function OnCreateAccountReply(s: AuthState, reply: AuthReply): (r: Reaction)
    ensures r.state.isLoadingRegister != s.isLoadingRegister
    ensures r.toast == Answer(s, reply).toast
    ensures r.state == Answer(s, reply).state.(isLoadingRegister := r.state.isLoadingRegister)
  {
    var answered := Answer(s, reply);
    Reaction(answered.state.(isLoadingRegister := !answered.state.isLoadingRegister), answered.toast)
  }

  /** The reset-password callback. */
  function OnResetReply(s: AuthState, reply: AuthReply): (r: AuthState)
    ensures reply.success ==> r.resetEmailMessage == Some("Password reset email sent")
    ensures !reply.success ==>
      r.resetEmailMessage == Some("Failed to send reset email. " + ErrorText(reply.error))
    ensures r.isLoadingResetPassword != s.isLoadingResetPassword
    ensures r == s.(resetEmailMessage := r.resetEmailMessage, isLoadingResetPassword := r.isLoadingResetPassword)
  {
    var text := if reply.success then Message(ResetEmailSent) else Message(ResetFailed(ErrorText(reply.error)));
    var answered := s.(resetEmailMessage := Some(text));
    answered.(isLoadingResetPassword := !answered.isLoadingResetPassword)
  }

  /** Runs the callback for a request the submit started. */
  function Complete(s: AuthState, request: AuthRequest, reply: AuthReply): Reaction {
    match request
    case SignIn(_, _) => OnSignInReply(s, reply)
    case CreateAccount(_, _) => OnCreateAccountReply(s, reply)
    case SendResetEmail(_) => Reaction(OnResetReply(s, reply), None)
  }

  /** A submit followed, when it reaches the service, by that call's callback. */
  function Submit(sub: Submission, reply: AuthReply): Reaction {
    match sub
    case Rejected(st, toast) => Reaction(st, toast)
    case Started(st, request) => Complete(st, request, reply)
  }

  // ---------------------------------------------------------------------------
  // The reducer
  // ---------------------------------------------------------------------------

  /** The events that call the authentication service. */
  predicate IsSubmit(e: AuthEvent) {
    e.SubmitLogin? || e.SubmitRegister? || e.SubmitResetPassword?
  }

  /**
   * `onEvent`: applies one event. `reply` is what the authentication service
   * answers if the event is a submit that reaches it; other events ignore it.
   */
  function Step(s: AuthState, e: AuthEvent, reply: AuthReply): Reaction {
    match e
    case SubmitLogin => Submit(StartLogin(s), reply)
    case SubmitRegister => Submit(StartRegister(s), reply)
    case SubmitResetPassword => Submit(StartResetPassword(s), reply)
    case _ => Reaction(Apply(s, e), None)
  }

  /** The handlers of the events that only edit the state: field changes, toggles and the error. */
  function Apply(s: AuthState, e: AuthEvent): AuthState
    requires !IsSubmit(e)
  {
    match e
    case OnLoginEmailChange(v) => s.(loginEmail := v)
    case OnLoginPasswordChange(v) => s.(loginPassword := v)
    case OnRegisterEmailChange(v) => s.(registerEmail := v)
    case OnRegisterPasswordChange(v) => s.(registerPassword := v)
    case OnRegisterConfirmPasswordChange(v) => s.(registerConfirmPassword := v)
    case OnResetPasswordChange(v) => s.(resetPasswordEmail := v)
    case ToggleLoginPasswordVisibility => s.(loginPasswordVisibility := !s.loginPasswordVisibility)
    case ToggleRegisterPasswordVisibility => s.(registerPasswordVisibility := !s.registerPasswordVisibility)
    case ToggleRegisterConfirmPasswordVisibility =>
      s.(registerConfirmPasswordVisibility := !s.registerConfirmPasswordVisibility)
    case ToggleBottomSheet => s.(isBottomSheetOpen := !s.isBottomSheetOpen)
    case OnError(m) => s.(error := Some(m))
    case ClearError => s.(error := None)
  }

  // ---------------------------------------------------------------------------
  // Properties of the reducer
  // ---------------------------------------------------------------------------

  /** The one field an editing, toggling or error event acts on; None for the submits. */
  function Target(e: AuthEvent): (r: Option<Field>)
    ensures r.None? <==> IsSubmit(e)
  {
    match e
    case OnLoginEmailChange(_) => Some(LoginEmail)
    case OnLoginPasswordChange(_) => Some(LoginPassword)
    case ToggleLoginPasswordVisibility => Some(LoginPasswordVisibility)
    case OnRegisterEmailChange(_) => Some(RegisterEmail)
    case OnRegisterPasswordChange(_) => Some(RegisterPassword)
    case OnRegisterConfirmPasswordChange(_) => Some(RegisterConfirmPassword)
    case ToggleRegisterPasswordVisibility => Some(RegisterPasswordVisibility)
    case ToggleRegisterConfirmPasswordVisibility => Some(RegisterConfirmPasswordVisibility)
    case OnResetPasswordChange(_) => Some(ResetPasswordEmail)
    case ToggleBottomSheet => Some(IsBottomSheetOpen)
    case OnError(_) => Some(Error)
    case ClearError => Some(Error)
    case _ => None
  }

  /** The text an editing event carries; None for the other events. */
  function EditedText(e: AuthEvent): Option<string> {
    match e
    case OnLoginEmailChange(v) => Some(v)
    case OnLoginPasswordChange(v) => Some(v)
    case OnRegisterEmailChange(v) => Some(v)
    case OnRegisterPasswordChange(v) => Some(v)
    case OnRegisterConfirmPasswordChange(v) => Some(v)
    case OnResetPasswordChange(v) => Some(v)
    case _ => None
  }

  predicate IsToggle(e: AuthEvent) {
    e.ToggleLoginPasswordVisibility? || e.ToggleRegisterPasswordVisibility?
    || e.ToggleRegisterConfirmPasswordVisibility? || e.ToggleBottomSheet?
  }

  /** An editing event stores its text in its field and emits nothing. */
  lemma EditSetsField(s: AuthState, e: AuthEvent, reply: AuthReply)
    requires EditedText(e).Some?
    ensures Target(e).Some?
    ensures Step(s, e, reply).toast.None?
    ensures Get(Step(s, e, reply).state, Target(e).value) == TextValue(EditedText(e).value)
  {
  }

  /** An event that does not call the service is handled by `Apply` alone and emits nothing. */
  lemma LocalStep(s: AuthState, e: AuthEvent, reply: AuthReply)
    requires !IsSubmit(e)
    ensures Step(s, e, reply) == Reaction(Apply(s, e), None)
  {
  }

  /** An edit of the login form keeps every record field but the one edited. */
  lemma LoginFormEdit(s: AuthState, e: AuthEvent)
    requires e.OnLoginEmailChange? || e.OnLoginPasswordChange?
    ensures !IsSubmit(e) && Target(e).Some?
    ensures AgreeOutside(s, Apply(s, e), Target(e).value)
  {
  }

  /** An edit of the registration form keeps every record field but the one edited. */
  lemma RegisterFormEdit(s: AuthState, e: AuthEvent)
    requires e.OnRegisterEmailChange? || e.OnRegisterPasswordChange? || e.OnRegisterConfirmPasswordChange?
    ensures !IsSubmit(e) && Target(e).Some?
    ensures AgreeOutside(s, Apply(s, e), Target(e).value)
  {
  }

  /** An edit of the reset e-mail keeps every other record field. */
  lemma ResetFormEdit(s: AuthState, e: AuthEvent)
    requires e.OnResetPasswordChange?
    ensures !IsSubmit(e) && Target(e).Some?
    ensures AgreeOutside(s, Apply(s, e), Target(e).value)
  {
  }

  /** An editing event keeps every record field but its own. */
  lemma EditAgreesOutside(s: AuthState, e: AuthEvent)
    requires EditedText(e).Some?
    ensures Target(e).Some? && !IsSubmit(e)
    ensures AgreeOutside(s, Apply(s, e), Target(e).value)
  {
    if e.OnLoginEmailChange? || e.OnLoginPasswordChange? {
      LoginFormEdit(s, e);
    } else if e.OnResetPasswordChange? {
      ResetFormEdit(s, e);
    } else {
      RegisterFormEdit(s, e);
    }
  }

  /** A toggle keeps every record field but its flag. */
  lemma ToggleAgreesOutside(s: AuthState, e: AuthEvent)
    requires IsToggle(e)
    ensures Target(e).Some? && !IsSubmit(e)
    ensures AgreeOutside(s, Apply(s, e), Target(e).value)
  {
  }

  /** An editing event leaves every field but its own alone. */
  lemma EditFrame(s: AuthState, e: AuthEvent, reply: AuthReply)
    requires EditedText(e).Some?
    ensures Target(e).Some?
    ensures forall g :: g != Target(e).value ==> Get(Step(s, e, reply).state, g) == Get(s, g)
  {
    EditAgreesOutside(s, e);
    LocalStep(s, e, reply);
    AgreeOutsideFrame(s, Apply(s, e), Target(e).value);
  }

  /** A toggle flips its one flag and emits nothing. */
  lemma ToggleFlips(s: AuthState, e: AuthEvent, reply: AuthReply)
    requires IsToggle(e)
    ensures Target(e).Some?
    ensures Step(s, e, reply).toast.None?
    ensures Get(Step(s, e, reply).state, Target(e).value) == FlagValue(!Get(s, Target(e).value).flag)
  {
  }

  /** A toggle leaves every field but its own flag alone. */
  lemma ToggleFrame(s: AuthState, e: AuthEvent, reply: AuthReply)
    requires IsToggle(e)
    ensures Target(e).Some?
    ensures forall g :: g != Target(e).value ==> Get(Step(s, e, reply).state, g) == Get(s, g)
  {
    ToggleAgreesOutside(s, e);
    LocalStep(s, e, reply);
    AgreeOutsideFrame(s, Apply(s, e), Target(e).value);
  }

  /** Applying the same toggle twice gives back the original state. */
  lemma ToggleTwiceRestores(s: AuthState, e: AuthEvent, reply: AuthReply)
    requires IsToggle(e)
    ensures Step(Step(s, e, reply).state, e, reply).state == s
  {
    match e
    case ToggleLoginPasswordVisibility =>
    case ToggleRegisterPasswordVisibility =>
    case ToggleRegisterConfirmPasswordVisibility =>
    case ToggleBottomSheet =>
  }

  /** `OnError(m)` records `m` and `ClearError` removes the error; neither emits anything or touches another field. */
  lemma ErrorEvents(s: AuthState, e: AuthEvent, reply: AuthReply)
    requires e.OnError? || e.ClearError?
    ensures Target(e) == Some(Error)
    ensures Step(s, e, reply).toast.None?
    ensures Step(s, e, reply).state.error == if e.OnError? then Some(e.message) else None
    ensures forall g :: g != Error ==> Get(Step(s, e, reply).state, g) == Get(s, g)
  {
    LocalStep(s, e, reply);
    AgreeOutsideFrame(s, Apply(s, e), Error);
  }

  /** The login checks: the pattern first (so an empty e-mail is a format error), then the password. */
  lemma LoginRejections(s: AuthState, reply: AuthReply)
    ensures !MatchesEmail(s.loginEmail) ==> Step(s, SubmitLogin, reply) == Reaction(s, Some(InvalidEmailFormat))
    ensures MatchesEmail(s.loginEmail) && s.loginPassword == "" ==>
      Step(s, SubmitLogin, reply) == Reaction(s, Some(PasswordEmpty))
    ensures s.loginEmail == "" ==> Step(s, SubmitLogin, reply).toast == Some(InvalidEmailFormat)
  {
  }

  /**
   * A login that reaches the service ends with loading off and every other
   * field, the login spinner included, back at its value before the submit;
   * only `loginSuccessful` may have changed.
   */
  lemma LoginCompletes(s: AuthState, reply: AuthReply)
    requires MatchesEmail(s.loginEmail) && s.loginPassword != ""
    ensures var r := Step(s, SubmitLogin, reply);
      r.state == s.(isLoading := false, loginSuccessful := r.state.loginSuccessful)
  {
  }

  /** The login succeeded exactly when the service said so; a failure keeps an earlier success and reports the reason. */
  lemma LoginOutcome(s: AuthState, reply: AuthReply)
    requires MatchesEmail(s.loginEmail) && s.loginPassword != ""
    ensures var r := Step(s, SubmitLogin, reply);
      && r.state.loginSuccessful == (reply.success || s.loginSuccessful)
      && (reply.success ==> r.toast.None?)
      && (!reply.success ==> r.toast == Some(AuthFailed(ErrorText(reply.error))))
  {
  }

  /** A rejected registration leaves the state as it was and reports the first failing check. */
  lemma RegisterRejected(s: AuthState, reply: AuthReply)
    requires Validate(s.registerEmail, s.registerPassword, s.registerConfirmPassword).Some?
    ensures Step(s, SubmitRegister, reply)
      == Reaction(s, Validate(s.registerEmail, s.registerPassword, s.registerConfirmPassword))
  {
  }

  /** A registration that reaches the service ends like a login, with the register spinner restored. */
  lemma RegisterCompletes(s: AuthState, reply: AuthReply)
    requires Validate(s.registerEmail, s.registerPassword, s.registerConfirmPassword).None?
    ensures var r := Step(s, SubmitRegister, reply);
      r.state == s.(isLoading := false, loginSuccessful := r.state.loginSuccessful)
  {
  }

  /** The account was created exactly when the service said so; a failure reports the reason. */
  lemma RegisterOutcome(s: AuthState, reply: AuthReply)
    requires Validate(s.registerEmail, s.registerPassword, s.registerConfirmPassword).None?
    ensures var r := Step(s, SubmitRegister, reply);
      && r.state.loginSuccessful == (reply.success || s.loginSuccessful)
      && (reply.success ==> r.toast.None?)
      && (!reply.success ==> r.toast == Some(AuthFailed(ErrorText(reply.error))))
  {
  }

  /** Reset password with a blank address: the message says so, nothing else changes, the service is not called. */
  lemma ResetBlankEmail(s: AuthState, reply: AuthReply)
    requires IsBlank(s.resetPasswordEmail)
    ensures Step(s, SubmitResetPassword, reply) == Reaction(s.(resetEmailMessage := Some("Email cannot be empty")), None)
  {
  }

  /** Reset password with a non-blank malformed address: the message says so, nothing else changes. */
  lemma ResetMalformedEmail(s: AuthState, reply: AuthReply)
    requires !IsBlank(s.resetPasswordEmail) && !MatchesEmail(s.resetPasswordEmail)
    ensures Step(s, SubmitResetPassword, reply)
      == Reaction(s.(resetEmailMessage := Some("Please enter a valid email address")), None)
  {
  }

  /**
   * Reset password with a well-formed address: the message says whether the
   * e-mail went out, and the spinner ends where it started.
   */
  lemma ResetSent(s: AuthState, reply: AuthReply)
    requires MatchesEmail(s.resetPasswordEmail)
    ensures var r := Step(s, SubmitResetPassword, reply);
      && r.toast.None?
      && r.state == s.(resetEmailMessage := r.state.resetEmailMessage)
      && r.state.resetEmailMessage ==
        if reply.success then Some("Password reset email sent")
        else Some("Failed to send reset email. " + ErrorText(reply.error))
  {
    var started := s.(isLoadingResetPassword := !s.isLoadingResetPassword);
    assert StartResetPassword(s) == Started(started, SendResetEmail(s.resetPasswordEmail));
    assert Step(s, SubmitResetPassword, reply) == Reaction(OnResetReply(started, reply), None);
  }
}
