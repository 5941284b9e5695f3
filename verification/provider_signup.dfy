/** The provider sign-up form: its validation chain, the registration
    request it sends to the sign-in store, and how it handles the outcome. */
module ProviderSignup {
  import opened Types
  import opened Text
  import AuthStore

  datatype SignupForm = SignupForm(
    name: string,
    email: string,
    password: string,
    confirmPassword: string,
    businessName: string,
    description: string,
    phone: string,
    address: string)

  /** The form's state: the error banner, the loading flag, and where the
      router was sent, if anywhere. */
  datatype SignupState = SignupState(error: string, loading: bool, navigatedTo: Option<string>)

  const MinPasswordLength := 6
  const MsgMismatch := "Passwords do not match"
  const MsgShortPassword := "Password must be at least 6 characters long"
  const MsgNoBusiness := "Business name is required"
  const MsgUnexpected := "An unexpected error occurred"

  /** The first failing check: mismatched passwords, then a short password,
      then a blank business name. */
  function Validate(f: SignupForm): (r: Option<string>)
    ensures f.password != f.confirmPassword ==> r == Some(MsgMismatch)
    ensures f.password == f.confirmPassword && |f.password| < MinPasswordLength ==> r == Some(MsgShortPassword)
    ensures f.password == f.confirmPassword && |f.password| >= MinPasswordLength ==>
      (r == Some(MsgNoBusiness) <==> IsBlank(f.businessName))
    ensures r.None? <==>
      f.password == f.confirmPassword && |f.password| >= MinPasswordLength && !IsBlank(f.businessName)
  {
    TrimEmptyIffBlank(f.businessName);
    if f.password != f.confirmPassword then Some(MsgMismatch)
    else if |f.password| < MinPasswordLength then Some(MsgShortPassword)
    else if Trim(f.businessName) == "" then Some(MsgNoBusiness)
    else None
  }

  /** The arguments of the store's `register` call. */
  datatype RegisterCall = RegisterCall(
    email: string, password: string, name: string, role: UserRole,
    businessName: string, phone: string, address: string, description: string)

  /** The display name: the person's name with the business in brackets. */
  function DisplayName(f: SignupForm): (s: string)
    ensures |s| == |f.name| + |f.businessName| + 3
    ensures s[..|f.name|] == f.name && s[|f.name|..|f.name| + 2] == " ("
    ensures s[|f.name| + 2..|s| - 1] == f.businessName && s[|s| - 1] == ')'
  {
    f.name + " (" + f.businessName + ")"
  }

  /** The request sent once the form is valid: a provider account named by
      `DisplayName`, with the rest of the fields passed through as typed. */
  function Request(f: SignupForm): (c: RegisterCall)
    ensures c.role == ServiceProvider && c.name == DisplayName(f)
    ensures c.email == f.email && c.password == f.password && c.businessName == f.businessName
  {
    RegisterCall(f.email, f.password, DisplayName(f), ServiceProvider,
                 f.businessName, f.phone, f.address, f.description)
  }

  /** `handleSubmit`. A failed check sets its error and returns before
      loading is touched or anything is sent. Otherwise the outcome of the
      call decides: success navigates home, failure shows the returned
      message, an exception shows a generic error; loading ends false. */
  function HandleSubmit(st: SignupState, f: SignupForm, outcome: Settled<Reply>): (r: SignupState)
    ensures Validate(f).Some? ==> r == st.(error := Validate(f).value)
    ensures Validate(f).None? ==> !r.loading
    ensures Validate(f).None? && outcome.Resolved? && outcome.value.success ==>
      r.navigatedTo == Some("/") && r.error == ""
    ensures Validate(f).None? && outcome.Resolved? && !outcome.value.success ==>
      r.error == outcome.value.message && r.navigatedTo == st.navigatedTo
    ensures Validate(f).None? && outcome.Threw? ==> r.error == MsgUnexpected
  {
    match Validate(f)
    case Some(msg) => st.(error := msg)
    case None =>
      match outcome
      case Resolved(reply) =>
        if reply.success then SignupState("", false, Some("/"))
        else SignupState(reply.message, false, st.navigatedTo)
      case Threw => SignupState(MsgUnexpected, false, st.navigatedTo)
  }

  /** The submission wired to the sign-in store. The store catches every
      exception itself and always resolves, so a failure shows the store's
      message rather than the form's own exception text, and a successful
      signup leaves the provider signed in with the email and business name
      they typed. */
  lemma SubmitThroughStore(st: SignupState, f: SignupForm, store: AuthStore.StoreState,
                           resp: Response<AuthStore.AuthBody>)
    requires Validate(f).None?
    ensures var c := Request(f);
      var (store', reply) := AuthStore.Register(store, resp, c.email, Some(c.businessName), Some(c.phone),
                                                Some(c.address), Some(c.description));
      var r := HandleSubmit(st, f, Resolved(reply));
      && !r.loading
      && (reply.success ==>
            r.navigatedTo == Some("/") && store'.user.Some?
            && store'.user.value.email == f.email && store'.user.value.businessName == Some(f.businessName))
      && (!reply.success ==>
            store'.user == store.user
            && r.error == AuthStore.Classify(resp, AuthStore.MsgSignupFailed).message)
  {
  }
}
