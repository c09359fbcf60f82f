/**
 * The login page: an email tab and a mobile tab, each with its own form and
 * schema, a password-visibility flag both tabs share, and a loading flag
 * that disables the submit button while a login request is outstanding.
 * Navigation is modelled as the list of routes the page has navigated to.
 */
module Home {
  import opened Digits
  import opened Validation
  import opened Gateway

  datatype Tab = EmailTab | MobileTab

  /** What a submitted form carries: the fields of the tab it belongs to. */
  datatype LoginForm =
    | EmailLogin(email: string, password: string)
    | MobileLogin(mobile: string, password: string)

  /** The route a successful login leads to. */
  const OtpRoute: string := "/otp"

  /** What became of one press of a submit button. */
  datatype SubmitResult =
    | NotRendered                 // the form belongs to the tab that is not shown
    | Disabled                    // the button is disabled while a request is outstanding
    | Blocked                     // the browser's own check of the address input cancelled it
    | Invalid(errors: set<Field>) // the schema refused the form; nothing was sent
    | Posted(endpoint: Endpoint)  // the request was sent

  function TabOf(form: LoginForm): Tab {
    match form
    case EmailLogin(_, _) => EmailTab
    case MobileLogin(_, _) => MobileTab
  }

  function SchemaOf(form: LoginForm): Schema {
    match form
    case EmailLogin(_, _) => EmailSchema
    case MobileLogin(_, _) => MobileSchema
  }

  function ValuesOf(form: LoginForm): map<Field, string> {
    match form
    case EmailLogin(email, password) => map[Email := email, Password := password]
    case MobileLogin(mobile, password) => map[Mobile := mobile, Password := password]
  }

  function EndpointOf(form: LoginForm): Endpoint {
    match form
    case EmailLogin(_, _) => LoginWithEmail
    case MobileLogin(_, _) => LoginWithMobile
  }

  /** The fields the form's own schema reports in error. */
  function FormErrors(form: LoginForm, isEmail: string -> bool): set<Field> {
    Validate(SchemaOf(form), ValuesOf(form), isEmail)
  }

  /**
   * The browser's constraint check of the `type="email"` input, which runs
   * before the form's submit handler: a non-empty value outside the address
   * grammar `htmlEmail` cancels the submission. The mobile input (`type="tel"`)
   * and the password input carry no such constraint.
   */
  predicate BrowserBlocks(form: LoginForm, htmlEmail: string -> bool) {
    form.EmailLogin? && form.email != "" && !htmlEmail(form.email)
  }

  /** Credentials a form may be sent with, stated field by field. */
  predicate CredentialsValid(form: LoginForm, isEmail: string -> bool) {
    match form
    case EmailLogin(email, password) =>
      email != "" && isEmail(email) && password != ""
    case MobileLogin(mobile, password) =>
      mobile != "" && AllDigits(mobile) && |mobile| >= MobileMinLength && password != ""
  }

  /** The number of successful outcomes. */
  function Successes(outcomes: seq<Outcome>): nat
    decreases |outcomes|
  {
    if outcomes == [] then 0
    else Successes(outcomes[..|outcomes| - 1]) + (if outcomes[|outcomes| - 1] == Succeeded then 1 else 0)
  }

  // ---------------------------------------------------------------------
  // The schemas, read field by field.

  /**
   * A form's schema refuses it exactly when its credentials are not valid,
   * and reports the password field exactly when the password is empty, on
   * either tab.
   */
  lemma FormErrorsValid(form: LoginForm, isEmail: string -> bool)
    ensures FormErrors(form, isEmail) == {} <==> CredentialsValid(form, isEmail)
    ensures Password in FormErrors(form, isEmail) <==> form.password == ""
  {
    match form
    case EmailLogin(email, password) =>
      EmailSchemaErrors(email, password, isEmail);
    case MobileLogin(mobile, password) =>
      MobileSchemaErrors(mobile, password, isEmail);
  }

  /** The email schema reports an address its grammar refuses, with no password, on both fields. */
  lemma BadEmailTwoErrors(isEmail: string -> bool)
    requires !isEmail("bad")
    ensures FormErrors(EmailLogin("bad", ""), isEmail) == {Email, Password}
  {
    EmailSchemaErrors("bad", "", isEmail);
  }

  /** Five digits are too few for a mobile number. */
  lemma ShortMobileRefused(isEmail: string -> bool)
    ensures FormErrors(MobileLogin("12345", "x"), isEmail) == {Mobile}
  {
    MobileSchemaErrors("12345", "x", isEmail);
  }

  /** Ten digits and a password are enough. */
  lemma TenDigitMobileAccepted(isEmail: string -> bool)
    ensures FormErrors(MobileLogin("1234567890", "x"), isEmail) == {}
  {
    var mobile := "1234567890";
    assert AllDigits(mobile) by {
      forall i | 0 <= i < |mobile| ensures IsDigit(mobile[i]) {
      }
    }
    FormErrorsValid(MobileLogin(mobile, "x"), isEmail);
  }

  // ---------------------------------------------------------------------
  // The page state and its handlers.

  class LoginPage {
    /** The address grammar of the validation library. */
    const isEmail: string -> bool
    /** The address grammar the browser enforces on a `type="email"` input. */
    const htmlEmail: string -> bool
    var activeTab: Tab
    var loading: bool
    var showPassword: bool
    /** The login requests sent, oldest first. */
    var posted: seq<Endpoint>
    /** How each completed request finished, oldest first. */
    var outcomes: seq<Outcome>
    /** The routes navigated to, oldest first. */
    var navigations: seq<string>

    /**
     * At most one request is outstanding, exactly while loading; every
     * successful completion navigated once, always to the code page.
     */
    ghost predicate Valid()
      reads this
    {
      && |posted| == |outcomes| + (if loading then 1 else 0)
      && |navigations| == Successes(outcomes)
      && forall i :: 0 <= i < |navigations| ==> navigations[i] == OtpRoute
    }

    /** The page as first rendered: the email tab, not loading, password hidden. */
    constructor (isEmail: string -> bool, htmlEmail: string -> bool)
      ensures Valid() && this.isEmail == isEmail && this.htmlEmail == htmlEmail
      ensures activeTab == EmailTab && !loading && !showPassword
      ensures posted == [] && outcomes == [] && navigations == []
    {
      this.isEmail := isEmail;
      this.htmlEmail := htmlEmail;
      activeTab := EmailTab;
      loading := false;
      showPassword := false;
      posted := [];
      outcomes := [];
      navigations := [];
    }

    /** Clicking a tab shows that tab; nothing else changes. */
    method SelectTab(tab: Tab)
      requires Valid()
      modifies this`activeTab
      ensures Valid() && activeTab == tab
    {
      activeTab := tab;
    }

    /** Clicking the eye icon of either tab flips the one visibility flag. */
    method TogglePassword()
      requires Valid()
      modifies this`showPassword
      ensures Valid() && showPassword == !old(showPassword)
    {
      showPassword := !showPassword;
    }

    /**
     * Pressing the submit button of `form`. Only the shown tab's form can be
     * pressed, and not while loading. The browser checks the address input
     * first and cancels the submission, before the schema runs, for a
     * non-empty malformed address. Then the form's schema runs; a form it
     * refuses shows its errors and sends nothing. A valid form sets the
     * loading flag and posts to its tab's endpoint.
     */
    method Submit(form: LoginForm) returns (r: SubmitResult)
      requires Valid()
      modifies this`loading, this`posted
      ensures Valid()
      ensures TabOf(form) != activeTab ==> r == NotRendered
      ensures TabOf(form) == activeTab && old(loading) ==> r == Disabled
      ensures TabOf(form) == activeTab && !old(loading) && BrowserBlocks(form, htmlEmail) ==> r == Blocked
      ensures TabOf(form) == activeTab && !old(loading) && !BrowserBlocks(form, htmlEmail)
        && !CredentialsValid(form, isEmail)
        ==> r == Invalid(FormErrors(form, isEmail)) && r.errors != {}
      ensures r.Posted? <==>
        TabOf(form) == activeTab && !old(loading) && !BrowserBlocks(form, htmlEmail) && CredentialsValid(form, isEmail)
      ensures r.Posted? ==> r.endpoint == EndpointOf(form) && loading && posted == old(posted) + [r.endpoint]
      ensures !r.Posted? ==> loading == old(loading) && posted == old(posted)
    {
      FormErrorsValid(form, isEmail);
      if TabOf(form) != activeTab {
        return NotRendered;
      }
      if loading {
        return Disabled;
      }
      if BrowserBlocks(form, htmlEmail) {
        return Blocked;
      }
      var errors := FormErrors(form, isEmail);
      if errors != {} {
        return Invalid(errors);
      }
      loading := true;
      posted := posted + [EndpointOf(form)];
      r := Posted(EndpointOf(form));
    }

    /**
     * The outstanding request completes. Success navigates to the code page;
     * failure is only logged. Either way loading ends.
     */
    method Complete(outcome: Outcome)
      requires Valid() && loading
      modifies this`loading, this`outcomes, this`navigations
      ensures Valid() && !loading && outcomes == old(outcomes) + [outcome]
      ensures navigations == old(navigations) + (if outcome == Succeeded then [OtpRoute] else [])
    {
      if outcome == Succeeded {
        navigations := navigations + [OtpRoute];
      }
      loading := false;
      outcomes := outcomes + [outcome];
      assert outcomes[..|outcomes| - 1] == old(outcomes);
    }
  }

  // ---------------------------------------------------------------------
  // Whole interactions, from a freshly rendered page.

  /**
   * Logging in with email credentials the schema accepts sends exactly one
   * request, to the email endpoint, when the browser accepts the address
   * too; success navigates to the code page once, failure nowhere. An
   * address the browser refuses sends nothing. Loading is over afterwards.
   */
  method EmailLoginFlow(email: string, password: string, isEmail: string -> bool, htmlEmail: string -> bool,
                        outcome: Outcome)
    returns (r: SubmitResult, posted: seq<Endpoint>, navigations: seq<string>, loading: bool)
    requires CredentialsValid(EmailLogin(email, password), isEmail)
    ensures htmlEmail(email) ==>
      r == Posted(LoginWithEmail) && posted == [LoginWithEmail] &&
      navigations == if outcome == Succeeded then [OtpRoute] else []
    ensures !htmlEmail(email) ==> r == Blocked && posted == [] && navigations == []
    ensures !loading
  {
    var page := new LoginPage(isEmail, htmlEmail);
    r := page.Submit(EmailLogin(email, password));
    if r.Posted? {
      page.Complete(outcome);
    }
    posted, navigations, loading := page.posted, page.navigations, page.loading;
  }

  /**
   * On the mobile tab, with the value the mobile input holds once its change
   * handler has dropped the non-digits (`KeepDigits`) taken as the value the
   * schema sees, the form is sent exactly when ten or more digits were typed
   * and a password was given, and it goes to the mobile endpoint.
   */
  method MobileLoginFlow(raw: string, password: string, isEmail: string -> bool, htmlEmail: string -> bool)
    returns (r: SubmitResult, posted: seq<Endpoint>)
    ensures r.Posted? <==> |KeepDigits(raw)| >= MobileMinLength && password != ""
    ensures r.Posted? ==> r == Posted(LoginWithMobile) && posted == [LoginWithMobile]
    ensures !r.Posted? ==> r.Invalid? && posted == []
  {
    var page := new LoginPage(isEmail, htmlEmail);
    page.SelectTab(MobileTab);
    var mobile := KeepDigits(raw);
    KeepDigitsIsDigits(raw);
    r := page.Submit(MobileLogin(mobile, password));
    posted := page.posted;
  }

  /**
   * Invalid credentials never reach the gateway and never start loading:
   * the browser cancels a malformed non-empty address, and the schema
   * reports the errors of everything else.
   */
  method InvalidLogin(form: LoginForm, isEmail: string -> bool, htmlEmail: string -> bool)
    returns (r: SubmitResult, posted: seq<Endpoint>, loading: bool)
    requires !CredentialsValid(form, isEmail)
    ensures BrowserBlocks(form, htmlEmail) ==> r == Blocked
    ensures !BrowserBlocks(form, htmlEmail) ==> r.Invalid? && r.errors != {}
    ensures posted == [] && !loading
  {
    var page := new LoginPage(isEmail, htmlEmail);
    page.SelectTab(TabOf(form));
    r := page.Submit(form);
    posted, loading := page.posted, page.loading;
  }

  /**
   * A malformed address is stopped by the browser: no schema error is set,
   * not even the empty password's, and nothing is sent.
   */
  method MalformedAddressBlocked(isEmail: string -> bool, htmlEmail: string -> bool)
    returns (r: SubmitResult, posted: seq<Endpoint>, loading: bool)
    requires !htmlEmail("bad")
    ensures r == Blocked && posted == [] && !loading
  {
    var page := new LoginPage(isEmail, htmlEmail);
    r := page.Submit(EmailLogin("bad", ""));
    posted, loading := page.posted, page.loading;
  }

  /** The mobile form is not on the page while the email tab is shown. */
  method HiddenTabLogin(mobile: string, password: string, isEmail: string -> bool, htmlEmail: string -> bool)
    returns (r: SubmitResult, posted: seq<Endpoint>)
    ensures r == NotRendered && posted == []
  {
    var page := new LoginPage(isEmail, htmlEmail);
    r := page.Submit(MobileLogin(mobile, password));
    posted := page.posted;
  }

  /**
   * A second press while the first request is outstanding sends nothing.
   * (A form the browser blocks never starts a request, so both presses are
   * blocked.)
   */
  method DoubleSubmit(form: LoginForm, isEmail: string -> bool, htmlEmail: string -> bool)
    returns (second: SubmitResult, posted: seq<Endpoint>)
    requires CredentialsValid(form, isEmail)
    ensures !BrowserBlocks(form, htmlEmail) ==> second == Disabled && posted == [EndpointOf(form)]
    ensures BrowserBlocks(form, htmlEmail) ==> second == Blocked && posted == []
  {
    var page := new LoginPage(isEmail, htmlEmail);
    page.SelectTab(TabOf(form));
    var first := page.Submit(form);
    second := page.Submit(form);
    posted := page.posted;
  }

  /** Clicking the eye icon `n` times, switching tabs in between, shows the password exactly when `n` is odd. */
  method TogglePasswordTimes(n: nat, isEmail: string -> bool, htmlEmail: string -> bool) returns (shown: bool)
    ensures shown <==> n % 2 == 1
  {
    var page := new LoginPage(isEmail, htmlEmail);
    for i := 0 to n
      invariant page.Valid()
      invariant page.showPassword <==> i % 2 == 1
    {
      page.TogglePassword();
      page.SelectTab(if page.activeTab == EmailTab then MobileTab else EmailTab);
    }
    shown := page.showPassword;
  }
}
