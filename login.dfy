/** The login page object: the four session keys it manages, the user
    file it appends to, and the login, logout and sign-up decisions of its
    forms. The session is Streamlit's per-browser key/value store, updated
    in place. */
module LoginFlow {
  import opened Wrappers
  import opened Accounts

  /** A session key: absent, or holding a value. */
  datatype Slot<T> = Unset | Set(value: T)

  /** The four keys the page reads and writes. */
  datatype SessionValues = SessionValues(
    isLoggedIn: Slot<bool>,
    role: Slot<Option<string>>,
    username: Slot<Option<string>>,
    activePage: Slot<Option<string>>)

  /** A browser session nobody has written to. */
  const Fresh := SessionValues(Unset, Unset, Unset, Unset)

  /** The three keys `logout` writes back after clearing everything. */
  const LoggedOut := SessionValues(Set(false), Set(None), Set(None), Unset)

  function KeepOr<T>(s: Slot<T>, v: T): (r: Slot<T>)
    ensures s.Set? ==> r == s
    ensures s.Unset? ==> r == Set(v)
  {
    if s.Set? then s else Set(v)
  }

  /** `initialize_session_state`: each absent key gets its default, a
      present key is never overwritten. */
  function Initialized(v: SessionValues): (w: SessionValues)
    ensures w.isLoggedIn.Set? && w.role.Set? && w.username.Set? && w.activePage.Set?
    ensures v.isLoggedIn.Set? ==> w.isLoggedIn == v.isLoggedIn
    ensures v.role.Set? ==> w.role == v.role
    ensures v.username.Set? ==> w.username == v.username
    ensures v.activePage.Set? ==> w.activePage == v.activePage
    ensures v.isLoggedIn.Unset? ==> w.isLoggedIn == Set(false)
    ensures v.role.Unset? ==> w.role == Set(None)
    ensures v.username.Unset? ==> w.username == Set(None)
    ensures v.activePage.Unset? ==> w.activePage == Set(None)
  {
    SessionValues(KeepOr(v.isLoggedIn, false), KeepOr(v.role, None), KeepOr(v.username, None), KeepOr(v.activePage, None))
  }

  /** Running the initialisation again changes nothing. */
  lemma InitializedIdempotent(v: SessionValues)
    ensures Initialized(Initialized(v)) == Initialized(v)
  {
  }

  /** The keys after a successful login. */
  function LoggedIn(role: string, username: string): (v: SessionValues)
    ensures v.isLoggedIn == Set(true) && v.activePage == Set(None)
    ensures v.role == Set(Some(role)) && v.username == Set(Some(username))
  {
    SessionValues(Set(true), Set(Some(role)), Set(Some(username)), Set(None))
  }

  /** After a logout and the rerun that follows it, the session is the
      one a new visitor gets: logged out, no role, no user, no page. */
  lemma LogoutThenRerunIsFresh()
    ensures Initialized(LoggedOut) == Initialized(Fresh)
    ensures Initialized(Fresh) == SessionValues(Set(false), Set(None), Set(None), Set(None))
  {
  }

  // ---------------------------------------------------------------------
  // Form decisions

  datatype LoginOutcome = LoginMissingFields | InvalidCredentials | LoginAccepted(role: string)

  /** The login form: both fields must be non-empty, then the first
      matching row of the user file decides. A matching row always
      admits the user, since the role it reads back is never a false
      value. */
  function LoginDecision(records: seq<UserRecord>, username: string, password: string): (o: LoginOutcome)
    ensures o.LoginMissingFields? <==> username == [] || password == []
    ensures o.LoginAccepted? <==> (username != [] && password != []
      && exists i :: 0 <= i < |records| && Matches(records[i], username, password))
    ensures o.LoginAccepted? ==> Some(o.role) == ValidateUser(records, username, password)
  {
    if username == [] || password == [] then LoginMissingFields
    else
      match ValidateUser(records, username, password)
      case None => InvalidCredentials
      case Some(role) => LoginAccepted(role)
  }

  datatype SignUpOutcome = SignUpMissingFields | EmailTaken | InvalidEmail | WeakPassword | SignedUp

  const GuestRole := "guest"

  /** The sign-up form, checked in the page's order: all three fields,
      then an unused e-mail, then its shape, then the password rules. */
  function SignUpDecision(records: seq<UserRecord>, username: string, email: string, password: string): (o: SignUpOutcome)
    ensures o == SignUpMissingFields <==> username == [] || email == [] || password == []
    ensures o == SignedUp <==> (username != [] && email != [] && password != []
      && !IsEmailRegistered(records, email) && IsValidEmail(email) && IsValidPassword(password))
    ensures o == EmailTaken <==> (username != [] && email != [] && password != []
      && exists i :: 0 <= i < |records| && records[i].email == email)
    ensures o == InvalidEmail <==> (username != [] && email != [] && password != []
      && !IsEmailRegistered(records, email) && !IsValidEmail(email))
    ensures o == WeakPassword <==> (username != [] && email != [] && password != []
      && !IsEmailRegistered(records, email) && IsValidEmail(email) && !IsValidPassword(password))
  {
    if username == [] || email == [] || password == [] then SignUpMissingFields
    else if IsEmailRegistered(records, email) then EmailTaken
    else if !IsValidEmail(email) then InvalidEmail
    else if !IsValidPassword(password) then WeakPassword
    else SignedUp
  }

  /** The row a successful sign-up appends: the inputs as typed, with the
      guest role. */
  function NewAccount(username: string, email: string, password: string): UserRecord {
    UserRecord(username, email, password, GuestRole)
  }

  /** Signing up and then logging in with the same inputs: the login is
      accepted, as a guest unless an older row already matched; the
      e-mail is now taken, so signing up with it again is refused. */
  lemma SignUpThenLogin(records: seq<UserRecord>, username: string, email: string, password: string)
    requires SignUpDecision(records, username, email, password) == SignedUp
    ensures var after := records + [NewAccount(username, email, password)];
      && LoginDecision(after, username, password).LoginAccepted?
      && (ValidateUser(records, username, password).None? ==>
            LoginDecision(after, username, password) == LoginAccepted(GuestRole))
      && IsEmailRegistered(after, email)
      && forall u, p :: u != [] && p != [] ==> SignUpDecision(after, u, email, p) == EmailTaken
  {
    var rec := NewAccount(username, email, password);
    var after := records + [rec];
    assert after[|records|] == rec;
    assert Matches(rec, username, password);
    ValidateUserAppend(records, rec, username, password);
  }

  // ---------------------------------------------------------------------
  // The session store and the page object

  /** Streamlit's session state, reduced to the four keys of the page. */
  class Session {
    var isLoggedIn: Slot<bool>
    var role: Slot<Option<string>>
    var username: Slot<Option<string>>
    var activePage: Slot<Option<string>>

    function Values(): SessionValues
      reads this
    {
      SessionValues(isLoggedIn, role, username, activePage)
    }

    /** A new browser session. */
    constructor ()
      ensures Values() == Fresh
    {
      isLoggedIn, role, username, activePage := Unset, Unset, Unset, Unset;
    }

    /** Writes all four keys at once. */
    method Store(v: SessionValues)
      modifies this
      ensures Values() == v
    {
      isLoggedIn, role, username, activePage := v.isLoggedIn, v.role, v.username, v.activePage;
    }
  }

  /** The page object: the user file it reads and appends to, and the
      session it works on. */
  class LoginPage {
    var records: seq<UserRecord>
    const session: Session

    /** `__init__`: remember the file and initialise the session keys. */
    constructor (records: seq<UserRecord>, session: Session)
      modifies session
      ensures this.records == records && this.session == session
      ensures session.Values() == Initialized(old(session.Values()))
    {
      this.records := records;
      this.session := session;
      new;
      InitializeSessionState();
    }

    /** `initialize_session_state`. */
    method InitializeSessionState()
      modifies session
      ensures session.Values() == Initialized(old(session.Values()))
    {
      if session.isLoggedIn.Unset? {
        session.isLoggedIn := Set(false);
      }
      if session.role.Unset? {
        session.role := Set(None);
      }
      if session.username.Unset? {
        session.username := Set(None);
      }
      if session.activePage.Unset? {
        session.activePage := Set(None);
      }
    }

    /** `save_to_csv`: one row appended, whether the file existed or is
        created with its header. */
    method SaveToCsv(username: string, email: string, password: string, role: string)
      modifies this
      ensures records == old(records) + [UserRecord(username, email, password, role)]
    {
      records := records + [UserRecord(username, email, password, role)];
    }

    /** `logout`: every key cleared, then the three login keys written
        back; the active page is gone. */
    method Logout()
      modifies session
      ensures session.Values() == LoggedOut
    {
      session.isLoggedIn, session.role, session.username, session.activePage := Unset, Unset, Unset, Unset;
      session.isLoggedIn := Set(false);
      session.role := Set(None);
      session.username := Set(None);
    }

    /** `login`: on a matching row the session records the user as typed,
        the row's role and no active page; otherwise nothing changes. */
    method Login(username: string, password: string) returns (accepted: bool)
      modifies session
      ensures accepted <==> ValidateUser(records, username, password).Some?
      ensures accepted ==> session.Values() == LoggedIn(ValidateUser(records, username, password).value, username)
      ensures !accepted ==> session.Values() == old(session.Values())
    {
      var role := ValidateUser(records, username, password);
      if role.Some? {
        session.Store(LoggedIn(role.value, username));
        accepted := true;
      } else {
        accepted := false;
      }
    }

    /** The login form's submit. */
    method SubmitLogin(username: string, password: string) returns (outcome: LoginOutcome)
      modifies session
      ensures outcome == LoginDecision(records, username, password)
      ensures outcome.LoginAccepted? ==> session.Values() == LoggedIn(outcome.role, username)
      ensures !outcome.LoginAccepted? ==> session.Values() == old(session.Values())
    {
      if username != [] && password != [] {
        var accepted := Login(username, password);
        if accepted {
          outcome := LoginAccepted(ValidateUser(records, username, password).value);
        } else {
          outcome := InvalidCredentials;
        }
      } else {
        outcome := LoginMissingFields;
      }
    }

    /** The sign-up form's submit: a guest row is appended only when every
        check passes. */
    method SubmitSignUp(username: string, email: string, password: string) returns (outcome: SignUpOutcome)
      modifies this
      ensures outcome == SignUpDecision(old(records), username, email, password)
      ensures records == if outcome == SignedUp then old(records) + [NewAccount(username, email, password)] else old(records)
    {
      if username != [] && email != [] && password != [] {
        if IsEmailRegistered(records, email) {
          outcome := EmailTaken;
        } else if IsValidEmail(email) {
          if IsValidPassword(password) {
            SaveToCsv(username, email, password, GuestRole);
            outcome := SignedUp;
          } else {
            outcome := WeakPassword;
          }
        } else {
          outcome := InvalidEmail;
        }
      } else {
        outcome := SignUpMissingFields;
      }
    }
  }
}
