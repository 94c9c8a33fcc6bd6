/**
 The root component of App.tsx: the startup load (all three queries or an
 error), the refresh after an admin change, the admin flag taken from the URL
 fragment, which of login prompt and admin panel is shown, and the outcome
 messages of the login form.
 */
module App {
  import opened Content

  /** The remote session object; only its presence matters here. */
  datatype Session = Session(accessToken: string)

  datatype AppState = AppState(
    session: Option<Session>,
    isAdmin: bool,
    artist: Option<ArtistInfo>,
    releases: seq<Release>,
    shows: seq<Show>,
    loading: bool,
    error: Option<string>)

  /** The state the page mounts with. */
  const Initial := AppState(None, false, None, [], [], true, None)

  const LoadErrorMessage := "Could not load artist data. Please check the connection and configuration."

  const AdminFragment := "#admin"

  // ----------------------------------------------------------- admin flag

  /** `handleHashChange`: the admin flag follows the fragment and nothing else changes. */
  function HashChange(s: AppState, hash: string): (r: AppState)
    ensures r.isAdmin <==> hash == AdminFragment
    ensures r.(isAdmin := s.isAdmin) == s
  {
    s.(isAdmin := hash == AdminFragment)
  }

  /** `onAuthStateChange`: the page mirrors the session the service reports. */
  function AuthStateChange(s: AppState, session: Option<Session>): (r: AppState)
    ensures r.session == session
    ensures r.(session := s.session) == s
  {
    s.(session := session)
  }

  // ----------------------------------------------------------- rendering

  /**
   The view mode the fragment and the session select together: a visitor
   view, the login prompt, or the admin panel.
   */
  datatype Mode = VisitorMode | LoginMode | PanelMode

  function ModeOf(isAdmin: bool, hasSession: bool): Mode {
    if !isAdmin then VisitorMode else if hasSession then PanelMode else LoginMode
  }

  /** What the content page draws besides the content itself. */
  datatype Page = Page(
    artist: ArtistInfo,
    releases: seq<Release>,
    shows: seq<Show>,
    loginPrompt: bool,
    adminPanel: bool,
    logoutButton: bool)

  datatype Screen = LoadingScreen | ErrorScreen(message: Option<string>) | ContentScreen(page: Page)

  /**
   The render: a loading screen while loading; the error screen when there is
   an error or no artist info; otherwise the content with the login prompt
   for an admin without a session, the admin panel for an admin with one, and
   the logout control whenever there is a session.
   */
  function Render(s: AppState): (v: Screen)
    ensures v.LoadingScreen? <==> s.loading
    ensures v.ContentScreen? <==> !s.loading && s.error.None? && s.artist.Some?
    ensures v.ErrorScreen? ==> v.message == s.error
    ensures v.ContentScreen? ==> v.page.artist == s.artist.value && v.page.releases == s.releases && v.page.shows == s.shows
  {
    if s.loading then LoadingScreen
    else if s.error.Some? || s.artist.None? then ErrorScreen(s.error)
    else ContentScreen(Page(s.artist.value, s.releases, s.shows,
                            s.isAdmin && s.session.None?,
                            s.isAdmin && s.session.Some?,
                            s.session.Some?))
  }

  /**
   The two admin overlays are the view mode: the login prompt shows exactly
   in login mode and the panel exactly in panel mode, so never both, and
   neither without the admin flag; the logout control shows exactly when
   there is a session.
   */
  lemma OverlaysFollowMode(s: AppState)
    requires Render(s).ContentScreen?
    ensures var p := Render(s).page; var m := ModeOf(s.isAdmin, s.session.Some?);
      && (p.loginPrompt <==> m == LoginMode)
      && (p.adminPanel <==> m == PanelMode)
      && !(p.loginPrompt && p.adminPanel)
      && (!s.isAdmin ==> !p.loginPrompt && !p.adminPanel)
      && (p.logoutButton <==> s.session.Some?)
  {
  }

  /**
   Setting the fragment to `#admin` and clearing it again leaves the state as
   it was apart from the flag, which ends false: neither overlay is drawn.
   */
  lemma AdminToggleRestores(s: AppState)
    ensures HashChange(HashChange(s, AdminFragment), "") == s.(isAdmin := false)
    ensures !s.isAdmin ==> HashChange(HashChange(s, AdminFragment), "") == s
    ensures var v := Render(HashChange(HashChange(s, AdminFragment), ""));
      v.ContentScreen? ==> !v.page.loginPrompt && !v.page.adminPanel
  {
  }

  /** Closing the login prompt clears the fragment, which hides both overlays. */
  lemma CloseLoginHidesOverlays(s: AppState)
    ensures var v := Render(HashChange(s, ""));
      v.ContentScreen? ==> !v.page.loginPrompt && !v.page.adminPanel
  {
  }

  /** Once the service reports no session, the panel and the logout control are gone. */
  lemma SignOutHidesPanel(s: AppState)
    ensures var v := Render(AuthStateChange(s, None));
      v.ContentScreen? ==> !v.page.adminPanel && !v.page.logoutButton && (v.page.loginPrompt <==> s.isAdmin)
  {
  }

  // ---------------------------------------------------------- startup load

  /** The outcome of the three startup queries, in the order they are awaited. */
  datatype Load = Load(artist: Result<ArtistInfo>, shows: Result<seq<Show>>, releases: Result<seq<Release>>)

  predicate AllLoaded(l: Load) {
    l.artist.Ok? && l.shows.Ok? && l.releases.Ok?
  }

  /**
   `fetchData`: loading on and the error cleared; then artist info, shows and
   releases in turn, each stored as it arrives, and the first failing query
   ends the load with the error message; loading is off at the end whatever
   happened. Session and admin flag are not touched.
   */
  function FetchData(s: AppState, l: Load): (r: AppState)
    ensures !r.loading
    ensures r.error.Some? <==> !AllLoaded(l)
    ensures r.error.Some? ==> r.error.value == LoadErrorMessage
    ensures AllLoaded(l) ==> r.artist == Some(l.artist.data) && r.shows == l.shows.data && r.releases == l.releases.data
    ensures l.artist.Err? ==> r.artist == s.artist && r.shows == s.shows && r.releases == s.releases
    ensures l.artist.Ok? ==> r.artist == Some(l.artist.data)
    ensures l.artist.Ok? && l.shows.Ok? ==> r.shows == l.shows.data
    ensures l.shows.Err? ==> r.shows == s.shows && r.releases == s.releases
    ensures l.releases.Err? ==> r.releases == s.releases
    ensures r.session == s.session && r.isAdmin == s.isAdmin
  {
    var started := s.(loading := true, error := None);
    var done := match l.artist
      case Err(_) => started.(error := Some(LoadErrorMessage))
      case Ok(artist) =>
        var s1 := started.(artist := Some(artist));
        match l.shows
        case Err(_) => s1.(error := Some(LoadErrorMessage))
        case Ok(shows) =>
          var s2 := s1.(shows := shows);
          match l.releases
          case Err(_) => s2.(error := Some(LoadErrorMessage))
          case Ok(releases) => s2.(releases := releases);
    done.(loading := false)
  }

  /**
   The load is all or nothing as far as the page is concerned: content is
   drawn exactly when all three queries succeeded, and otherwise the error
   screen shows the load error, even when earlier queries had stored data.
   */
  lemma LoadAllOrError(s: AppState, l: Load)
    ensures Render(FetchData(s, l)).ContentScreen? <==> AllLoaded(l)
    ensures !AllLoaded(l) ==> Render(FetchData(s, l)) == ErrorScreen(Some(LoadErrorMessage))
    ensures AllLoaded(l) ==> Render(FetchData(s, l)).page.artist == l.artist.data
  {
  }

  /**
   The page mounts on the loading screen. The mount effect reads the fragment
   synchronously while the load is still waiting on its first query, so the
   load completes on the mount state with the flag already set. While no
   session has been reported, the first load draws the content exactly when
   all three queries succeed, with the login prompt exactly at `#admin` and
   neither the panel nor the logout control; otherwise it draws the load error.
   */
  lemma MountThenLoad(hash: string, l: Load)
    ensures Render(Initial) == LoadingScreen
    ensures Render(FetchData(HashChange(Initial, hash), l)).ContentScreen? <==> AllLoaded(l)
    ensures var v := Render(FetchData(HashChange(Initial, hash), l));
      v.ContentScreen? ==> (v.page.loginPrompt <==> hash == AdminFragment) && !v.page.adminPanel && !v.page.logoutButton
    ensures !AllLoaded(l) ==> Render(FetchData(HashChange(Initial, hash), l)) == ErrorScreen(Some(LoadErrorMessage))
  {
    LoadAllOrError(HashChange(Initial, hash), l);
  }

  // ---------------------------------------------------------------- refresh

  /**
   `refreshData`: both lists are queried again, and each is replaced only
   when its query returned rows; a failed query keeps the list shown before.
   Nothing else changes.
   */
  function RefreshData(s: AppState, shows: Result<seq<Show>>, releases: Result<seq<Release>>): (r: AppState)
    ensures shows.Ok? ==> r.shows == shows.data
    ensures shows.Err? ==> r.shows == s.shows
    ensures releases.Ok? ==> r.releases == releases.data
    ensures releases.Err? ==> r.releases == s.releases
    ensures r.(shows := s.shows, releases := s.releases) == s
  {
    var s1 := match shows
      case Ok(data) => s.(shows := data)
      case Err(_) => s;
    match releases
    case Ok(data) => s1.(releases := data)
    case Err(_) => s1
  }

  /**
   A refresh never changes which screen is drawn, and its result depends
   only on the new rows: refreshing again with the same replies changes
   nothing.
   */
  lemma RefreshKeepsScreen(s: AppState, shows: Result<seq<Show>>, releases: Result<seq<Release>>)
    ensures var r := RefreshData(s, shows, releases);
      && (Render(r).ContentScreen? <==> Render(s).ContentScreen?)
      && (Render(r).LoadingScreen? <==> Render(s).LoadingScreen?)
      && RefreshData(r, shows, releases) == r
    ensures shows.Err? && releases.Err? ==> RefreshData(s, shows, releases) == s
  {
  }

  // ------------------------------------------------------------ login form

  datatype AuthForm = AuthForm(
    email: string,
    password: string,
    isSignUp: bool,
    error: Option<string>,
    loading: bool,
    success: Option<string>)

  /** The service's answer to a sign-up or sign-in request. */
  datatype AuthOutcome = Accepted | Refused(description: Option<string>, message: string)

  const SignUpSuccessMessage := "Sign up successful! You can now sign in using the 'Sign In' tab."

  /** `err.error_description || err.message`. */
  function ErrorText(description: Option<string>, message: string): (t: string)
    ensures description.Some? && description.value != "" ==> t == description.value
    ensures !(description.Some? && description.value != "") ==> t == message
  {
    match description
    case Some(d) => if d != "" then d else message
    case None => message
  }

  /**
   `Auth.handleSubmit`: a sign-up that goes through leaves the success
   message and no error; a sign-in that goes through leaves neither (the
   session arrives through `onAuthStateChange`, not from here); a refusal
   leaves its error text and no success message. Loading is off at the end
   and the entered email, password and tab are kept.
   */
  function AuthSubmit(f: AuthForm, outcome: AuthOutcome): (r: AuthForm)
    ensures !r.loading
    ensures r.email == f.email && r.password == f.password && r.isSignUp == f.isSignUp
    ensures outcome.Accepted? ==> r.error.None?
    ensures outcome.Accepted? && f.isSignUp ==> r.success == Some(SignUpSuccessMessage)
    ensures outcome.Accepted? && !f.isSignUp ==> r.success.None?
    ensures outcome.Refused? ==> r.error == Some(ErrorText(outcome.description, outcome.message)) && r.success.None?
  {
    var started := f.(loading := true, error := None, success := None);
    var done := match outcome
      case Accepted => if f.isSignUp then started.(success := Some(SignUpSuccessMessage)) else started
      case Refused(description, message) => started.(error := Some(ErrorText(description, message)));
    done.(loading := false)
  }

  /** Whether a message slot draws anything: a missing or empty message draws nothing. */
  predicate Drawn(m: Option<string>) {
    m.Some? && m.value != ""
  }

  /** What the form shows below its inputs. */
  datatype AuthMessages = AuthMessages(successShown: bool, errorShown: bool)

  function Messages(f: AuthForm): AuthMessages {
    AuthMessages(Drawn(f.success) && !Drawn(f.error), Drawn(f.error))
  }

  /**
   After a submit the form never shows both messages: a successful sign-up
   shows the success message alone, a successful sign-in shows nothing, and a
   refusal shows its error exactly when the error text is not empty.
   */
  lemma AuthMessagesAfterSubmit(f: AuthForm, outcome: AuthOutcome)
    ensures var m := Messages(AuthSubmit(f, outcome));
      && !(m.successShown && m.errorShown)
      && (outcome.Accepted? ==> !m.errorShown && (m.successShown <==> f.isSignUp))
      && (outcome.Refused? ==> !m.successShown && (m.errorShown <==> ErrorText(outcome.description, outcome.message) != ""))
  {
  }
}
