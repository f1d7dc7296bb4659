/** Sign-in, registration and the page guards (auth.js). The authentication
    service is passed in as functions from the e-mail tried to the service's
    reply, and the profile lookup as a function from the user id to the row
    found (`None` standing for both a failed query and a missing row, which
    auth.js treats alike). */
module Auth {
  import opened Js
  import Store

  /** The user the authentication service knows, with its `user_metadata`. */
  datatype AuthUser = AuthUser(
    id: string, email: string, metaRole: Option<string>, metaName: Option<string>,
    metaUsername: Option<string>)

  datatype SignInReply = SignInError(message: string) | SignedIn(user: AuthUser)

  // ---------------------------------------------------------------------------
  // The e-mail a username signs in with

  const PortalDomain: string := "@portal.local"

  /** An identifier with an `@` is used as it is; any other has its white space
      removed and `@portal.local` appended. */
  function SynthEmail(input: string): (r: string)
    ensures '@' in r
    ensures '@' in input ==> r == input
  {
    if '@' in input then input
    else
      var r := RemoveSpaces(input) + PortalDomain;
      assert r[|r| - 13] == '@';
      r
  }

  /** The synthetic e-mail of a plain username has no white space and exactly
      one `@`, the one of the domain; its local part is the username without
      white space. */
  lemma SynthEmailOfUsername(input: string)
    requires '@' !in input
    ensures var r := SynthEmail(input);
            NoSpaces(r) && r == RemoveSpaces(input) + PortalDomain
            && forall k :: 0 <= k < |r| && r[k] == '@' ==> k == |r| - |PortalDomain|
  {
    var local := RemoveSpaces(input);
    RemoveSpacesKeepsAt(input);
    DomainChars();
    var r := local + PortalDomain;
    forall k | 0 <= k < |r| ensures !IsSpace(r[k]) && (r[k] == '@' ==> k == |local|) {
      if k < |local| {
        assert r[k] == local[k];
      } else {
        assert r[k] == PortalDomain[k - |local|];
      }
    }
  }

  /** The domain has no white space and its only `@` is its first character. */
  lemma DomainChars()
    ensures NoSpaces(PortalDomain)
    ensures forall k :: 0 < k < |PortalDomain| ==> PortalDomain[k] != '@'
  {
  }

  /** Synthesising twice gives what synthesising once gives. */
  lemma SynthEmailIdempotent(input: string)
    ensures SynthEmail(SynthEmail(input)) == SynthEmail(input)
  {
  }

  /** Usernames that differ only in white space sign in as the same account. */
  lemma SynthEmailIgnoresSpaces(a: string, b: string)
    requires '@' !in a && '@' !in b && RemoveSpaces(a) == RemoveSpaces(b)
    ensures SynthEmail(a) == SynthEmail(b)
  {
  }

  // ---------------------------------------------------------------------------
  // login

  /** The user `login` hands to the page: the service's user with the role and
      name chosen, and the identifier exactly as typed. */
  datatype SessionUser = SessionUser(id: string, email: string, role: string, name: string, username: string)

  datatype LoginResult = LoginOk(user: SessionUser) | LoginFailed(error: string, signedOut: bool)

  const DeactivatedMessage: string := "Tu cuenta ha sido desactivada o eliminada por el administrador."

  /** `login(email, password)`. */
  function Login(email: string, signIn: string -> SignInReply,
                 profileOf: string -> Option<Store.ProfileRow>): (r: LoginResult)
    ensures signIn(SynthEmail(email)).SignInError? ==>
              r == LoginFailed(signIn(SynthEmail(email)).message, false)
    ensures signIn(SynthEmail(email)).SignedIn? && profileOf(signIn(SynthEmail(email)).user.id).None? ==>
              r == LoginFailed(DeactivatedMessage, true)
    ensures r.LoginOk? <==> signIn(SynthEmail(email)).SignedIn?
                            && profileOf(signIn(SynthEmail(email)).user.id).Some?
    ensures r.LoginOk? ==>
      var u := signIn(SynthEmail(email)).user;
      var p := profileOf(u.id).value;
      r.user.id == u.id && r.user.username == email
      && r.user.role == OrElse(p.role, OrElse(u.metaRole, "resident"))
      && r.user.name == OrElse(Some(p.username), OrElse(u.metaName, email))
  {
    match signIn(SynthEmail(email))
    case SignInError(msg) => LoginFailed(msg, false)
    case SignedIn(u) =>
      match profileOf(u.id)
      case None => LoginFailed(DeactivatedMessage, true)
      case Some(p) =>
        var role := OrElse(p.role, OrElse(u.metaRole, "resident"));
        var name := OrElse(Some(p.username), OrElse(u.metaName, email));
        LoginOk(SessionUser(u.id, u.email, role, name, email))
  }

  /** A signed-in user always has a role, `resident` when neither the profile
      nor the metadata names one, and a non-empty name when something was
      typed. */
  lemma LoginRoleAndName(email: string, signIn: string -> SignInReply,
                         profileOf: string -> Option<Store.ProfileRow>)
    requires Login(email, signIn, profileOf).LoginOk?
    ensures var r := Login(email, signIn, profileOf);
            var u := signIn(SynthEmail(email)).user;
            var p := profileOf(u.id).value;
            r.user.role != ""
            && (!Present(p.role) && !Present(u.metaRole) ==> r.user.role == "resident")
            && (email != "" ==> r.user.name != "")
  {
  }

  // ---------------------------------------------------------------------------
  // register and handleZombieUser

  datatype SignUpReply = SignUpError(message: string) | SignedUp(user: AuthUser)

  datatype InsertReply = InsertOk | InsertError(message: string)

  datatype RegisterResult =
    | Registered(user: AuthUser, resurrected: Option<Store.ProfileRow>)
    | RegisterFailed(error: string)

  /** The error of a sign-up for an address already taken, in English or in
      Spanish, in any letter case. */
  predicate IsZombieError(message: string) {
    var msg := ToLower(message);
    Contains(msg, "user already registered") || Contains(msg, "usuario ya registrado")
  }

  lemma {:induction false} ToLowerIdempotent(s: string)
    ensures ToLower(ToLower(s)) == ToLower(s)
  {
    forall k | 0 <= k < |s| ensures ToLower(ToLower(s))[k] == ToLower(s)[k] {
      assert LowerChar(LowerChar(s[k])) == LowerChar(s[k]);
    }
  }

  /** The classification does not depend on letter case. */
  lemma ZombieErrorIgnoresCase(message: string)
    ensures IsZombieError(message) <==> IsZombieError(ToLower(message))
  {
    ToLowerIdempotent(message);
  }

  /** The message the service gives for a taken address is recognised. */
  lemma ServiceMessageIsZombie()
    ensures IsZombieError("User already registered")
  {
    var msg := ToLower("User already registered");
    assert msg == "user already registered";
    assert OccursAt(msg, "user already registered", 0);
    ContainsIffOccurs(msg, "user already registered");
  }

  const MismatchMessage: string :=
    "El usuario ya existe (Auth) y la contraseña no coincide. Contacte con Administración."
  const AlreadyRegisteredMessage: string :=
    "El usuario ya está registrado correctamente. Por favor inicie sesión."

  /** The profile row written when a zombie account is brought back. */
  function ResurrectedRow(id: string, username: string, role: string): (r: Store.ProfileRow)
    ensures r.id == id && r.paymentStatus == "paid" && r.internetSpeed == Some(20)
  {
    Store.ProfileRow(id, username, Some(role), None, "paid", None, Some(20), None, None)
  }

  /** `handleZombieUser(email, password, username, role)`: an account whose
      address is taken is reclaimed when its password matches and it has no
      profile. */
  function HandleZombieUser(username: string, role: string, signIn: SignInReply,
                            profileOf: string -> Option<Store.ProfileRow>, insert: InsertReply): (r: RegisterResult)
    ensures signIn.SignInError? ==> r == RegisterFailed(MismatchMessage)
    ensures r.Registered? <==> signIn.SignedIn? && profileOf(signIn.user.id).None? && insert.InsertOk?
    ensures r.Registered? ==> r.user == signIn.user
                              && r.resurrected == Some(ResurrectedRow(signIn.user.id, username, role))
    ensures signIn.SignedIn? && profileOf(signIn.user.id).None? && insert.InsertError? ==>
              r == RegisterFailed("Error al recuperar perfil (" + insert.message + "). Intenta reiniciar la página.")
    ensures signIn.SignedIn? && profileOf(signIn.user.id).Some? ==> r == RegisterFailed(AlreadyRegisteredMessage)
  {
    match signIn
    case SignInError(_) => RegisterFailed(MismatchMessage)
    case SignedIn(u) =>
      if profileOf(u.id).None? then
        match insert
        case InsertError(msg) =>
          RegisterFailed("Error al recuperar perfil (" + msg + "). Intenta reiniciar la página.")
        case InsertOk => Registered(u, Some(ResurrectedRow(u.id, username, role)))
      else RegisterFailed(AlreadyRegisteredMessage)
  }

  /** `register(username, password, role)`: sign up with the synthetic e-mail;
      a taken address goes to the zombie path with that same e-mail. */
  function Register(username: string, role: string, signUp: string -> SignUpReply,
                    signIn: string -> SignInReply, profileOf: string -> Option<Store.ProfileRow>,
                    insert: InsertReply): (r: RegisterResult)
    ensures signUp(SynthEmail(username)).SignedUp? ==>
              r == Registered(signUp(SynthEmail(username)).user, None)
    ensures signUp(SynthEmail(username)).SignUpError? && !IsZombieError(signUp(SynthEmail(username)).message) ==>
              r == RegisterFailed(signUp(SynthEmail(username)).message)
    ensures signUp(SynthEmail(username)).SignUpError? && IsZombieError(signUp(SynthEmail(username)).message) ==>
              r == HandleZombieUser(username, role, signIn(SynthEmail(username)), profileOf, insert)
  {
    var email := SynthEmail(username);
    match signUp(email)
    case SignedUp(u) => Registered(u, None)
    case SignUpError(msg) =>
      if IsZombieError(msg) then HandleZombieUser(username, role, signIn(email), profileOf, insert)
      else RegisterFailed(msg)
  }

  /** A registration that reclaims an account writes a paid profile at 20 Mbps
      for the very user that signed in, and only when that user had no
      profile. */
  lemma ZombieResurrection(username: string, role: string, signUp: string -> SignUpReply,
                           signIn: string -> SignInReply, profileOf: string -> Option<Store.ProfileRow>,
                           insert: InsertReply)
    requires Register(username, role, signUp, signIn, profileOf, insert).Registered?
    requires Register(username, role, signUp, signIn, profileOf, insert).resurrected.Some?
    ensures var r := Register(username, role, signUp, signIn, profileOf, insert);
            var row := r.resurrected.value;
            IsZombieError(signUp(SynthEmail(username)).message)
            && signIn(SynthEmail(username)).SignedIn?
            && row.id == r.user.id == signIn(SynthEmail(username)).user.id
            && profileOf(row.id).None?
            && row.paymentStatus == "paid" && row.internetSpeed == Some(20)
            && row.role == Some(role) && row.username == username
  {
  }

  // ---------------------------------------------------------------------------
  // getUser and the guards

  datatype PageUser = PageUser(id: string, email: string, role: Option<string>, name: string, username: Option<string>)

  /** `getUser()`: the session's user, named by its metadata or else its
      e-mail. */
  function GetUser(session: Option<AuthUser>): (r: Option<PageUser>)
    ensures r.Some? <==> session.Some?
    ensures r.Some? ==> r.value.id == session.value.id && r.value.role == session.value.metaRole
                        && r.value.name == OrElse(session.value.metaName, session.value.email)
  {
    match session
    case None => None
    case Some(u) => Some(PageUser(u.id, u.email, u.metaRole, OrElse(u.metaName, u.email), u.metaUsername))
  }

  /** What a guard decides: let the page run with the user, send the browser to
      the login page (after signing out when the profile is gone), or send a
      non-admin to the resident dashboard. */
  datatype Guard = Granted(user: PageUser) | ToLogin(signedOut: bool) | ToDashboard

  /** `requireAuth()`. */
  function RequireAuth(session: Option<AuthUser>, profileOf: string -> Option<Store.ProfileRow>): (r: Guard)
    ensures session.None? ==> r == ToLogin(false)
    ensures session.Some? && profileOf(session.value.id).None? ==> r == ToLogin(true)
    ensures r.Granted? <==> session.Some? && profileOf(session.value.id).Some?
    ensures r.Granted? ==> Some(r.user) == GetUser(session)
  {
    match GetUser(session)
    case None => ToLogin(false)
    case Some(u) => if profileOf(u.id).None? then ToLogin(true) else Granted(u)
  }

  /** `requireAdmin()`: the admin page runs only for a signed-in user with a
      profile whose metadata role is `admin`; any other signed-in user with a
      profile goes to the dashboard, and whatever `requireAuth()` denies stays
      denied. */
  function RequireAdmin(session: Option<AuthUser>, profileOf: string -> Option<Store.ProfileRow>): (r: Guard)
    ensures !RequireAuth(session, profileOf).Granted? ==> r == RequireAuth(session, profileOf)
    ensures r.Granted? <==>
              session.Some? && profileOf(session.value.id).Some? && session.value.metaRole == Some("admin")
    ensures r == ToDashboard <==>
              session.Some? && profileOf(session.value.id).Some? && session.value.metaRole != Some("admin")
  {
    match RequireAuth(session, profileOf)
    case Granted(u) => if u.role != Some("admin") then ToDashboard else Granted(u)
    case other => other
  }
}
