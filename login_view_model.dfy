/** The login screen's view model, `ui/auth/LoginViewModel.kt`: the checks
    an e-mail address passes before the whitelist service is asked, and the
    state each answer leaves. The service call and the Firebase sign-in are
    not modelled; what they answered is a parameter. */
module Login {
  import opened Records
  import opened Text
  import PdfText

  const AllowedDomain: string := "@grecmallorca.org"
  const EmptyEmailError: string := "Por favor, introduce tu correo"
  const DomainError: string := "Solo se permiten correos con dominio " + AllowedDomain
  const NotAuthorizedError: string := "El correo no est\U{E1} autorizado"
  const NoUserError: string := "No se pudo obtener informaci\U{F3}n del usuario"

  /** A whitelisted user as the service (or Firebase) describes it. */
  datatype User = User(email: string, name: string)

  datatype LoginUiState = LoginUiState(
    isLoading: bool,
    isLoggedIn: bool,
    user: Option<User>,
    error: Option<string>)

  const InitialUiState: LoginUiState := LoginUiState(false, false, None, None)

  /** The state a failed attempt leaves: not loading, not logged in, and
      the message. */
  function ErrorState(message: string): LoginUiState
  {
    LoginUiState(false, false, None, Some(message))
  }

  /** Kotlin's `"$x"` of a nullable string. */
  function OrNull(s: Option<string>): string
  {
    if s.Some? then s.value else "null"
  }

  /** `endsWith`. */
  predicate EndsWith(s: string, suffix: string)
  {
    |suffix| <= |s| && s[|s| - |suffix|..] == suffix
  }

  /** `lowercase()` on ASCII letters. */
  function Lowercase(s: string): (r: string)
    ensures |r| == |s|
    ensures forall k :: 0 <= k < |s| ==> r[k] == LowerChar(s[k])
  {
    seq(|s|, k requires 0 <= k < |s| => LowerChar(s[k]))
  }

  /** `email.trim().lowercase()`: the address the service is asked about.
      It is empty exactly for a blank address, has no capital letter and
      no whitespace at either end. */
  function NormalizedEmail(email: string): (r: string)
    ensures r == [] <==> PdfText.IsBlank(email)
    ensures forall k :: 0 <= k < |r| ==> !('A' <= r[k] <= 'Z')
    ensures r == [] || (!PdfText.IsWhitespace(r[0]) && !PdfText.IsWhitespace(r[|r| - 1]))
  {
    var trimmed := PdfText.Trim(email);
    if trimmed == [] then Lowercase(trimmed)
    else
      LowerKeepsNonSpace(trimmed[0]);
      LowerKeepsNonSpace(trimmed[|trimmed| - 1]);
      Lowercase(trimmed)
  }

  /** The checks of `login` before the service is called: an empty address
      and an address outside the domain are refused with their messages.
      The check runs on the address as typed. */
  function PreCheck(email: string): (r: Option<string>)
    ensures r.None? <==> EndsWith(email, AllowedDomain)
    ensures r == Some(EmptyEmailError) <==> email == []
    ensures r.Some? && email != [] ==> r == Some(DomainError)
  {
    if email == [] then Some(EmptyEmailError)
    else if !EndsWith(email, AllowedDomain) then Some(DomainError)
    else None
  }

  /** The answer of the whitelist service: an HTTP response, with its body
      when it was successful, or an exception (a connection failure is
      reported apart from any other). */
  datatype AuthResponse = AuthResponse(authorized: bool, user: Option<User>, message: Option<string>)

  datatype ApiOutcome =
    | Response(successful: bool, code: int, body: Option<AuthResponse>, errorBody: Option<string>)
    | ConnectionFailure(message: Option<string>)
    | Failure(message: Option<string>)

  /** Whether the service authorized the address. */
  predicate Authorized(outcome: ApiOutcome)
  {
    outcome.Response? && outcome.successful && outcome.body.Some? && outcome.body.value.authorized
  }

  /** The state the service's answer leaves. */
  function ResponseState(outcome: ApiOutcome): (r: LoginUiState)
    ensures !r.isLoading
    ensures r.isLoggedIn <==> Authorized(outcome)
    ensures r.isLoggedIn ==> r.user == outcome.body.value.user && r.error.None?
    ensures !r.isLoggedIn ==> r.user.None? && r.error.Some?
  {
    match outcome
    case Response(successful, code, body, errorBody) =>
      if successful then
        if body.Some? && body.value.authorized then LoginUiState(false, true, body.value.user, None)
        else ErrorState(NotAuthorizedError)
      else ErrorState("Error en respuesta HTTP " + IntToString(code) + ": " + OrNull(errorBody))
    case ConnectionFailure(message) => ErrorState("Error de conexi\U{F3}n: " + OrNull(message))
    case Failure(message) => ErrorState("Error al iniciar sesi\U{F3}n: " + OrNull(message))
  }

  /** The state `login(email)` ends in when the service would answer
      `outcome`: logged in only for an address in the domain that the
      service authorized, with the user it sent back; otherwise an error
      and no user. */
  function LoginState(email: string, outcome: ApiOutcome): (r: LoginUiState)
    ensures !r.isLoading
    ensures r.isLoggedIn <==> EndsWith(email, AllowedDomain) && Authorized(outcome)
    ensures r.isLoggedIn ==> r.user == outcome.body.value.user && r.error.None?
    ensures !r.isLoggedIn ==> r.user.None? && r.error.Some?
    ensures email == [] ==> r.error == Some(EmptyEmailError)
    ensures email != [] && !EndsWith(email, AllowedDomain) ==> r.error == Some(DomainError)
  {
    match PreCheck(email)
    case Some(message) => ErrorState(message)
    case None => ResponseState(outcome)
  }

  /** The domain has no whitespace at either end and no capital letter. */
  lemma DomainShape()
    ensures |AllowedDomain| == 17
    ensures !PdfText.IsWhitespace(AllowedDomain[0]) && !PdfText.IsWhitespace(AllowedDomain[16])
    ensures forall k :: 0 <= k < |AllowedDomain| ==> LowerChar(AllowedDomain[k]) == AllowedDomain[k]
  {
    assert AllowedDomain[0] == '@' && AllowedDomain[16] == 'g';
  }

  /** Trimming keeps a suffix that starts and ends with a non-space. */
  lemma TrimKeepsSuffix(s: string, suffix: string)
    requires EndsWith(s, suffix) && suffix != []
    requires !PdfText.IsWhitespace(suffix[0]) && !PdfText.IsWhitespace(suffix[|suffix| - 1])
    ensures EndsWith(PdfText.Trim(s), suffix)
  {
    var at := |s| - |suffix|;
    assert s[at] == suffix[0] && s[|s| - 1] == suffix[|suffix| - 1];
    var i := PdfText.FirstNonSpace(s);
    assert i <= at;
    var t := PdfText.Trim(s);
    assert t == s[i..];
    assert t[|t| - |suffix|..] == s[at..];
  }

  /** Lower-casing keeps a suffix that lower-casing does not change. */
  lemma LowercaseKeepsSuffix(s: string, suffix: string)
    requires EndsWith(s, suffix)
    requires forall k :: 0 <= k < |suffix| ==> LowerChar(suffix[k]) == suffix[k]
    ensures EndsWith(Lowercase(s), suffix)
  {
    var n := Lowercase(s);
    var at := |s| - |suffix|;
    forall k | 0 <= k < |suffix|
      ensures n[at + k] == suffix[k]
    {
      assert s[at + k] == suffix[k];
    }
    assert n[at..] == suffix;
  }

  /** Lower-casing leaves no capital letter. */
  lemma LowercaseHasNoCapital(s: string)
    ensures forall k :: 0 <= k < |s| ==> !('A' <= Lowercase(s)[k] <= 'Z')
  {
  }

  /** Every address that passes the check reaches the service in the
      domain, in lower case and with no surrounding whitespace. */
  lemma NormalizedInDomain(email: string)
    requires EndsWith(email, AllowedDomain)
    ensures var n := NormalizedEmail(email);
            EndsWith(n, AllowedDomain)
            && (forall k :: 0 <= k < |n| ==> !('A' <= n[k] <= 'Z'))
            && !PdfText.IsWhitespace(n[0]) && !PdfText.IsWhitespace(n[|n| - 1])
  {
    DomainShape();
    var t := PdfText.Trim(email);
    TrimKeepsSuffix(email, AllowedDomain);
    LowercaseKeepsSuffix(t, AllowedDomain);
    LowercaseHasNoCapital(t);
    var n := NormalizedEmail(email);
    LowerKeepsNonSpace(t[0]);
    LowerKeepsNonSpace(t[|t| - 1]);
  }

  /** Lower-casing a character that is not whitespace gives one that is not
      whitespace. */
  lemma LowerKeepsNonSpace(c: char)
    ensures PdfText.IsWhitespace(LowerChar(c)) ==> PdfText.IsWhitespace(c)
  {
  }

  /** The domain check sees the address as typed: an address in the domain
      typed with a trailing space is refused, though the address the service
      would be asked about is in the domain. */
  lemma TrailingSpaceRefused()
    ensures PreCheck("ana@grecmallorca.org ") == Some(DomainError)
    ensures EndsWith(NormalizedEmail("ana@grecmallorca.org "), AllowedDomain)
  {
    var spaced := "ana@grecmallorca.org ";
    assert spaced[|spaced| - |AllowedDomain|..][|AllowedDomain| - 1] == ' ';
    var typed := "ana@grecmallorca.org";
    DomainShape();
    assert spaced == typed + " ";
    assert EndsWith(typed, AllowedDomain);
    assert PdfText.Trim(spaced) == PdfText.Trim(typed) by {
      assert PdfText.FirstNonSpace(spaced) == 0 && PdfText.FirstNonSpace(typed) == 0;
      assert PdfText.LastNonSpaceEnd(spaced, 0, |spaced|) == |typed|;
    }
    NormalizedInDomain(typed);
  }

  // ---------------------------------------------------------------------
  // Sign-in with a Google credential

  /** The Firebase user a credential signed in, as far as the check uses it. */
  datatype FirebaseUser = FirebaseUser(email: Option<string>, displayName: Option<string>)

  /** What `signInWithCredential` answered: a result (whose user may be
      missing) or an exception. */
  datatype GoogleOutcome =
    | SignedIn(firebaseUser: Option<FirebaseUser>)
    | SignInFailure(message: Option<string>)

  /** Whether the Firebase user has an address in the domain. */
  predicate InDomain(u: FirebaseUser)
  {
    u.email.Some? && EndsWith(u.email.value, AllowedDomain)
  }

  /** The state `signInWithGoogleCredential` ends in, and whether it signs
      the Firebase user out again: a user in the domain is logged in, named
      by its display name or else by the text before '@' of its address; a
      user with no address or one outside the domain is signed out and
      refused. */
  function GoogleState(outcome: GoogleOutcome): (r: (LoginUiState, bool))
    ensures !r.0.isLoading
    ensures r.0.isLoggedIn <==> outcome.SignedIn? && outcome.firebaseUser.Some? && InDomain(outcome.firebaseUser.value)
    ensures r.1 <==> outcome.SignedIn? && outcome.firebaseUser.Some? && !InDomain(outcome.firebaseUser.value)
    ensures r.1 ==> r.0.error == Some(DomainError)
    ensures !r.0.isLoggedIn ==> r.0.user.None? && r.0.error.Some?
    ensures r.0.isLoggedIn ==>
              (r.0.error.None? && r.0.user.Some? && r.0.user.value.email == outcome.firebaseUser.value.email.value)
  {
    match outcome
    case SignedIn(firebaseUser) =>
      if firebaseUser.Some? then
        var u := firebaseUser.value;
        if InDomain(u) then
          var email := u.email.value;
          var name := if u.displayName.Some? then u.displayName.value else PdfText.SubstringBefore(email, '@');
          (LoginUiState(false, true, Some(User(email, name)), None), false)
        else (ErrorState(DomainError), true)
      else (ErrorState(NoUserError), false)
    case SignInFailure(message) =>
      (ErrorState("Error de autenticaci\U{F3}n con Google: " + OrNull(message)), false)
  }

  /** A Google user without a display name is named by the local part of
      its address: the text before the address's first '@', which the
      address then continues from. */
  lemma GoogleNameIsLocalPart(email: string)
    requires EndsWith(email, AllowedDomain)
    ensures var outcome := GoogleState(SignedIn(Some(FirebaseUser(Some(email), None))));
            var name := outcome.0.user.value.name;
            outcome.0.isLoggedIn && '@' !in name && |name| < |email|
            && email[..|name|] == name && email[|name|] == '@'
  {
    var name := PdfText.SubstringBefore(email, '@');
    var at := |email| - |AllowedDomain|;
    assert email[at] == '@';
  }

  /** Both ways in apply the same domain rule to the same address: `login`
      passes an address on to the service exactly when a Google account
      with that address is accepted. */
  lemma SameDomainRule(email: string)
    ensures PreCheck(email).None? <==> GoogleState(SignedIn(Some(FirebaseUser(Some(email), None)))).0.isLoggedIn
  {
  }

  /** `LoginViewModel`: the state the screen observes. */
  class LoginViewModel {
    var uiState: LoginUiState

    constructor()
      ensures uiState == InitialUiState
    {
      uiState := InitialUiState;
    }

    /** `login(email)`: refuses an empty address or one outside the domain
        without calling the service; otherwise asks the service about the
        normalized address (returned) and takes its answer `outcome`. */
    method Login(email: string, outcome: ApiOutcome) returns (request: Option<string>)
      modifies this
      ensures request.None? <==> !EndsWith(email, AllowedDomain)
      ensures request.Some? ==> request.value == NormalizedEmail(email)
      ensures uiState == LoginState(email, outcome)
    {
      uiState := LoginUiState(true, false, None, None);
      if |email| == 0 {
        uiState := ErrorState(EmptyEmailError);
        return None;
      }
      if !EndsWith(email, AllowedDomain) {
        uiState := ErrorState(DomainError);
        return None;
      }
      var trimmedEmail := Lowercase(PdfText.Trim(email));
      request := Some(trimmedEmail);
      uiState := ResponseState(outcome);
    }

    /** `signInWithGoogleCredential`: takes the sign-in's answer and reports
        whether the Firebase user was signed out again. */
    method SignInWithGoogleCredential(outcome: GoogleOutcome) returns (signedOut: bool)
      modifies this
      ensures (uiState, signedOut) == GoogleState(outcome)
    {
      uiState := LoginUiState(true, false, None, None);
      var result := GoogleState(outcome);
      uiState := result.0;
      signedOut := result.1;
    }

    /** `clearError`. */
    method ClearError()
      modifies this
      ensures uiState == old(uiState).(error := None)
    {
      uiState := uiState.(error := None);
    }
  }
}
