/** The wallet sign-in view: four fields (account, connected, authenticated, needs-signup)
    plus the loading flag, driven by connecting the wallet, signing up or logging in with a
    signed message, and logging out. The wallet provider, the signature request and the
    HTTP call are replaced by their outcomes, given as inputs. */
module WalletAuth {
  import opened Wrappers
  import Numerals

  datatype AuthState = AuthState(
    account: string,
    isConnected: bool,
    isAuthenticated: bool,
    loading: bool,
    needsSignup: bool)

  const Initial: AuthState := AuthState("", false, false, false, false)

  /** What `eth_requestAccounts` did: returned a list of accounts, or threw. */
  datatype ConnectOutcome = Accounts(list: seq<string>) | Rejected

  /** `connect`: nothing without a wallet provider; on success the first account (an empty
      account if the list is empty, as `undefined` is) and connected; on failure only loading
      ends. Authentication and sign-up flags are never touched. */
  function Connect(s: AuthState, hasProvider: bool, outcome: ConnectOutcome): (r: AuthState)
    ensures !hasProvider ==> r == s
    ensures hasProvider ==> !r.loading
    ensures hasProvider && outcome.Rejected? ==> r == s.(loading := false)
    ensures hasProvider && outcome.Accounts? ==>
      && r.isConnected
      && (|outcome.list| > 0 ==> r.account == outcome.list[0])
      && (|outcome.list| == 0 ==> r.account == "")
    ensures r.isAuthenticated == s.isAuthenticated && r.needsSignup == s.needsSignup
  {
    if !hasProvider then s
    else
      match outcome
      case Rejected => s.(loading := false)
      case Accounts(list) =>
        var first := if |list| > 0 then list[0] else "";
        s.(account := first, isConnected := true, loading := false)
  }

  datatype Action = SignUp | Login

  /** What the sign-and-submit sequence did: something threw (the signature was refused, the
      request or the JSON decoding failed), or the server answered; `error` is the response's
      `error` field, if any. */
  datatype AuthOutcome = Threw | Responded(ok: bool, error: Option<string>)

  /** `sub` is found in `s` starting at index `i`. */
  predicate OccursAt(s: string, sub: string, i: nat) {
    i + |sub| <= |s| && s[i..i + |sub|] == sub
  }

  /** `s.includes(sub)`: tries `sub` as a prefix of `s`, then of each shorter suffix. */
  predicate Contains(s: string, sub: string)
    ensures Contains(s, sub) <==> exists i | 0 <= i <= |s| :: OccursAt(s, sub, i)
    decreases |s|
  {
    if sub <= s then
      assert OccursAt(s, sub, 0);
      true
    else if |s| == 0 then
      false
    else
      OccursInTail(s, sub);
      Contains(s[1..], sub)
  }

  /** An occurrence in the tail of `s` is an occurrence in `s` one place later, so `s` holds
      `sub` exactly when `sub` is a prefix of `s` or its tail holds `sub`. */
  lemma OccursInTail(s: string, sub: string)
    requires |s| > 0
    ensures (exists i | 0 <= i <= |s| :: OccursAt(s, sub, i)) <==>
      sub <= s || exists i | 0 <= i <= |s[1..]| :: OccursAt(s[1..], sub, i)
  {
    assert OccursAt(s, sub, 0) <==> sub <= s;
    forall i: nat | i < |s|
      ensures OccursAt(s[1..], sub, i) <==> OccursAt(s, sub, i + 1)
    {
      if i + |sub| <= |s| - 1 {
        assert s[1..][i..i + |sub|] == s[i + 1..i + 1 + |sub|];
      }
    }
    if i :| 0 <= i <= |s| && OccursAt(s, sub, i) {
      if i > 0 {
        assert OccursAt(s[1..], sub, i - 1);
      }
    }
  }

  /** The failure that sends the user to sign up: a login answered with an error mentioning
      `not found`. A failed response without an `error` field throws in the source and is
      handled like any other failure. */
  predicate AccountNotFound(action: Action, outcome: AuthOutcome)
    ensures AccountNotFound(action, outcome) ==> !(outcome.Responded? && outcome.ok) && action != SignUp
    ensures AccountNotFound(action, outcome) <==>
      && action == Login && outcome.Responded? && !outcome.ok && outcome.error.Some?
      && exists i | 0 <= i <= |outcome.error.value| :: OccursAt(outcome.error.value, "not found", i)
  {
    && action == Login
    && outcome.Responded? && !outcome.ok
    && outcome.error.Some? && Contains(outcome.error.value, "not found")
  }

  /** `handleAuth(action)`: nothing without an account or a provider; otherwise loading ends,
      a successful login authenticates, a successful sign-up clears the sign-up request
      without authenticating, a login refused with "not found" asks for sign-up, and every
      other failure leaves the flags alone. The account and connection are never touched. */
  function HandleAuth(s: AuthState, action: Action, hasProvider: bool, outcome: AuthOutcome): (r: AuthState)
    ensures s.account == "" || !hasProvider ==> r == s
    ensures s.account != "" && hasProvider ==> !r.loading
    ensures r.account == s.account && r.isConnected == s.isConnected
    ensures r.isAuthenticated <==> s.isAuthenticated || (s.account != "" && hasProvider && action.Login? && outcome.Responded? && outcome.ok)
    ensures s.account != "" && hasProvider && action == SignUp && outcome.Responded? && outcome.ok ==> !r.needsSignup
    ensures s.account != "" && hasProvider && action == Login && outcome.Responded? && outcome.ok ==>
      r.needsSignup == s.needsSignup
    ensures s.account != "" && hasProvider && AccountNotFound(action, outcome) ==> r.needsSignup
    ensures s.account != "" && hasProvider && !(outcome.Responded? && outcome.ok) && !AccountNotFound(action, outcome) ==>
      r.isAuthenticated == s.isAuthenticated && r.needsSignup == s.needsSignup
  {
    if s.account == "" || !hasProvider then s
    else
      var done := s.(loading := false);
      match outcome
      case Threw => done
      case Responded(ok, error) =>
        if ok then
          if action.SignUp? then done.(needsSignup := false) else done.(isAuthenticated := true)
        else if AccountNotFound(action, outcome) then done.(needsSignup := true)
        else done
  }

  /** `logout`: back to no account and all three flags false. */
  function Logout(s: AuthState): (r: AuthState)
    ensures r.account == "" && !r.isConnected && !r.isAuthenticated && !r.needsSignup
    ensures r.loading == s.loading
  {
    s.(account := "", isConnected := false, isAuthenticated := false, needsSignup := false)
  }

  // ---------------------------------------------------------------- signed message

  const SignUpPrefix: string := "Sign up to App\nNonce: "
  const LoginPrefix: string := "Login to App\nNonce: "

  function MessagePrefix(action: Action): string {
    if action == SignUp then SignUpPrefix else LoginPrefix
  }

  /** The message the wallet signs: the action's prefix, then `Date.now()` in decimal with
      no leading zero. */
  function Message(action: Action, now: nat): (m: string)
    ensures |m| > |MessagePrefix(action)|
    ensures m[..|MessagePrefix(action)|] == MessagePrefix(action)
    ensures Numerals.AllDigits(m[|MessagePrefix(action)|..], 10)
    ensures Numerals.Canonical(m[|MessagePrefix(action)|..])
  {
    Numerals.ToRadixCanonical(now, 10);
    var m := MessagePrefix(action) + Numerals.ToRadix(now, 10);
    assert m[|MessagePrefix(action)|..] == Numerals.ToRadix(now, 10);
    m
  }

  /** The rest of a message after `prefix` is a decimal numeral without leading zeros. */
  predicate NumberAfter(m: string, prefix: string) {
    && |m| > |prefix| && m[..|prefix|] == prefix
    && Numerals.AllDigits(m[|prefix|..], 10) && Numerals.Canonical(m[|prefix|..])
  }

  /** Reads a signed message back into its action and timestamp. */
  function ParseMessage(m: string): Option<(Action, nat)> {
    if NumberAfter(m, SignUpPrefix) then
      Some((SignUp, Numerals.FromDigits(m[|SignUpPrefix|..], 10)))
    else if NumberAfter(m, LoginPrefix) then
      Some((Login, Numerals.FromDigits(m[|LoginPrefix|..], 10)))
    else None
  }

  /** The message names its action and timestamp unambiguously. */
  lemma MessageRoundTrip(action: Action, now: nat)
    ensures ParseMessage(Message(action, now)) == Some((action, now))
  {
    var m := Message(action, now);
    var p := MessagePrefix(action);
    assert m[|p|..] == Numerals.ToRadix(now, 10);
    Numerals.FromToRadix(now, 10);
    if action == Login && |m| > |SignUpPrefix| {
      assert m[0] == p[0] == 'L';
      assert m[..|SignUpPrefix|][0] != SignUpPrefix[0];
    }
  }

  /** Conversely, a message that parses is exactly the message signed for what it parses
      to, so the parse pins the whole message. */
  lemma ParseMessageInverse(m: string)
    requires ParseMessage(m).Some?
    ensures m == Message(ParseMessage(m).value.0, ParseMessage(m).value.1)
  {
    var p := MessagePrefix(ParseMessage(m).value.0);
    Numerals.CanonicalToRadix(m[|p|..], 10);
    assert m == m[..|p|] + m[|p|..];
  }

  /** Distinct actions or timestamps sign distinct messages. */
  lemma MessageInjective(a: Action, t: nat, b: Action, u: nat)
    requires Message(a, t) == Message(b, u)
    ensures a == b && t == u
  {
    MessageRoundTrip(a, t);
    MessageRoundTrip(b, u);
  }

  // ---------------------------------------------------------------- view

  datatype View = ConnectView | SignUpView | LoginView | LogoutView

  /** Which panel the page shows. */
  function ViewOf(s: AuthState): (v: View)
    ensures v == ConnectView <==> !s.isConnected
    ensures v == SignUpView <==> s.isConnected && !s.isAuthenticated && s.needsSignup
    ensures v == LoginView <==> s.isConnected && !s.isAuthenticated && !s.needsSignup
    ensures v == LogoutView <==> s.isConnected && s.isAuthenticated
  {
    if !s.isConnected then ConnectView
    else if !s.isAuthenticated then (if s.needsSignup then SignUpView else LoginView)
    else LogoutView
  }

  /** The flags only hold for a connected wallet: an account, authentication or a sign-up
      request all imply a connection. */
  predicate Coherent(s: AuthState) {
    (s.account != "" || s.isAuthenticated || s.needsSignup) ==> s.isConnected
  }

  /** What the user and the wallet can do. */
  datatype Event =
    | ConnectEvent(hasProvider: bool, connectOutcome: ConnectOutcome)
    | AuthEvent(action: Action, withProvider: bool, authOutcome: AuthOutcome)
    | LogoutEvent

  function Step(s: AuthState, e: Event): AuthState {
    match e
    case ConnectEvent(p, o) => Connect(s, p, o)
    case AuthEvent(a, p, o) => HandleAuth(s, a, p, o)
    case LogoutEvent => Logout(s)
  }

  function Run(s: AuthState, events: seq<Event>): AuthState
    decreases |events|
  {
    if |events| == 0 then s else Run(Step(s, events[0]), events[1..])
  }

  /** Every state reachable from the initial one is coherent. */
  lemma {:induction false} RunKeepsCoherent(s: AuthState, events: seq<Event>)
    requires Coherent(s)
    ensures Coherent(Run(s, events))
    decreases |events|
  {
    if |events| > 0 {
      RunKeepsCoherent(Step(s, events[0]), events[1..]);
    }
  }

  /** Logging out from anywhere shows the connect panel again, and logging out twice is the
      same as once. */
  lemma LogoutResets(s: AuthState)
    ensures ViewOf(Logout(s)) == ConnectView
    ensures Logout(Logout(s)) == Logout(s)
    ensures Logout(s) == Initial.(loading := s.loading)
  {
  }

  /** From the login panel: success shows the logout panel; "not found" shows the sign-up
      panel; any other failure stays on the login panel. */
  lemma LoginPanelOutcomes(s: AuthState, outcome: AuthOutcome)
    requires ViewOf(s) == LoginView && s.account != ""
    ensures outcome.Responded? && outcome.ok ==> ViewOf(HandleAuth(s, Login, true, outcome)) == LogoutView
    ensures AccountNotFound(Login, outcome) ==> ViewOf(HandleAuth(s, Login, true, outcome)) == SignUpView
    ensures !(outcome.Responded? && outcome.ok) && !AccountNotFound(Login, outcome) ==>
      ViewOf(HandleAuth(s, Login, true, outcome)) == LoginView
  {
  }

  /** From the sign-up panel: success returns to the login panel without authenticating;
      failure stays on the sign-up panel. */
  lemma SignUpPanelOutcomes(s: AuthState, outcome: AuthOutcome)
    requires ViewOf(s) == SignUpView && s.account != ""
    ensures outcome.Responded? && outcome.ok ==> ViewOf(HandleAuth(s, SignUp, true, outcome)) == LoginView
    ensures !(outcome.Responded? && outcome.ok) ==> ViewOf(HandleAuth(s, SignUp, true, outcome)) == SignUpView
  {
  }

  /** A worked run: connect, a login refused as "User not found", sign up, log in. */
  lemma SignUpThenLoginScenario(addr: string)
    requires addr != ""
    ensures
      var s1 := Connect(Initial, true, Accounts([addr]));
      var s2 := HandleAuth(s1, Login, true, Responded(false, Some("User not found")));
      var s3 := HandleAuth(s2, SignUp, true, Responded(true, None));
      var s4 := HandleAuth(s3, Login, true, Responded(true, None));
      && ViewOf(s1) == LoginView && ViewOf(s2) == SignUpView
      && ViewOf(s3) == LoginView && ViewOf(s4) == LogoutView && s4.account == addr
  {
  }
}
