/**
 The token-authorization middleware for connection handshakes: it reads
 the `authorization` header of a connection scope and either hands the
 scope on untouched (no header, or a scheme other than `Token`), rejects
 the connection (malformed `Token` header, unknown token, inactive user),
 or hands on a copy of the scope whose `user` entry is the token's owner.

 The inner handler is not a value here: an outcome that forwards names
 the single scope the inner handler is called with, and a rejection
 forwards nothing.
 */
module TokenAuth {
  import opened Optional
  import opened Words
  import opened Utf8
  import opened Headers

  /** The owner of a token; only the activity flag is consulted. */
  datatype User = User(id: nat, isActive: bool)

  /** The token table: the key text of each token and the token's owner. */
  type TokenStore = map<string, User>

  /** An entry of a connection scope. Entries other than the header list
      and the user are carried along uninterpreted. */
  datatype Value =
    | HeaderList(headers: seq<Header>)
    | Principal(user: User)
    | Other(text: string)

  type Scope = map<string, Value>

  /** The scope has a `headers` entry holding the header pairs, as every
      connection scope the transport builds does. */
  predicate HasHeaderList(scope: Scope) {
    "headers" in scope && scope["headers"].HeaderList?
  }

  function HeadersOf(scope: Scope): seq<Header>
    requires HasHeaderList(scope)
  {
    scope["headers"].headers
  }

  /** Why a `Token` header was refused (the authentication error's message). */
  datatype Reason =
    | NoCredentials    // scheme word only
    | TokenHasSpaces   // more than one word after the scheme
    | InvalidSymbols   // the credential is not valid UTF-8
    | InvalidToken     // no token has that key
    | UserInactive     // the token's owner is deactivated

  datatype Outcome =
    | PassThrough(scope: Scope)
    | Authenticated(user: User, scope: Scope)
    | Rejected(reason: Reason)

  /** The scope the inner handler is called with, once, or None when the
      connection is refused and the handler is never called. */
  function InnerCall(o: Outcome): Option<Scope> {
    match o
    case PassThrough(s) => Some(s)
    case Authenticated(_, s) => Some(s)
    case Rejected(_) => None
  }

  /** `b"authorization"`, compared byte for byte with header names. */
  const AuthorizationName: Bytes := Ascii("authorization")

  /** `"token".encode()`, compared with the lower-cased scheme word. */
  const TokenScheme: Bytes := Ascii("token")

  /** `dict(scope, user=u)`. */
  function WithUser(scope: Scope, u: User): Scope {
    scope["user" := Principal(u)]
  }

  /** What the header checks conclude before the token table is consulted. */
  datatype Screening =
    | NotClaimed            // no header, or another scheme: hand the scope on
    | Malformed(reason: Reason)
    | Credential(key: string)

  /** The header checks: lookup of the last `authorization` pair, split,
      scheme comparison ignoring ASCII case, word count, strict decoding. */
  function Screen(scope: Scope): Screening
    requires HasHeaderList(scope)
  {
    var headers := ToDict(HeadersOf(scope));
    if AuthorizationName !in headers then NotClaimed
    else
      var words := Split(headers[AuthorizationName]);
      if |words| == 0 || Lower(words[0]) != TokenScheme then NotClaimed
      else if |words| == 1 then Malformed(NoCredentials)
      else if |words| > 2 then Malformed(TokenHasSpaces)
      else
        match Decode(words[1])
        case None => Malformed(InvalidSymbols)
        case Some(key) => Credential(key)
  }

  /** The token lookup and the activity check for a decoded key. Closing
      stale database connections before the lookup has no effect on it. */
  function Resolve(scope: Scope, store: TokenStore, key: string): Outcome {
    if key !in store then Rejected(InvalidToken)
    else if !store[key].isActive then Rejected(UserInactive)
    else Authenticated(store[key], WithUser(scope, store[key]))
  }

  /** One handshake through the middleware, against a fixed token table. */
  function Authenticate(scope: Scope, store: TokenStore): (o: Outcome)
    requires HasHeaderList(scope)
    ensures o.PassThrough? ==> o.scope == scope
    ensures o.Authenticated? ==>
      && o.user.isActive
      && o.user in store.Values
      && o.scope == WithUser(scope, o.user)
  {
    match Screen(scope)
    case NotClaimed => PassThrough(scope)
    case Malformed(r) => Rejected(r)
    case Credential(key) => Resolve(scope, store, key)
  }

  /** The middleware as written: the connection clean-up names a module
      that was never imported, so a decoded key raises `NameError`
      instead of reaching the lookup. */
  datatype WrittenOutcome = Completes(outcome: Outcome) | NameErrorRaised

  function AuthenticateAsWritten(scope: Scope, store: TokenStore): WrittenOutcome
    requires HasHeaderList(scope)
  {
    match Screen(scope)
    case NotClaimed => Completes(PassThrough(scope))
    case Malformed(r) => Completes(Rejected(r))
    case Credential(_) => NameErrorRaised
  }

  /** As written, the middleware agrees with the intended one on every
      pass-through and header refusal, but never consults the token table:
      no connection is ever authenticated, and neither an unknown token nor
      an inactive user is ever reported. */
  lemma AsWrittenNeverResolves(scope: Scope, store: TokenStore)
    requires HasHeaderList(scope)
    ensures var o := Authenticate(scope, store);
      (o.PassThrough? || (o.Rejected? && o.reason in {NoCredentials, TokenHasSpaces, InvalidSymbols}))
        <==> AuthenticateAsWritten(scope, store) == Completes(o)
    ensures AuthenticateAsWritten(scope, store) != Completes(Authenticate(scope, store)) ==>
      AuthenticateAsWritten(scope, store) == NameErrorRaised
  {
  }

  /** The letters of the scheme literal are lower-case ASCII letters. */
  lemma TokenSchemeIsLower()
    ensures forall i :: 0 <= i < |TokenScheme| ==> IsLowerLetter(TokenScheme[i])
  {
  }

  /** The last `authorization` pair is `hs[i]`, and its value is the given
      words separated by the given whitespace gaps. */
  predicate AuthorizationIs(scope: Scope, i: int, gaps: seq<Bytes>, words: seq<Bytes>) {
    && HasHeaderList(scope)
    && IsLastNamed(HeadersOf(scope), AuthorizationName, i)
    && ValidGaps(gaps, |words|)
    && AllWords(words)
    && HeadersOf(scope)[i].value == Join(gaps, words)
  }

  /** What the middleware sees of such a header: the value of that pair,
      split into exactly those words, the scheme matched ignoring case. */
  lemma AuthorizationWords(scope: Scope, i: int, gaps: seq<Bytes>, words: seq<Bytes>)
    requires AuthorizationIs(scope, i, gaps, words)
    ensures AuthorizationName in ToDict(HeadersOf(scope))
    ensures Split(ToDict(HeadersOf(scope))[AuthorizationName]) == words
    ensures |words| > 0 ==>
      (Lower(words[0]) == TokenScheme <==> MatchesIgnoringCase(words[0], TokenScheme))
  {
    LastPairDecides(HeadersOf(scope), AuthorizationName, i);
    SplitJoin(gaps, words);
    if |words| > 0 {
      TokenSchemeIsLower();
      LowerMatchesIgnoringCase(words[0], TokenScheme);
    }
  }

  /** Without an `authorization` pair the scope is handed on unchanged. */
  lemma NoAuthorizationPassesThrough(scope: Scope, store: TokenStore)
    requires HasHeaderList(scope)
    requires !HasNamed(HeadersOf(scope), AuthorizationName)
    ensures Authenticate(scope, store) == PassThrough(scope)
  {
    ToDictLastWins(HeadersOf(scope), AuthorizationName);
  }

  /** A blank value, or a first word other than `token` in any case, is
      another scheme's header: the scope is handed on unchanged, no error. */
  lemma ForeignSchemePassesThrough(scope: Scope, store: TokenStore, i: int, gaps: seq<Bytes>, words: seq<Bytes>)
    requires AuthorizationIs(scope, i, gaps, words)
    requires |words| == 0 || !MatchesIgnoringCase(words[0], TokenScheme)
    ensures Authenticate(scope, store) == PassThrough(scope)
  {
    AuthorizationWords(scope, i, gaps, words);
  }

  /** `Token` with no credential is refused. */
  lemma SchemeOnlyRejected(scope: Scope, store: TokenStore, i: int, gaps: seq<Bytes>, words: seq<Bytes>)
    requires AuthorizationIs(scope, i, gaps, words)
    requires |words| == 1 && MatchesIgnoringCase(words[0], TokenScheme)
    ensures Authenticate(scope, store) == Rejected(NoCredentials)
  {
    AuthorizationWords(scope, i, gaps, words);
  }

  /** More than one word after `Token` is refused for spaces, whatever the
      bytes of those words: the count is checked before any decoding. */
  lemma ExtraWordsRejected(scope: Scope, store: TokenStore, i: int, gaps: seq<Bytes>, words: seq<Bytes>)
    requires AuthorizationIs(scope, i, gaps, words)
    requires |words| > 2 && MatchesIgnoringCase(words[0], TokenScheme)
    ensures Authenticate(scope, store) == Rejected(TokenHasSpaces)
  {
    AuthorizationWords(scope, i, gaps, words);
  }

  /** A credential that is not valid UTF-8 is refused. */
  lemma InvalidUtf8Rejected(scope: Scope, store: TokenStore, i: int, gaps: seq<Bytes>, words: seq<Bytes>)
    requires AuthorizationIs(scope, i, gaps, words)
    requires |words| == 2 && MatchesIgnoringCase(words[0], TokenScheme)
    requires !IsUtf8(words[1])
    ensures Authenticate(scope, store) == Rejected(InvalidSymbols)
  {
    AuthorizationWords(scope, i, gaps, words);
    DecodeSucceedsIffUtf8(words[1]);
  }

  /** A well-formed `Token <key>` header is decided by the token table
      alone: an unknown key and an inactive owner are refused; an active
      owner is attached as `user` and the inner handler gets that scope. */
  lemma KeyDecides(scope: Scope, store: TokenStore, i: int, gaps: seq<Bytes>, words: seq<Bytes>, key: string)
    requires AuthorizationIs(scope, i, gaps, words)
    requires |words| == 2 && MatchesIgnoringCase(words[0], TokenScheme)
    requires words[1] == Encode(key)
    ensures key !in store ==> Authenticate(scope, store) == Rejected(InvalidToken)
    ensures key in store && !store[key].isActive ==> Authenticate(scope, store) == Rejected(UserInactive)
    ensures key in store && store[key].isActive ==>
      Authenticate(scope, store) == Authenticated(store[key], WithUser(scope, store[key]))
  {
    AuthorizationWords(scope, i, gaps, words);
    DecodeEncode(key);
  }

  /** On success the forwarded scope is the input scope with `user` set to
      the token's owner: every other entry is kept, an existing `user` is
      replaced, and nothing is added besides `user`. */
  lemma SuccessChangesOnlyUser(scope: Scope, store: TokenStore)
    requires HasHeaderList(scope)
    requires Authenticate(scope, store).Authenticated?
    ensures var o := Authenticate(scope, store);
      && o.scope.Keys == scope.Keys + {"user"}
      && o.scope["user"] == Principal(o.user)
      && forall k :: k in scope && k != "user" ==> o.scope[k] == scope[k]
  {
  }

  /** The last `authorization` pair of `hs` claims the `Token` scheme. */
  ghost predicate ClaimsTokenScheme(hs: seq<Header>) {
    exists i :: IsLastNamed(hs, AuthorizationName, i)
      && |Split(hs[i].value)| > 0
      && MatchesIgnoringCase(Split(hs[i].value)[0], TokenScheme)
  }

  /** The asymmetry between other schemes and a bad `Token` header: the
      scope is handed on untouched exactly when the header does not claim
      the `Token` scheme, so every refusal concerns a `Token` header. */
  lemma PassThroughIffNotClaimed(scope: Scope, store: TokenStore)
    requires HasHeaderList(scope)
    ensures Authenticate(scope, store).PassThrough? <==> !ClaimsTokenScheme(HeadersOf(scope))
  {
    var hs := HeadersOf(scope);
    ToDictLastWins(hs, AuthorizationName);
    TokenSchemeIsLower();
    if AuthorizationName in ToDict(hs) {
      var i :| IsLastNamed(hs, AuthorizationName, i) && ToDict(hs)[AuthorizationName] == hs[i].value;
      var words := Split(hs[i].value);
      if |words| > 0 {
        LowerMatchesIgnoringCase(words[0], TokenScheme);
      }
      if ClaimsTokenScheme(hs) {
        var j :| IsLastNamed(hs, AuthorizationName, j)
          && |Split(hs[j].value)| > 0
          && MatchesIgnoringCase(Split(hs[j].value)[0], TokenScheme);
        assert hs[i].name == hs[j].name;
        assert i == j;
      }
    }
  }

  /** The two header lists agree on their last `authorization` pair:
      neither has one, or both last values are equal. */
  ghost predicate SameLastAuthorization(h1: seq<Header>, h2: seq<Header>) {
    || (!HasNamed(h1, AuthorizationName) && !HasNamed(h2, AuthorizationName))
    || exists i, j :: IsLastNamed(h1, AuthorizationName, i) && IsLastNamed(h2, AuthorizationName, j)
         && h1[i].value == h2[j].value
  }

  /** The decision the middleware takes, without the forwarded scope. */
  datatype Verdict = Anonymous | LoggedIn(user: User) | Refused(reason: Reason)

  function VerdictOf(o: Outcome): Verdict {
    match o
    case PassThrough(_) => Anonymous
    case Authenticated(u, _) => LoggedIn(u)
    case Rejected(r) => Refused(r)
  }

  /** Duplicated headers: the decision depends only on the last
      `authorization` pair, never on earlier ones or on other headers. */
  lemma LastAuthorizationDecides(s1: Scope, s2: Scope, store: TokenStore)
    requires HasHeaderList(s1) && HasHeaderList(s2)
    requires SameLastAuthorization(HeadersOf(s1), HeadersOf(s2))
    ensures VerdictOf(Authenticate(s1, store)) == VerdictOf(Authenticate(s2, store))
  {
    var h1, h2 := HeadersOf(s1), HeadersOf(s2);
    ToDictLastWins(h1, AuthorizationName);
    ToDictLastWins(h2, AuthorizationName);
    if HasNamed(h1, AuthorizationName) || HasNamed(h2, AuthorizationName) {
      var i, j :| IsLastNamed(h1, AuthorizationName, i) && IsLastNamed(h2, AuthorizationName, j)
        && h1[i].value == h2[j].value;
      LastPairDecides(h1, AuthorizationName, i);
      LastPairDecides(h2, AuthorizationName, j);
    }
  }

  /** Running the middleware again on the scope it authenticated gives the
      same user and the same scope: attaching the user is idempotent. */
  lemma ReauthenticationIsStable(scope: Scope, store: TokenStore)
    requires HasHeaderList(scope)
    requires Authenticate(scope, store).Authenticated?
    ensures var o := Authenticate(scope, store);
      HasHeaderList(o.scope) && Authenticate(o.scope, store) == o
  {
  }
}
