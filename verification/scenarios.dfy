/**
 Concrete handshakes run through the property lemmas: the header values
 written out byte by byte, and the outcome the middleware reaches.
 */
module Scenarios {
  import opened Words
  import opened Utf8
  import opened Headers
  import opened TokenAuth

  const Alice: User := User(1, true)
  const Bob: User := User(2, false)

  /** Keys "abc" (active owner) and "old" (inactive owner). */
  const Store: TokenStore := map["abc" := Alice, "old" := Bob]

  function ScopeWith(hs: seq<Header>): Scope {
    map["type" := Other("websocket"), "headers" := HeaderList(hs)]
  }

  /** A scope whose second and last header is `authorization: value`. */
  function AuthScope(value: Bytes): Scope {
    ScopeWith([Header(Ascii("host"), Ascii("example.org")), Header(AuthorizationName, value)])
  }

  const Sp: Bytes := [0x20]

  /** `scheme credential`, one byte of whitespace between them. */
  lemma TwoWords(scheme: Bytes, sep: Byte, cred: Bytes)
    requires IsWord(scheme) && IsSpace(sep) && IsWord(cred)
    ensures AuthorizationIs(AuthScope(scheme + [sep] + cred), 1, [[], [sep], []], [scheme, cred])
  {
    var gaps: seq<Bytes>, words := [[], [sep], []], [scheme, cred];
    assert Join(gaps, words) == scheme + [sep] + cred by {
      assert Join(gaps[2..], words[2..]) == [];
      assert Join(gaps[1..], words[1..]) == [sep] + cred;
    }
  }

  /** Three words separated by single spaces. */
  lemma ThreeWords(a: Bytes, b: Bytes, c: Bytes)
    requires IsWord(a) && IsWord(b) && IsWord(c)
    ensures AuthorizationIs(AuthScope(a + Sp + b + Sp + c), 1, [[], Sp, Sp, []], [a, b, c])
  {
    var gaps: seq<Bytes>, words := [[], Sp, Sp, []], [a, b, c];
    assert Join(gaps, words) == a + Sp + b + Sp + c by {
      assert Join(gaps[3..], words[3..]) == [];
      assert Join(gaps[2..], words[2..]) == Sp + c;
      assert Join(gaps[1..], words[1..]) == Sp + b + Sp + c;
    }
  }

  /** A header named `Authorization` is not the one looked up: names are
      compared exactly, so the scope passes through. */
  lemma CapitalisedNameIsNotMatched()
    ensures var s := ScopeWith([Header(Ascii("Authorization"), Ascii("Token abc"))]);
      Authenticate(s, Store) == PassThrough(s)
  {
    var s := ScopeWith([Header(Ascii("Authorization"), Ascii("Token abc"))]);
    assert Ascii("Authorization")[0] != AuthorizationName[0];
    NoAuthorizationPassesThrough(s, Store);
  }

  /** `Basic abc` belongs to another scheme. */
  lemma BasicSchemePassesThrough()
    ensures var s := AuthScope(Ascii("Basic") + Sp + Ascii("abc"));
      Authenticate(s, Store) == PassThrough(s)
  {
    var words := [Ascii("Basic"), Ascii("abc")];
    TwoWords(words[0], 0x20, words[1]);
    assert !MatchesIgnoringCase(words[0], TokenScheme) by {
      assert words[0][0] != TokenScheme[0];
      assert words[0][0] as int != TokenScheme[0] as int - 0x20;
    }
    ForeignSchemePassesThrough(AuthScope(Ascii("Basic") + Sp + Ascii("abc")), Store, 1, [[], Sp, []], words);
  }

  /** `TOKEN abc def` claims the scheme but the credential has a space. */
  lemma UpperCaseSchemeWithSpacesRejected()
    ensures Authenticate(AuthScope(Ascii("TOKEN") + Sp + Ascii("abc") + Sp + Ascii("def")), Store)
      == Rejected(TokenHasSpaces)
  {
    var words := [Ascii("TOKEN"), Ascii("abc"), Ascii("def")];
    ThreeWords(words[0], words[1], words[2]);
    assert MatchesIgnoringCase(words[0], TokenScheme);
    ExtraWordsRejected(AuthScope(words[0] + Sp + words[1] + Sp + words[2]), Store, 1, [[], Sp, Sp, []], words);
  }

  /** `Token` followed by the lone byte 0xFF, which no UTF-8 text contains. */
  lemma InvalidByteRejected()
    ensures Authenticate(AuthScope(Ascii("Token") + Sp + [0xFF]), Store) == Rejected(InvalidSymbols)
  {
    TwoWords(Ascii("Token"), 0x20, [0xFF]);
    DecodeSucceedsIffUtf8([0xFF]);
    InvalidUtf8Rejected(AuthScope(Ascii("Token") + Sp + [0xFF]), Store, 1, [[], Sp, []], [Ascii("Token"), [0xFF]]);
  }

  /** `token abc` with tab separation authenticates the active owner. */
  lemma ActiveKeyAuthenticates()
    ensures var s := AuthScope(Ascii("token") + [0x09] + Ascii("abc"));
      Authenticate(s, Store) == Authenticated(Alice, WithUser(s, Alice))
  {
    TwoWords(Ascii("token"), 0x09, Ascii("abc"));
    EncodeAscii("abc");
    KeyDecides(AuthScope(Ascii("token") + [0x09] + Ascii("abc")), Store, 1,
      [[], [0x09], []], [Ascii("token"), Ascii("abc")], "abc");
  }

  /** As written, the same handshake raises `NameError` before the lookup. */
  lemma ActiveKeyCrashesAsWritten()
    ensures AuthenticateAsWritten(AuthScope(Ascii("token") + [0x09] + Ascii("abc")), Store) == NameErrorRaised
  {
    ActiveKeyAuthenticates();
    AsWrittenNeverResolves(AuthScope(Ascii("token") + [0x09] + Ascii("abc")), Store);
  }

  /** ` Token ` has no credential. */
  lemma SchemeWithoutCredentialRejected()
    ensures Authenticate(AuthScope(Sp + Ascii("Token") + Sp), Store) == Rejected(NoCredentials)
  {
    var words := [Ascii("Token")];
    var gaps := [Sp, Sp];
    assert Join(gaps, words) == Sp + Ascii("Token") + Sp by {
      assert Join(gaps[1..], words[1..]) == Sp;
    }
    SchemeOnlyRejected(AuthScope(Sp + Ascii("Token") + Sp), Store, 1, gaps, words);
  }

  /** `Token zzz` names no token. */
  lemma UnknownKeyRejected()
    ensures Authenticate(AuthScope(Ascii("Token") + Sp + Ascii("zzz")), Store) == Rejected(InvalidToken)
  {
    TwoWords(Ascii("Token"), 0x20, Ascii("zzz"));
    EncodeAscii("zzz");
    assert "zzz" !in Store;
    KeyDecides(AuthScope(Ascii("Token") + Sp + Ascii("zzz")), Store, 1,
      [[], Sp, []], [Ascii("Token"), Ascii("zzz")], "zzz");
  }

  /** `Token old` names a token whose owner is inactive. */
  lemma InactiveOwnerRejected()
    ensures Authenticate(AuthScope(Ascii("Token") + Sp + Ascii("old")), Store) == Rejected(UserInactive)
  {
    TwoWords(Ascii("Token"), 0x20, Ascii("old"));
    EncodeAscii("old");
    KeyDecides(AuthScope(Ascii("Token") + Sp + Ascii("old")), Store, 1,
      [[], Sp, []], [Ascii("Token"), Ascii("old")], "old");
  }
}
