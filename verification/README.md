# Token authorization for connection handshakes

This project models `TokenAuthMiddleware`, the middleware that authenticates
a real-time connection from its `Authorization: Token <key>` header before
the connection reaches the next handler. The scope is a map of entries. One
entry, `headers`, is the list of `(name, value)` byte-string pairs. The token
table is a map from key text to the token's owner. One handshake has one of
three outcomes:

- **PassThrough(scope)**: the inner handler gets the scope unchanged. This
  happens when there is no `authorization` pair, when the value is blank, or
  when its first word is not `token` in some mix of cases.
- **Rejected(reason)**: authentication fails and the inner handler is never
  called. The reasons are: the scheme word alone, more than two words,
  a credential that is not UTF-8, an unknown key, or an inactive owner.
- **Authenticated(user, scope')**: the inner handler gets the scope with its
  `user` entry set to the token's owner.

The byte-level steps are modelled on their own:

- `Words.Split` is `bytes.split()`: it splits on runs of the six ASCII
  whitespace bytes and drops empty pieces.
- `Words.Lower` is ASCII-only `bytes.lower()`.
- `Utf8.Decode` is strict UTF-8 decoding, following Table 3-7 of the Unicode
  Standard, section 3.9.
- `Headers.ToDict` is `dict(pairs)`: a later pair with the same name wins.

Each step is tied to an independent description:

- `Split` to reassembly from words and whitespace gaps.
- `Lower` to a letter-by-letter case-insensitive match.
- `Decode` to "is the encoding of some text".
- `ToDict` to "the value of the last pair with that name".

The middleware lemmas then state each branch in those terms.

The inner handler is not a value in the model. An outcome that forwards
carries the one scope the handler is called with, and a rejection carries
none. So "called at most once, and only when not rejected" holds by the
shape of `Outcome` (see `TokenAuth.InnerCall`). `__init__` only stores the
handler, so it has no counterpart.

Two details of the lookup are kept exactly as the code has them:

- The header name is compared exactly with `b"authorization"`, not ignoring
  case (`Scenarios.CapitalisedNameIsNotMatched`).
- The last of several `authorization` pairs decides the outcome.

## Model

| member | source | states |
|---|---|---|
| `Headers.ToDictLastWins` | backend/channelsmiddleware.py:23 | A name is a key of `dict(headers)` iff some pair carries it, and it is bound to the value of the last such pair |
| `Headers.LastPairDecides` | backend/channelsmiddleware.py:23 | The value looked up for a name is that of its last pair, whatever earlier pairs say |
| `Words.WordLength` | backend/channelsmiddleware.py:26 | The longest whitespace-free prefix: every byte before it is non-space, and it ends at the end or at a space |
| `Words.Split` | backend/channelsmiddleware.py:26 | Every piece `split()` returns is non-empty and free of ASCII whitespace |
| `Words.SplitSkipsSpace` | backend/channelsmiddleware.py:26 | Leading whitespace contributes no piece |
| `Words.SplitTakesWord` | backend/channelsmiddleware.py:26 | A word followed by whitespace or by nothing is returned whole as the first piece |
| `Words.SplitJoin` | backend/channelsmiddleware.py:26 | Splitting words joined by whitespace gaps gives back exactly those words |
| `Words.SplitDecomposes` | backend/channelsmiddleware.py:26 | Every byte string is its split words separated, preceded and followed by whitespace gaps |
| `Words.SplitCharacterised` | backend/channelsmiddleware.py:26 | `Split(s) == words` iff the words are non-empty and space-free and `s` is them joined by valid whitespace gaps |
| `Words.LowerMatchesIgnoringCase` | backend/channelsmiddleware.py:27 | Comparing `w.lower()` with a lower-case literal holds iff each byte of `w` is that letter in lower or upper case |
| `Words.LowerIdempotent` | backend/channelsmiddleware.py:27 | Lowercasing twice is lowercasing once |
| `Utf8.DecodeFirst` | backend/channelsmiddleware.py:38 | A decoded leading sequence is 1 to 4 bytes long and lies within the input |
| `Utf8.DecodeFirstConsumesEncoding` | backend/channelsmiddleware.py:38 | The bytes a decoded character consumed are exactly that character's encoding |
| `Utf8.DecodeFirstOfEncoding` | backend/channelsmiddleware.py:38 | Decoding the start of a character's encoding returns that character and its length |
| `Utf8.Decode` | backend/channelsmiddleware.py:37-40 | A successful decode returns a text whose encoding is the input |
| `Utf8.DecodeEncode` | backend/channelsmiddleware.py:38 | Decoding the encoding of any text returns that text |
| `Utf8.DecodeSucceedsIffUtf8` | backend/channelsmiddleware.py:37-40 | Decoding raises no error iff the bytes are the encoding of some text |
| `Utf8.EncodeCharSpace` | backend/channelsmiddleware.py:26 | A character's encoding holds an ASCII whitespace byte iff the character is ASCII whitespace |
| `Utf8.EncodeIsWord` | backend/channelsmiddleware.py:35-38 | A key text encodes to one `split()` word iff it is non-empty and has no ASCII whitespace character |
| `Utf8.EncodeAscii` | backend/channelsmiddleware.py:27 | ASCII text encodes to its own code units, so `"token".encode()` is the literal `b"token"` |
| `TokenAuth.Authenticate` | backend/channelsmiddleware.py:16-57 | A pass-through forwards the input scope itself; success only ever attaches an active owner from the token table, and changes nothing but `user` |
| `TokenAuth.TokenSchemeIsLower` | backend/channelsmiddleware.py:27 | The scheme literal `"token".encode()` consists of lower-case ASCII letters |
| `TokenAuth.AuthorizationWords` | backend/channelsmiddleware.py:23-27 | A last `authorization` pair made of given words is seen as exactly those words, and its scheme test is the case-insensitive match |
| `TokenAuth.NoAuthorizationPassesThrough` | backend/channelsmiddleware.py:23-25 | With no pair named exactly `authorization`, the scope is forwarded unchanged |
| `TokenAuth.ForeignSchemePassesThrough` | backend/channelsmiddleware.py:26-28 | A blank value, or a first word that is not `token` in any case, forwards the scope unchanged with no error |
| `TokenAuth.SchemeOnlyRejected` | backend/channelsmiddleware.py:33-34 | The scheme word alone is rejected for missing credentials |
| `TokenAuth.ExtraWordsRejected` | backend/channelsmiddleware.py:35-36 | More than two words are rejected for spaces, whatever their bytes: the count is checked before decoding |
| `TokenAuth.InvalidUtf8Rejected` | backend/channelsmiddleware.py:37-40 | Two words with a credential that is not UTF-8 are rejected for invalid symbols |
| `TokenAuth.KeyDecides` | backend/channelsmiddleware.py:48-57 | For a well-formed `Token <key>`: an unknown key is rejected as an invalid token, an inactive owner as inactive, and an active owner is authenticated with that scope |
| `TokenAuth.SuccessChangesOnlyUser` | backend/channelsmiddleware.py:57 | The forwarded scope has the input's keys plus `user`; `user` is the owner (any earlier `user` replaced), and every other entry is unchanged |
| `TokenAuth.PassThroughIffNotClaimed` | backend/channelsmiddleware.py:24-28 | The scope passes through iff the last `authorization` pair does not claim the `Token` scheme, so every rejection concerns a `Token` header |
| `TokenAuth.LastAuthorizationDecides` | backend/channelsmiddleware.py:23-57 | Two scopes whose last `authorization` pairs agree, or which both lack one, get the same decision |
| `TokenAuth.ReauthenticationIsStable` | backend/channelsmiddleware.py:57 | Running the middleware on the scope it authenticated gives the same user and the same scope back |
| `TokenAuth.AsWrittenNeverResolves` | backend/channelsmiddleware.py:45 | As written, the outcome matches the corrected one exactly on pass-throughs and header rejections; on every other input it is `NameError` |
| `Scenarios.CapitalisedNameIsNotMatched` | backend/channelsmiddleware.py:24 | A header named `Authorization` with a capital letter is not looked at |
| `Scenarios.BasicSchemePassesThrough` | backend/channelsmiddleware.py:27-28 | `Basic abc` passes through unchanged |
| `Scenarios.UpperCaseSchemeWithSpacesRejected` | backend/channelsmiddleware.py:35-36 | `TOKEN abc def` is rejected for spaces |
| `Scenarios.InvalidByteRejected` | backend/channelsmiddleware.py:37-40 | `Token` followed by the byte 0xFF is rejected for invalid symbols |
| `Scenarios.ActiveKeyAuthenticates` | backend/channelsmiddleware.py:53-57 | `token<TAB>abc`, where `abc` belongs to an active owner, forwards the scope with that owner as `user` |
| `Scenarios.ActiveKeyCrashesAsWritten` | backend/channelsmiddleware.py:45 | As written, that same handshake raises `NameError` |
| `Scenarios.SchemeWithoutCredentialRejected` | backend/channelsmiddleware.py:33-34 | ` Token ` is rejected for missing credentials |
| `Scenarios.UnknownKeyRejected` | backend/channelsmiddleware.py:51-52 | `Token zzz`, with no such key, is rejected as an invalid token |
| `Scenarios.InactiveOwnerRejected` | backend/channelsmiddleware.py:53-54 | `Token old`, whose owner is inactive, is rejected as inactive |

## Left out

- The scope must hold a `headers` entry with a header list (`HasHeaderList`). The transport always supplies one. Without it the code would fail on line 23 with a `KeyError`, not an authentication error, and that failure is not modelled.
- `django.db.close_old_connections()` (line 45) only tidies the database connection pool. The corrected model treats it as a no-op. The code as written is listed under Findings.
- The ORM query on line 50 is replaced by a lookup in a `map<string, User>` token table. Of the user, only `is_active` is modelled.
- The messages of the authentication errors are translated strings. They become the `Reason` values, without their text.
- The inner handler's own result is not modelled. The outcome records only which scope the handler receives.
- Scope entries other than `headers` and `user` are modelled as opaque values and passed along unchanged.
- accounts/forms.py is not modelled. It holds form and field declarations, and its phone-uniqueness check is a database query.
- accounts/utils.py is not modelled. It is a single mail-sending call.
- Asynchronous suspension, cancellation and concurrency are not modelled. The code is synchronous and keeps no shared state of its own.

## Findings

| source | as written | input that shows it | evidently intended | confidence | as-written member | corrected member |
|---|---|---|---|---|---|---|
| backend/channelsmiddleware.py:45 | `django.db.close_old_connections()` is called, but no statement binds the name `django` (line 1 imports only `gettext_lazy as _`). Every header that passes the shape and decoding checks therefore raises `NameError` before the token lookup. | `authorization: token<TAB>abc`, where `abc` is the key of an active user | close stale connections (with `django.db` imported), then look the token up and authenticate | not executed; the name is evidently unbound at line 45 | `TokenAuth.AuthenticateAsWritten`, with `TokenAuth.AsWrittenNeverResolves` and `Scenarios.ActiveKeyCrashesAsWritten` | `TokenAuth.Authenticate`, with `TokenAuth.KeyDecides` and `Scenarios.ActiveKeyAuthenticates` |
