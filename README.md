# Connect+ authentication and page logic, modelled in Dafny

Connect+ is a gamified onboarding platform. This project models its decision logic:

- the backend's `POST /auth/register` and `POST /auth/login` endpoints over the `app_user`
  table, and the token claims `make_token` builds (`AuthApi`, with the UTF-8 encoder of the
  password-length check in `Utf8`);
- the flashcard quiz of the port page: the score, the current icon and the answered icons
  (`Flashcards`);
- the missions page: nine mission cards, the status filter and the start button
  (`MissionBoard`);
- the client-side guards `requireAuth`, `requireAdmin` and `showAdminLink` (`ClientAuth`).

`Results` holds the Option and Result types the others share.

The `app_user` table is a `map` from email to row, held by the class `UserStore`. Its
`Register` method runs the source's checks in the source's order: role, then duplicate
email, then password length. Only after all three pass does it call the hasher and insert
the row. `Login` only reads the table, so it is a function of the table. bcrypt is a
`Hasher` value with two functions, `hash` and `verify`. The model assumes only that a
digest is non-empty and that a password verifies against its own digest (`HasherSound`).
The salt bcrypt draws and the uuid the database generates are parameters. So is the clock,
as real seconds since the epoch, which Python's `int()` truncates toward zero (`Trunc`).

The front-end scripts keep their state in module-level variables and DOM attributes.
Those become the fields of the classes `Quiz` and `Board`, and each handler becomes a
method. Loops that walk the option list, the filter buttons and the cards stay loops. The
guards in `auth.js` only inspect the stored user, so they are functions that return the
navigation or DOM change as an `Action`.

Two details of the code are modelled as written:
- login rejects an empty-string password hash with 401, not only a missing one, because it
  tests `not row.password_hash`;
- the password limit counts the bytes of the UTF-8 encoding, not the characters.

## Model

| member | source | states |
|---|---|---|
| `Utf8.Width` | Connect-Plus/Connect+/backend/app/main.py:89 | a character takes 1 to 4 bytes, and 1 exactly when it is ASCII |
| `Utf8.EncodeChar` | Connect-Plus/Connect+/backend/app/main.py:89 | one character encodes to Width(c) bytes: a lead byte, then only continuation bytes |
| `Utf8.ByteLength` | Connect-Plus/Connect+/backend/app/main.py:89 | the sum of the characters' widths lies between the character count and four times it |
| `Utf8.Encode` | Connect-Plus/Connect+/backend/app/main.py:89 | `password.encode("utf-8")` has exactly ByteLength(password) bytes |
| `Utf8.ByteLengthBounds` | Connect-Plus/Connect+/backend/app/main.py:89 | the byte length equals the character count exactly for all-ASCII text |
| `Utf8.DecodeFirst` | Connect-Plus/Connect+/backend/app/main.py:89 | a decoded character consumes between 1 and 4 of the available bytes |
| `Utf8.DecodeEncode` | Connect-Plus/Connect+/backend/app/main.py:89 | strict UTF-8 decoding gives back the encoded string |
| `Utf8.EncodeDecode` | Connect-Plus/Connect+/backend/app/main.py:89 | every byte sequence the strict decoder accepts is the encoding of what it decodes to |
| `AuthApi.Trunc` | Connect-Plus/Connect+/backend/app/main.py:48-49 | `int()` of a timestamp is the whole number of seconds toward zero |
| `AuthApi.MakeToken` | Connect-Plus/Connect+/backend/app/main.py:43-50 | the claims name the given user id as sub and the given role; from the epoch on, iat is the whole second the clock reading falls in |
| `AuthApi.TokenLifetime` | Connect-Plus/Connect+/backend/app/main.py:43-50 | the claims carry sub = user id and role = role code, and exp - iat = 60 * JWT_EXPIRES_MIN seconds |
| `AuthApi.AuthError.Status` | Connect-Plus/Connect+/backend/app/main.py:79-136 | every failure is a 4xx code: 409 only for a duplicate email, 403 only for a disabled user, 401 only for bad credentials, 400 for an invalid role or an overlong password |
| `AuthApi.AuthError.Detail` | Connect-Plus/Connect+/backend/app/main.py:79-133 | every failure carries a non-empty `detail` message, the Portuguese text of its HTTPException |
| `AuthApi.DetailIdentifiesError` | Connect-Plus/Connect+/backend/app/main.py:79-133 | two failures share a detail message exactly when they are the same failure: the two 400 causes differ, 401 differs from 403, and every 401 cause gets the one message |
| `AuthApi.RoleOf` | Connect-Plus/Connect+/backend/app/main.py:57 | a request without role_code asks for "employee"; otherwise for the role it names |
| `AuthApi.PasswordFits` | Connect-Plus/Connect+/backend/app/main.py:89-90 | the password passes exactly when its UTF-8 byte length, as the sum of character widths, is at most 72 |
| `AuthApi.NewRow` | Connect-Plus/Connect+/backend/app/main.py:92-106 | the inserted row holds the new id and the request's name, email and role, the column default for is_active, and the bcrypt digest of the password; with a sound hasher that digest is usable and the password verifies against it |
| `AuthApi.Respond` | Connect-Plus/Connect+/backend/app/main.py:109-116 | the response carries the token, token_type "bearer", and the row's user id, name, email and role |
| `AuthApi.HasUsableHash` | Connect-Plus/Connect+/backend/app/main.py:129 | a row can log in by password exactly when its hash is present and non-empty, Python's truthiness of `row.password_hash` |
| `AuthApi.PasswordFitsByLength` | Connect-Plus/Connect+/backend/app/main.py:89-90 | any password of at most 18 characters passes the length check, and none of more than 72 does; for ASCII, passing means at most 72 characters |
| `AuthApi.BytesNotCharacters` | Connect-Plus/Connect+/backend/app/main.py:89-90 | a 37-character password of 'é' is rejected: the limit counts bytes, not characters |
| `AuthApi.Login` | Connect-Plus/Connect+/backend/app/main.py:118-145 | unknown email or an empty or missing hash gives 401; otherwise an inactive user gives 403 whatever the password; then a password that does not verify gives 401; success exactly when the user is active and the password verifies; the response echoes the stored row with a token for it, and so, in a table keyed by email, the email signed in with |
| `AuthApi.UnknownEmailLooksLikeWrongPassword` | Connect-Plus/Connect+/backend/app/main.py:129-136 | an unknown email and a wrong password for an active user get the identical answer |
| `AuthApi.LoginAfterRegister` | Connect-Plus/Connect+/backend/app/main.py:92-145 | with the row register inserts in the table, that row's password logs in, returning the new user id, name, email and role |
| `AuthApi.UserStore.constructor` | Connect-Plus/Connect+/backend/app/models.py:13 | the store starts from a table in which every row is filed under its own, unique email |
| `AuthApi.UserStore.Register` | Connect-Plus/Connect+/backend/app/main.py:75-116 | a bad role gives 400 whatever the email; then an existing email gives 409; then more than 72 UTF-8 bytes gives 400; each failure leaves the table untouched and never calls the hasher; success inserts exactly one row under the new email, holding the hash, the role (default "employee") and the new id, and hashes the password once |
| `AuthApi.RegisterThenLogin` | Connect-Plus/Connect+/backend/app/main.py:94-145 | an admissible register followed by a login with the same password both succeed with one user id and one role, and only the new email's row was added |
| `Flashcards.Quiz.constructor` | Connect-Plus/Connect+/porto_gamificado/assets/js/porto.js:1-12 | the page starts with score 0, no current icon, no answered icons |
| `Flashcards.Quiz.ClickIcon` | Connect-Plus/Connect+/porto_gamificado/assets/js/porto.js:14-37 | the clicked icon becomes current, its correct answer, explanation and question are loaded, and the option buttons are exactly its options in order; score and answered icons do not change |
| `Flashcards.Quiz.Validate` | Connect-Plus/Connect+/porto_gamificado/assets/js/porto.js:39-66 | a correct answer adds exactly 10 and adds the current icon to the answered set, which is unchanged if it was already there; a wrong answer changes neither; the score never falls and stays a non-negative multiple of 10 |
| `Flashcards.Quiz.ChooseOption` | Connect-Plus/Connect+/porto_gamificado/assets/js/porto.js:26-30 | an option button validates its own label: a correct label adds exactly 10 and adds the current icon to the answered set (unchanged if it was already there), a wrong one changes neither, and the score never falls |
| `Flashcards.AnswerTwice` | Connect-Plus/Connect+/porto_gamificado/assets/js/porto.js:45-51 | answering one icon correctly twice adds 20 points and marks the icon once |
| `MissionBoard.CatalogueStartsPending` | Connect-Plus/Connect+/js/app.js:6-16 | there are nine missions, with ids M1 to M9 in that order, all "pending" |
| `MissionBoard.Board.constructor` | Connect-Plus/Connect+/js/app.js:23-44 | one card per mission, in list order, each with its mission's id and status |
| `MissionBoard.DisplayFor` | Connect-Plus/Connect+/js/app.js:61-65 | a card is shown ("flex") exactly when it passes the filter, otherwise hidden ("none") |
| `MissionBoard.Visible` | Connect-Plus/Connect+/js/app.js:63 | "all" passes every status; any other filter passes exactly its own status |
| `MissionBoard.Board.ClickFilter` | Connect-Plus/Connect+/js/app.js:54-68 | afterwards exactly the clicked button is highlighted, every card's display follows the filter, and no card's status or mission changes |
| `MissionBoard.Board.Start` | Connect-Plus/Connect+/js/app.js:78-80 | only the clicked card's status changes, to "progress"; starting a card already in progress changes nothing |
| `MissionBoard.Board.Click` | Connect-Plus/Connect+/js/app.js:74-87 | a click outside any start button changes nothing; one inside starts exactly that button's card |
| `ClientAuth.RequireAuth` | Connect-Plus/Connect+/js/auth.js:7-12 | redirects, to "index.html", exactly when no user is stored |
| `ClientAuth.RequireAdmin` | Connect-Plus/Connect+/js/auth.js:14-19 | stays exactly for a user whose role is "admin"; everyone else, including no user, goes to "home.html" |
| `ClientAuth.ShowAdminLink` | Connect-Plus/Connect+/js/auth.js:21-27 | reveals the link exactly when the user is an admin and the page has the link; otherwise nothing happens |
| `ClientAuth.AdminLinkMatchesAdminGuard` | Connect-Plus/Connect+/js/auth.js:14-27 | the link is revealed exactly to the users the admin guard lets stay |
| `ClientAuth.OnlyExactAdminRole` | Connect-Plus/Connect+/js/auth.js:16 | any role string other than exactly "admin" is redirected and gets no link |
| `ClientAuth.AdminGuardStricter` | Connect-Plus/Connect+/js/auth.js:7-19 | a user the admin guard lets stay also passes the sign-in guard |

## Left out

- bcrypt: hashing and verification are the two functions of a `Hasher`. Only non-empty digests and "a password verifies against its own digest" are assumed. Salting, cost and constant-time comparison are not modelled.
- JWT encoding and HS256 signing: the model builds the claim set `{sub, role, iat, exp}` and stops there. Token validation and the Authorization-header helper are not part of this model.
- SQL, sessions and `get_db`: the table is an in-memory map. `db.commit()` is the assignment of the new table.
- The race between the duplicate check and the INSERT: the model is sequential.
- `gen_random_uuid()`: the new id is a parameter. Its uniqueness is not modelled, and neither is a primary-key collision.
- AuthApi.UserStore.Register: the hasher is assumed never to raise. passlib's bcrypt refuses a password containing a NUL character at hash time; register then answers 500 and inserts nothing, where the model promises success for every admissible request.
- AuthApi.Login: the hasher is assumed never to raise. passlib's `verify` raises on a stored hash it cannot identify, so login answers 500 there, where the model answers 401 or success.
- `is_active` is taken to be non-NULL. A NULL value would be falsy in Python and give 403; a `bool` cannot hold it.
- The default of `is_active` for a new row is not in the schema this model has. It is the configuration value `activeByDefault`, and the round trip assumes it is true.
- Pydantic and FastAPI validation (`EmailStr` normalisation, 422 responses), CORS, dotenv, and the `/health` and content endpoints.
- Floating-point rounding of `datetime.timestamp()`: time is an exact real number of seconds.
- TokenLifetime: stated only for a clock reading and an expiry instant both at or after the epoch, where the source's promise holds. A negative JWT_EXPIRES_MIN can put the expiry before the epoch even when the clock is not. Before the epoch, truncation toward zero can put iat and exp one second off the configured lifetime.
- Lone surrogates: they make Python's `encode("utf-8")` raise. A Dafny `char` cannot be a surrogate, so this path is not modelled.
- DOM rendering, CSS classes, the card flip, `setTimeout` feedback, the close buttons and the mobile menu: not modelled. The start button's "Em Progresso" label and style are left out too.
- `JSON.parse`: the options of an icon are taken as already-parsed strings. A non-string option could never `===` the string `data-correta`; that case is not modelled. A malformed `cp_user` item, which makes `getUser` throw, is not modelled either.
- `window.location` navigation: it is the returned `Action`.
- Validate: when no icon is current, the source adds the points and then throws at `iconeAtual.classList`. The model keeps only that state change: the score rises and the answered set stays as it was. The skipped feedback is not modelled.
