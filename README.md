# Authentication back end of alx-backend-user-data, in Dafny

This project models, and proves properties of, the authentication core of the
alx-backend-user-data exercises:

- **Base API `Auth`** (module `ApiAuth`, both `auth.py` files). It decides
  whether a request path needs authentication. It compares the path, with a
  `/` appended, against the `fnmatch` patterns of excluded paths (module
  `Glob`). It also reads the `Authorization` header and the session cookie.
- **`BasicAuth`** (module `BasicAuth`). It is the pipeline from an
  `Authorization: Basic <base64>` header to a user: strip the scheme, decode
  base 64 (module `Base64`, RFC 4648 section 4) and UTF-8 (module `Utf8`,
  RFC 3629), split at the first colon, then look up the user by email and
  check the password. User rows are `Users.User` in a user table that is
  either loaded or not loaded.
- **`SessionAuth`** (class `SessionStore.SessionAuth`). It keeps a map from
  session id to user id and supports create, lookup, current user and
  logout.
- **`SessionExpAuth`** (class `SessionExpiry.SessionExpAuth`). Each session
  record holds `{user_id, created_at}`. The session lifetime is read from the
  `SESSION_DURATION` setting with Python's `int()` (module `PyInt`); a
  setting that `int()` rejects counts as 0. A positive lifetime makes a
  lookup lazily report a session absent once `created_at + duration < now`.
- **`SessionDBAuth`** (class `SessionDb.SessionDBAuth`). Sessions are
  `UserSession` records in a record store. A lookup reads the first record
  with the id, and logout removes that record. This layer has no
  "duration <= 0 never expires" branch. Under the default duration 0, a
  session is therefore valid only until the clock passes its creation time.
  The model keeps this behaviour as written; `SessionDb.ZeroDurationExpiresAtOnce`
  states it.
- **The user-authentication service `Auth`** (class `UserAuthService.Auth`).
  It covers registration, login check, session id set and clear, lookup by
  session id, and password reset with a token. It runs over a `users` table
  whose row ids are assigned 1, 2, ... in insertion order.
- **`filter_datum`** (module `FilteredLogger`). It redacts
  `field=value<separator>` in a log line. The regular expression
  `field=.*?separator` and `re.sub`'s scan are modelled exactly for this
  pattern: the lazy value stops at the first separator and never crosses a
  line break.
- **Password hashing** (module `Credentials`) is an ideal verifier. The
  model assumes, rather than proves, that bcrypt accepts exactly the password
  that was hashed (for passwords within bcrypt's 72-byte limit).

Several inputs of the original become plain arguments:
- clock readings are the integer `now`, in seconds;
- fresh `uuid4` values are `newId` and `newToken`;
- bcrypt salts are `salt`;
- environment settings are `Option<string>`, None when unset.

A Python `None` is `Option.None`. A Python exception is a `Result.Failure`
or an absent value.

## Model

| member | source | states |
|---|---|---|
| ApiAuth.NormalizePath | 0x02-Session_authentication/api/v1/auth/auth.py:17-18 | the result ends in `/`, extends the path by at most that one character, and leaves a path already ending in `/` unchanged |
| ApiAuth.MatchingPatterns | 0x02-Session_authentication/api/v1/auth/auth.py:19 | a pattern is in the comprehension's list iff it is an excluded pattern that matches the path |
| ApiAuth.RequireAuth | 0x01-Basic_authentication/api/v1/auth/auth.py:12-18 | authentication is required for a missing or empty path or an empty exclusion list; it is not required exactly when the slash-terminated path matches some excluded pattern |
| ApiAuth.RequireAuthIgnoresOrder | 0x02-Session_authentication/api/v1/auth/auth.py:13-19 | reordering the excluded patterns never changes the answer |
| ApiAuth.StatusPathIsExcluded | 0x02-Session_authentication/api/v1/auth/auth.py:15-19 | `/api/v1/status` is exempted by the entry `/api/v1/status/`, since a slash is appended first |
| ApiAuth.StarSuffixExcludes | 0x02-Session_authentication/api/v1/auth/auth.py:19 | a pattern ending in `*` (`/api/v1/stat*`) exempts `/api/v1/stats` |
| ApiAuth.IsExcluded | 0x02-Session_authentication/api/v1/auth/auth.py:17-19 | a lone `*` among the excluded patterns exempts every path; an empty list exempts none |
| ApiAuth.StatusStarPattern | 0x02-Session_authentication/api/v1/auth/auth.py:19 | `/api/v1/status/*` exempts `/api/v1/status/` but not `/api/v1/users/` |
| ApiAuth.StatusStarMatches | 0x02-Session_authentication/api/v1/auth/auth.py:17-19 | a slash-terminated path is exempted by `/api/v1/status/*` exactly when it starts with `/api/v1/status/` |
| ApiAuth.SinglePattern | 0x02-Session_authentication/api/v1/auth/auth.py:15-19 | with one excluded pattern, a non-empty path needs authentication exactly when the pattern does not match the slash-terminated path |
| ApiAuth.AuthorizationHeader | 0x02-Session_authentication/api/v1/auth/auth.py:21-25 | no request gives no header; otherwise the result is present iff the request has an `Authorization` header, and it is that header's value |
| ApiAuth.SessionCookie | 0x02-Session_authentication/api/v1/auth/auth.py:31-35 | no request or no configured cookie name gives no cookie; otherwise the value of the cookie with that name, if present |
| ApiAuth.CurrentUser | 0x01-Basic_authentication/api/v1/auth/auth.py:26-28 | the base class never authenticates a user |
| Glob.FixedWidth | 0x02-Session_authentication/api/v1/auth/auth.py:19 | the number of characters a pattern consumes outside `*` is at most its length, and all of it for a literal |
| Glob.Matches | 0x02-Session_authentication/api/v1/auth/auth.py:19 | a name that `fnmatch` accepts is at least as long as the pattern's fixed part (the characters outside `*`) |
| Glob.LiteralMatchesItself | 0x02-Session_authentication/api/v1/auth/auth.py:19 | a pattern without wildcards matches a name iff the name equals it |
| Glob.StarMatchesAll | 0x02-Session_authentication/api/v1/auth/auth.py:19 | `*` matches every name |
| Glob.NoStarMatches | 0x02-Session_authentication/api/v1/auth/auth.py:19 | a pattern without `*` matches exactly the names of its length that agree with it at every position not holding `?` |
| Glob.PrefixStar | 0x02-Session_authentication/api/v1/auth/auth.py:19 | `literal*` matches a name iff the name starts with the literal |
| BasicAuth.ExtractBase64AuthorizationHeader | 0x01-Basic_authentication/api/v1/auth/basic_auth.py:13-20 | present iff the header starts with `Basic `; then the header is `Basic ` followed by the result |
| BasicAuth.DecodeBase64AuthorizationHeader | 0x01-Basic_authentication/api/v1/auth/basic_auth.py:22-32 | absent for a missing or empty value; a non-empty value gives a result exactly when its base 64 decoding is the UTF-8 encoding of some text, and the result is that text |
| BasicAuth.DecodesEncodedText | 0x01-Basic_authentication/api/v1/auth/basic_auth.py:22-32 | any non-empty text, UTF-8 encoded and then base 64 encoded, decodes back to itself |
| BasicAuth.SplitColons | 0x01-Basic_authentication/api/v1/auth/basic_auth.py:41 | `split(':')` gives at least one piece; the first piece holds no colon; there are two or more pieces iff the text holds a colon |
| BasicAuth.JoinColons | 0x01-Basic_authentication/api/v1/auth/basic_auth.py:43 | `':'.join` of no pieces is empty; otherwise it starts with the first piece, followed by a colon when more pieces follow |
| BasicAuth.JoinSplit | 0x01-Basic_authentication/api/v1/auth/basic_auth.py:41-43 | `':'.join` of the pieces of `split(':')` gives the text back |
| BasicAuth.ExtractUserCredentials | 0x01-Basic_authentication/api/v1/auth/basic_auth.py:34-44 | both parts are absent iff the input is missing, empty or colon-free; otherwise the email holds no colon and email + `:` + password is the input |
| BasicAuth.ColonSplitIsUnique | 0x01-Basic_authentication/api/v1/auth/basic_auth.py:41-44 | there is one way to write a text as a colon-free email, a colon and a password, so the split recovers exactly the pair that was joined |
| BasicAuth.UserObjectFromCredentials | 0x01-Basic_authentication/api/v1/auth/basic_auth.py:46-59 | a user is returned iff both inputs are non-empty, the table is loaded, and the first user with that email accepts the password; that user is the result |
| BasicAuth.FirstIsUnique | 0x01-Basic_authentication/api/v1/auth/basic_auth.py:54-59 | at most one row is the first with a given email, so `user[0]` is well defined |
| BasicAuth.CredentialsAreUnique | 0x01-Basic_authentication/api/v1/auth/basic_auth.py:61-66 | a request's header decodes to at most one colon-free email and password, and `extract_user_credentials` returns exactly that pair |
| BasicAuth.CurrentUser | 0x01-Basic_authentication/api/v1/auth/basic_auth.py:61-67 | no user without an `Authorization` header, without the `Basic ` scheme, or when base 64 or UTF-8 decoding fails; a user is returned iff the header decodes to `email:password` with both parts non-empty, the table is loaded and the first user with that email accepts the password, and then it is that user |
| BasicAuth.CurrentUserOfEncodedCredentials | 0x01-Basic_authentication/api/v1/auth/basic_auth.py:61-67 | for the header `Basic ` + base64(utf8(email:password)), the first user with that email is returned exactly when the password is right for that user, and no one otherwise |
| Base64.Value | 0x01-Basic_authentication/api/v1/auth/basic_auth.py:29 | a character has a sextet value only if it is that value's alphabet digit; the pad `=` has none |
| Base64.ValueOfDigit | 0x01-Basic_authentication/api/v1/auth/basic_auth.py:29 | each of the 64 digits decodes to the value it encodes |
| Base64.Encode | 0x01-Basic_authentication/api/v1/auth/basic_auth.py:29 | the encoding is a whole number of 4-character groups, and empty exactly for empty input |
| Base64.DecodeFullGroup | 0x01-Basic_authentication/api/v1/auth/basic_auth.py:29 | an unpadded group decodes to three octets iff all four characters are alphabet digits |
| Base64.DecodeLastGroup | 0x01-Basic_authentication/api/v1/auth/basic_auth.py:29 | the final group decodes to one to three octets |
| Base64.Decode | 0x01-Basic_authentication/api/v1/auth/basic_auth.py:29 | only text whose length is a multiple of 4 decodes |
| Base64.OneOctetRoundTrip | 0x01-Basic_authentication/api/v1/auth/basic_auth.py:29 | a final group with two pads decodes to its one octet |
| Base64.TwoOctetsRoundTrip | 0x01-Basic_authentication/api/v1/auth/basic_auth.py:29 | a final group with one pad decodes to its two octets |
| Base64.FullGroupRoundTrip | 0x01-Basic_authentication/api/v1/auth/basic_auth.py:29 | a full group decodes to its three octets |
| Base64.DecodeEncode | 0x01-Basic_authentication/api/v1/auth/basic_auth.py:29 | decoding the encoding of any octet string gives it back |
| Base64.ForeignCharRejected | 0x01-Basic_authentication/api/v1/auth/basic_auth.py:29-32 | under the strict decoder of this model, text holding a character outside the alphabet and `=` does not decode (Python's lenient decoder differs, see Left out) |
| Utf8.EncodeChar | 0x01-Basic_authentication/api/v1/auth/basic_auth.py:29-30 | a code point takes one to four bytes, and one byte iff it is ASCII |
| Utf8.Encode | 0x01-Basic_authentication/api/v1/auth/basic_auth.py:29-30 | the encoding has between one and four bytes per character |
| Utf8.DecodeFirst | 0x01-Basic_authentication/api/v1/auth/basic_auth.py:29-31 | a decoded character consumes one to four bytes of the input |
| Utf8.Decode | 0x01-Basic_authentication/api/v1/auth/basic_auth.py:29-31 | decoded text is no longer than its bytes |
| Utf8.DecodeEncodedChar | 0x01-Basic_authentication/api/v1/auth/basic_auth.py:29-30 | the bytes of one character, followed by anything, decode to that character and consume its bytes |
| Utf8.DecodedCharReencodes | 0x01-Basic_authentication/api/v1/auth/basic_auth.py:29-31 | a character accepted by the strict decoder re-encodes to exactly the bytes it consumed, so overlong forms and surrogates are rejected |
| Utf8.DecodeEncode | 0x01-Basic_authentication/api/v1/auth/basic_auth.py:29-30 | decoding the UTF-8 encoding of any text gives it back |
| Utf8.EncodedBytesDecode | 0x01-Basic_authentication/api/v1/auth/basic_auth.py:29-31 | bytes that encode some text never fail to decode |
| Utf8.EncodeDecode | 0x01-Basic_authentication/api/v1/auth/basic_auth.py:29-31 | bytes that decode are exactly the encoding of what they decode to (`UnicodeDecodeError` otherwise) |
| Users.WithEmail | 0x01-Basic_authentication/api/v1/auth/basic_auth.py:54 | the search result holds exactly the users with that email, and its first element is the first such row |
| Users.Search | 0x01-Basic_authentication/api/v1/auth/basic_auth.py:53-56 | no result iff the table was never loaded (the `KeyError` path); otherwise exactly the users with that email |
| Users.FindById | 0x02-Session_authentication/api/v1/auth/session_auth.py:33 | the user with that id, or none iff no user has it |
| Users.Get | 0x02-Session_authentication/api/v1/auth/session_auth.py:33 | a loaded table and a present id give the user with that id; otherwise none |
| Credentials.HashPassword | 0x00-personal_data/encrypt_password.py:7-9 | the hash is made with the given salt and the verifier accepts the hashed password |
| Credentials.VerifierAcceptsOnlyItsPassword | 0x00-personal_data/encrypt_password.py:12-14 | `checkpw` accepts exactly the password that was hashed (under the ideal verifier, see Left out for bcrypt's 72-byte limit); different salts give different hashes |
| PyInt.Strip | 0x02-Session_authentication/api/v1/auth/session_exp_auth.py:15 | the result is no longer than the input and neither starts nor ends with whitespace; text already without surrounding whitespace is kept |
| PyInt.StripTrims | 0x02-Session_authentication/api/v1/auth/session_exp_auth.py:15 | the stripped text is a contiguous slice `s[i..j]` of the input, and everything before `i` and from `j` on is whitespace |
| PyInt.Parse | 0x02-Session_authentication/api/v1/auth/session_exp_auth.py:15 | blank text is rejected; an accepted text starts, after stripping, with a digit or a sign, and a negative value with `-` |
| PyInt.ParseIgnoresSurroundingSpace | 0x02-Session_authentication/api/v1/auth/session_exp_auth.py:15 | a whitespace character added before or after the text does not change what `int()` reads |
| PyInt.Format | 0x02-Session_authentication/api/v1/auth/session_exp_auth.py:15 | `str(n)` is non-empty, starts with `-` exactly for a negative number, and is decimal digits after that |
| PyInt.Digits | 0x02-Session_authentication/api/v1/auth/session_exp_auth.py:15 | the decimal numeral of a number is non-empty and all digits |
| PyInt.DigitsValueOfDigits | 0x02-Session_authentication/api/v1/auth/session_exp_auth.py:15 | the value of a number's numeral is that number |
| PyInt.ParseFormat | 0x02-Session_authentication/api/v1/auth/session_exp_auth.py:15 | `int()` reads back any integer written in decimal, sign included |
| SessionStore.Lookup | 0x02-Session_authentication/api/v1/auth/session_auth.py:21-25 | present iff the session id is non-empty and stored; then it is the stored value |
| SessionStore.SessionAuth.constructor | 0x02-Session_authentication/api/v1/auth/session_auth.py:11 | the store starts empty, with the configured cookie name |
| SessionStore.SessionAuth.CreateSession | 0x02-Session_authentication/api/v1/auth/session_auth.py:13-19 | a missing or empty user id creates nothing; otherwise the fresh id is returned and maps to the user id, with every other entry unchanged; stored user ids stay non-empty |
| SessionStore.SessionAuth.UserIdForSessionId | 0x02-Session_authentication/api/v1/auth/session_auth.py:21-25 | present iff the id is non-empty and stored, and then it is the stored user id |
| SessionStore.SessionAuth.CurrentUser | 0x02-Session_authentication/api/v1/auth/session_auth.py:27-33 | a user is returned only for a stored session named by the cookie, and it is the user with the stored id; no cookie gives no user; conversely, a stored session whose user id a loaded table holds yields that user |
| SessionStore.SessionAuth.DestroySession | 0x02-Session_authentication/api/v1/auth/session_auth.py:35-43 | logout succeeds iff the cookie names a stored session; then exactly that entry is removed, and otherwise nothing changes |
| SessionStore.LoginLogoutTwice | 0x02-Session_authentication/api/v1/auth/session_auth.py:13-43 | after a login, a first logout with its cookie succeeds and a second one fails, leaving the session gone |
| SessionExpiry.SessionDuration | 0x02-Session_authentication/api/v1/auth/session_exp_auth.py:12-17 | an unset setting or one `int()` rejects gives 0; otherwise the parsed number |
| SessionExpiry.ConfiguredDurationIsRead | 0x02-Session_authentication/api/v1/auth/session_exp_auth.py:14-15 | a duration written in decimal is read back as that number |
| SessionExpiry.MalformedDurationIsZero | 0x02-Session_authentication/api/v1/auth/session_exp_auth.py:16-17 | the settings `1h` and the empty text give duration 0 |
| SessionExpiry.ExpLookup | 0x02-Session_authentication/api/v1/auth/session_exp_auth.py:28-43 | present iff the id is non-empty and stored, the record has a user id, and either the duration is not positive or the record has a creation time that has not expired; then it is the record's user id |
| SessionExpiry.NoDurationNeverExpires | 0x02-Session_authentication/api/v1/auth/session_exp_auth.py:35-36 | with no positive duration a stored session resolves to its user id at any time |
| SessionExpiry.ValidUntilDeadline | 0x02-Session_authentication/api/v1/auth/session_exp_auth.py:37-43 | with duration D > 0 a session created at t0 resolves exactly while now <= t0 + D |
| SessionExpiry.MissingCreationTimeIsAbsent | 0x02-Session_authentication/api/v1/auth/session_exp_auth.py:37-39 | with a positive duration a record without `created_at` never resolves |
| SessionExpiry.SessionExpAuth.constructor | 0x02-Session_authentication/api/v1/auth/session_exp_auth.py:12-17 | the duration is the one read from the setting, and the store starts empty |
| SessionExpiry.SessionExpAuth.CreateSession | 0x02-Session_authentication/api/v1/auth/session_exp_auth.py:19-26 | a missing or empty user id creates nothing; otherwise the fresh id maps to `{user_id, created_at: now}`, with other entries unchanged |
| SessionExpiry.SessionExpAuth.UserIdForSessionId | 0x02-Session_authentication/api/v1/auth/session_exp_auth.py:28-43 | the expiring lookup on the object's map and duration: a present result comes from a stored record of a non-empty id and is its user id; on a valid store, a stored record that has not expired (or any record when the duration is not positive) resolves to its user id |
| SessionExpiry.SessionExpAuth.CurrentUser | 0x02-Session_authentication/api/v1/auth/session_auth.py:27-33 | a returned user has the id the cookie's session resolves to at `now`; conversely, when that id resolves and a loaded table holds a user with it, that user is returned |
| SessionExpiry.SessionExpAuth.DestroySession | 0x02-Session_authentication/api/v1/auth/session_auth.py:35-43 | logout succeeds iff the cookie's session resolves at `now`, and then removes exactly that entry; an expired session is left stored |
| SessionExpiry.ExpiredLogout | 0x02-Session_authentication/api/v1/auth/session_exp_auth.py:40-42 | one second past its lifetime a session resolves to nothing, cannot be logged out, and stays stored |
| SessionDb.FirstWithSessionId | 0x02-Session_authentication/api/v1/auth/session_db_auth.py:28-32 | the index of the first record with the id; none iff no record has it |
| SessionDb.DbLookup | 0x02-Session_authentication/api/v1/auth/session_db_auth.py:22-38 | present iff the id is non-empty, some record has it, and the first such record has not expired; then it is that record's user id |
| SessionDb.ZeroDurationExpiresAtOnce | 0x02-Session_authentication/api/v1/auth/session_db_auth.py:34-36 | with duration 0 a record no longer resolves once the clock has passed its creation time |
| SessionDb.LookupUsesFirstRecord | 0x02-Session_authentication/api/v1/auth/session_db_auth.py:28-32 | records added after the first one with an id do not change its lookup |
| SessionDb.FirstIsStableUnderAppend | 0x02-Session_authentication/api/v1/auth/session_db_auth.py:28-32 | appending a record keeps the first record with an id already present |
| SessionDb.FreshRecordIsFirst | 0x02-Session_authentication/api/v1/auth/session_db_auth.py:16-19 | a record saved under a fresh id is the first with that id |
| SessionDb.SessionDBAuth.constructor | 0x02-Session_authentication/api/v1/auth/session_exp_auth.py:12-17 | the duration is read from the setting; there are no sessions and no records |
| SessionDb.SessionDBAuth.CreateSession | 0x02-Session_authentication/api/v1/auth/session_db_auth.py:11-20 | a missing or empty user id creates nothing; otherwise exactly one record `(user_id, new id, now)` is appended and the inherited map gains the new id |
| SessionDb.SessionDBAuth.UserIdForSessionId | 0x02-Session_authentication/api/v1/auth/session_db_auth.py:22-38 | the record lookup on the object's records and duration: a present result is the user id of a record holding that session id; the first record with a non-empty id that has not expired resolves to its user id |
| SessionDb.SessionDBAuth.CurrentUser | 0x02-Session_authentication/api/v1/auth/session_auth.py:27-33 | a returned user has the id the cookie's session resolves to through the records; conversely, when that id resolves and a loaded table holds a user with it, that user is returned |
| SessionDb.SessionDBAuth.DestroySession | 0x02-Session_authentication/api/v1/auth/session_db_auth.py:40-52 | logout succeeds iff the cookie's session resolves at `now`; then exactly the first record with that id is removed and the others keep their order; the map is untouched |
| SessionDb.LoginLogoutTwice | 0x02-Session_authentication/api/v1/auth/session_db_auth.py:11-52 | within a session's lifetime, a first logout removes its record and a second one fails |
| UserAuthService.ValidLoginOn | 0x03-user_authentication_service/auth.py:39-45 | login succeeds iff the first row with that email accepts the password |
| UserAuthService.FindUserBy | 0x03-user_authentication_service/auth.py:32 | the first row matching the filter; none (`NoResultFound`) iff no row matches |
| UserAuthService.SameMatchesSameFind | 0x03-user_authentication_service/auth.py:88-90 | changing columns the filter does not read keeps the filter's first match |
| UserAuthService.AddedRowIsFound | 0x03-user_authentication_service/auth.py:34 | a row added under a key no earlier row has is what the lookup finds |
| UserAuthService.RegisteredUserLogsIn | 0x03-user_authentication_service/auth.py:29-45 | after registering an email with a password, login with that email succeeds exactly for that password (under the ideal verifier, see Left out) |
| UserAuthService.ResetTokenIsSingleUse | 0x03-user_authentication_service/auth.py:82-90 | after a token held by one row is used, no row holds it |
| UserAuthService.Auth.constructor | 0x03-user_authentication_service/auth.py:25-27 | the service starts with an empty table |
| UserAuthService.Auth.RegisterUser | 0x03-user_authentication_service/auth.py:29-37 | a taken email raises `ValueError` and changes nothing; otherwise exactly one row is appended with the next id, the email and a hash of the password; ids stay positional and emails unique |
| UserAuthService.Auth.ValidLogin | 0x03-user_authentication_service/auth.py:39-45 | an unknown email never logs in; a successful login means a row with that email accepts the password; with emails unique, login succeeds iff the row with that email accepts the password |
| UserAuthService.Auth.CreateSession | 0x03-user_authentication_service/auth.py:47-55 | an unknown email gives none and changes nothing; otherwise the fresh id is returned and set on that user's row only |
| UserAuthService.Auth.GetUserFromSessionId | 0x03-user_authentication_service/auth.py:57-65 | a missing or empty id finds no one; a found user is the first row holding that session id; none is found only when no user holds it |
| UserAuthService.Auth.DestroySession | 0x03-user_authentication_service/auth.py:67-70 | a falsy id does nothing; a known id clears that user's session only; an unknown id raises `NoResultFound` and changes nothing |
| UserAuthService.Auth.GetResetPasswordToken | 0x03-user_authentication_service/auth.py:72-80 | an unknown email raises `ValueError` and changes nothing; otherwise the fresh token is returned and set on that user's row only |
| UserAuthService.Auth.UpdatePassword | 0x03-user_authentication_service/auth.py:82-90 | an unknown token raises `ValueError` and changes nothing; otherwise the first row holding it has its hash replaced by a hash of the new password and its token cleared, with no other row touched; a None token selects the first row holding no token |
| UserAuthService.ResetPasswordFlow | 0x03-user_authentication_service/auth.py:72-90 | a fresh reset token resets the password once, the new password then logs in, and a second use of the token raises `ValueError` |
| FilteredLogger.ValueLength | 0x00-personal_data/filtered_logger.py:26-28 | the lazy `.*?` stops at the first separator that no line break precedes; none when a line break or the end comes first |
| FilteredLogger.MatchLength | 0x00-personal_data/filtered_logger.py:26-28 | a match starts with `field=` and a separator follows before any line break; it ends just after that first separator |
| FilteredLogger.FilterDatum | 0x00-personal_data/filtered_logger.py:18-31 | the result is the message after each field's substitution, applied in list order; no fields leave the message unchanged |
| FilteredLogger.Redact | 0x00-personal_data/filtered_logger.py:26-30 | where no match starts anywhere, the substitution copies the text unchanged |
| FilteredLogger.FilterAll | 0x00-personal_data/filtered_logger.py:25-31 | no fields leave the message as it is, and so do fields none of which occurs as `field=` in the message |
| FilteredLogger.AbsentFieldUnchanged | 0x00-personal_data/filtered_logger.py:25-31 | a message without `field=` is left as it is |
| FilteredLogger.UnterminatedValueUnchanged | 0x00-personal_data/filtered_logger.py:26-30 | a `field=` whose value holds no separator is left unredacted |
| FilteredLogger.ValueLengthReaches | 0x00-personal_data/filtered_logger.py:27 | the lazy value runs over separator-free, newline-free text up to the next separator |
| FilteredLogger.KeyValueMatches | 0x00-personal_data/filtered_logger.py:26-28 | a leading `field=value<sep>` is matched up to and including that separator |
| FilteredLogger.RedactKeyValue | 0x00-personal_data/filtered_logger.py:25-31 | a leading `field=value<sep>` whose value holds no separator or line break becomes `field=<redaction><sep>`, and the rest is redacted the same way |
| FilteredLogger.UnmatchedPrefixCopied | 0x00-personal_data/filtered_logger.py:30 | text in which no match starts is copied as it is, and the substitution carries on after it |
| FilteredLogger.RedactAfterPrefix | 0x00-personal_data/filtered_logger.py:25-31 | a `field=value<sep>` after unmatched text keeps that text, replaces the value with the redaction, and goes on after the separator |

## Left out

- Type guards: the `type(x) != str` guards are not modelled. Arguments are strings or None by their types.
- Header names: Flask looks them up case-insensitively. Here `Authorization` must match exactly.
- Flask glue: the routes, `before_request` and `abort` are not part of this model.
- Persistence base class: `models/base.py` is not part of this model. User rows are values with an id, an email and a password hash.
- User search: the session layers' `User.get` returns none on a table never loaded, where the original raises `KeyError`.
- Class-level session map: `user_id_by_session_id` is a class attribute shared by all instances and subclasses. Each object here owns its map. Concurrent requests are not modelled.
- `BasicAuth.DecodeBase64AuthorizationHeader` decodes strictly. Python's `b64decode` without `validate=True` drops characters outside the alphabet, and the model rejects them. Non-zero padding bits are accepted, as in Python.
- `Base64.Decode` is strict where Python's `b64decode` is lenient: Python drops characters outside the alphabet (the model rejects the text, `Base64.ForeignCharRejected`), stops at the first complete padded group and ignores what follows (`QQ==QUJD` gives `A`; the model rejects it), and skips a stray `=` (`QUJD=` gives `ABC`; the model rejects it).
- `Glob.Matches`: the `[...]` character classes of `fnmatch` are not modelled; `[` is a literal.
- `PyInt.Parse`: covers ASCII whitespace, one sign, and ASCII digits with single underscores between them. Python's `int()` also accepts other Unicode digits and whitespace.
- `SessionExpiry.Expired`: integers are unbounded here. Python raises `OverflowError` when a duration exceeds 999999999 days or when `created_at + timedelta(seconds=duration)` passes the year 9999 (about 2.5e11 seconds ahead); the model returns the user id instead of failing.
- `SessionDb.DbLookup`: the same `datetime` and `timedelta` overflow, and also a large negative duration that moves the deadline before the year 1, are not modelled; the lookup compares unbounded integers.
- Time: clock readings are whole seconds. Sub-second precision of `datetime` and the local versus UTC clocks are not modelled. The expiring layer uses `datetime.now()` and the record store `datetime.utcnow()`; each layer compares against its own clock.
- `SessionDb.SessionDBAuth`: the file snapshot (`save`, `save_to_file`, `load_from_file`) is not modelled. Records are an in-memory sequence, and record ids (`uuid4`) are left out.
- `UserAuthService.Auth.DestroySession`: the effect of `update_user` on an unknown id (`NoResultFound`) is assumed, because `db.py` is not part of this model. Ids are integers, and 0 counts as falsy.
- DB layer: `UserAuthService` assumes that `find_user_by`, `add_user` and `update_user` behave as a first-match lookup, an append with the next id, and an update of the named columns. `db.py` is not part of this model. The rows are an in-memory sequence, not a SQLite database.
- `UserAuthService.Auth`: email and password arguments are strings. A None password raises `AttributeError` at `password.encode`. A None email reaches `find_user_by(email=None)`, which matches no row because the email column is not nullable, so it acts as an unknown email. Neither case is modelled. A None reset token is modelled: `update_password(None, ...)` selects the first row holding no token.
- `FilteredLogger.FilterDatum`: the replacement text is inserted literally. `re.sub` would also process backslash escapes in it.
- `RedactingFormatter`, `get_logger`, `get_db` and `main` in the logger module are not part of this model (logging and MySQL I/O).
- `Credentials.HashPassword`: bcrypt is an ideal hash that keeps the password and salt. Its one-way property and cost factor are not modelled.
- `Credentials.VerifierAcceptsOnlyItsPassword`: bcrypt uses only the first 72 bytes of the UTF-8 password. Before bcrypt 5.0 the rest is ignored, so two passwords sharing those 72 bytes are both accepted; from 5.0 a longer password raises `ValueError`. The model compares whole passwords, so this lemma holds only for passwords of at most 72 UTF-8 bytes.
- `UserAuthService.RegisteredUserLogsIn`: "exactly that password" rests on the ideal verifier, so it too holds only for passwords of at most 72 UTF-8 bytes.
- Service `main.py` and the HTTP client scripts are not part of this model.
