# form-fixer: a verified model of its deterministic core

form-fixer is a fitness app. It has a React-Native client and an Express/MongoDB backend. This project models the parts of it that are deterministic logic, in Dafny, and proves what they promise:

- **Time** (`time.dfy`): the date helper `CustomDate` from `Backend/Helpers/Time.js`. It covers date formatting in three layouts, the 12-hour clock string, and the day-granularity comparisons `isAfter`/`isBefore`/`isEqual` with their three-valued result. A `Date` is modelled by the fields its getters return.
- **CustomFile** (`custom_file.dfy`): the file-URL holder and the `CSVToJSON` converter from `Backend/Helpers/CustomFile.ts`. The converter does plain newline and delimiter splitting, with no quoting. The `reduce` that fills each row object is an imperative loop over a `map`.
- **JwtAuth** (`jwt_auth.dfy`): the bearer-token middleware `authenticateToken`. The token is the second space-separated field of the `Authorization` header. Token signing and verification are an abstract `Signer`.
- **UserRoutes** (`user_routes.dfy`): the `/login`, `/register`, `/verify-email` and `/signout` handlers. Each is an atomic transition of the Users collection, a `map` from email to user document, inside the class `UserStore`. Password hashing is bcrypt without its salt: the hash stands for the first 72 bytes of the password's UTF-8 encoding, which for a password without U+0000 is all that bcrypt's comparison depends on. The clock reading the handlers store comes in as a parameter `now`.
- **Sanitizer** (`sanitizer.dfy`): the login screen's `Sanitizer`, which is `value.replace(/[class]/g, '')`, with its two character classes. `Frontend/app/index.tsx` and the older `app/index.tsx` hold the same function with the same classes, so it is modelled once.
- **LoginScreen** (`login_screen.dfy`): the login screen's state (class `Screen`), the forgot-password email check (trim, then `^[^\s@]+@[^\s@]+\.[^\s@]+$`), and the reset-code check. Network calls and alerts are `Effect` values. The server's replies arrive through callback methods.
- **RegisterForm** (`register_form.dfy`): the sign-up form's validation chain from `Frontend/app/register.tsx`, as written and as evidently intended (see Findings).
- **ResetPasswordForm** (`reset_password_form.dfy`): the new-password form's two guards and its single request.
- `text.dfy` holds the JavaScript string semantics the model relies on:
  - `filter`;
  - `split` on one character, and `join`;
  - `trim` and `\s` over the JavaScript white-space set;
  - `String(n)` for integers, with parsers as its inverse.

  `wrappers.dfy` holds `Option` and `Result`. JavaScript's `undefined` and `null` are `None`, and a "falsy" request field is `None` or `""`.

Verify-email is not idempotent as written: a second call with the same token, at the same clock reading, changes no document, so MongoDB reports `modifiedCount` 0 and the handler answers 400 "Email verification failed." (`UserRoutes.VerifyEmailTwice`).

## Model

| member | source | states |
|---|---|---|
| Time.CustomDate.constructor | Backend/Helpers/Time.js:2-4 | the object wraps the given date |
| Time.CustomDate.GetDate | Backend/Helpers/Time.js:28-30 | returns the wrapped date |
| Time.CustomDate.SetDate | Backend/Helpers/Time.js:35-37 | replaces the wrapped date in place |
| Time.CustomDate.Get12hTime | Backend/Helpers/Time.js:48-63 | the step-by-step computation (`hours % 12`, 0 shown as 12, minutes up to 9 padded with "0") yields exactly `TwelveHourText(date)`: shown hour, two-digit minutes, AM/PM, a space, unpadded seconds and "s" |
| Time.DisplayHour | Backend/Helpers/Time.js:59-60 | the hour shown on the 12-hour clock is always in 1..12 |
| Time.DisplayHourInverse | Backend/Helpers/Time.js:56-60 | the suffix is "PM" iff hours >= 12; shown hour plus suffix give back the hour of the day, so 0 and 12 (both shown as 12) are told apart by AM/PM |
| Time.MinuteTextRoundTrip | Backend/Helpers/Time.js:52-54 | minutes are always two decimal digits and parse back to the minute |
| Time.TwelveHourRoundTrip | Backend/Helpers/Time.js:48-63 | the 12-hour string loses nothing: hours (0..23), minutes and seconds parse back from it |
| Time.FormatDate | Backend/Helpers/Time.js:15-22 | splitting the result at '/' gives back exactly three fields: year/month/day for the default (omitted) format and "YYYY/MM/DD", day/month/year for "DD/MM/YYYY", and month/day/year for every other string, with month = zero-based month + 1 |
| Time.FormatDateRoundTrip | Backend/Helpers/Time.js:15-22 | in every format, year, month 1..12 and day parse back from the formatted date |
| Time.FormatDateUnpadded | Backend/Helpers/Time.js:16-20 | month and day are written without leading zeros, in at most two digits |
| Time.IsAfter | Backend/Helpers/Time.js:92-109 | `isAfter` is true, false or undefined exactly when the first date's calendar day is later than, earlier than or the same as the second's, measured against an independent day numbering |
| Time.IsAfterAntisymmetric | Backend/Helpers/Time.js:92-109 | undefined in one direction iff in the other; on distinct days the two directions give opposite answers |
| Time.IsAfterTransitive | Backend/Helpers/Time.js:92-109 | "after" is transitive |
| Time.IsAfterIgnoresTime | Backend/Helpers/Time.js:92-109 | hours, minutes and seconds play no part in the comparison |
| Time.IsEqual | Backend/Helpers/Time.js:123-126 | `isEqual` holds iff year, month and day coincide, whatever the time |
| Time.IsBefore | Backend/Helpers/Time.js:115-117 | `isBefore` (`!isAfter`, with `!undefined` true) holds iff the first date's day is not later than the second's |
| Time.IsBeforeNotLater | Backend/Helpers/Time.js:115-126 | on the same day each date is before the other |
| CustomFile.CustomFile.constructor | Backend/Helpers/CustomFile.ts:6-8 | the object holds the given URL |
| CustomFile.CustomFile.SetFileURL | Backend/Helpers/CustomFile.ts:10-12 | replaces the URL in place |
| CustomFile.CustomFile.GetFileURL | Backend/Helpers/CustomFile.ts:14-16 | returns the URL |
| CustomFile.CustomFile.GetFileExtension | Backend/Helpers/CustomFile.ts:18-20 | undefined iff the URL has no '.'; otherwise the '.'-free piece after the first '.', that is `split(".")[1]` |
| CustomFile.SetThenGet | Backend/Helpers/CustomFile.ts:10-19 | `setFileURL(u)` then `getFileURL()` returns `u`, and the extension is then read from `u` |
| CustomFile.ExtensionIsFirstSegment | Backend/Helpers/CustomFile.ts:18-20 | "a.tar.gz" has extension "tar", not "gz" |
| CustomFile.BuildRow | Backend/Helpers/CustomFile.ts:34-37 | the in-place `reduce` builds an object whose keys are exactly the untrimmed headers, with each header (the last one when repeated) mapped to its value trimmed, or null when the value is missing or empty; values beyond the headers are dropped |
| CustomFile.CsvToJson | Backend/Helpers/CustomFile.ts:29-40 | fails iff no non-empty line exists (`lines[0]` is undefined); otherwise one row per non-empty line after the first, in input order, each built from the first line's headers |
| CustomFile.Lines | Backend/Helpers/CustomFile.ts:30 | the lines are exactly the non-empty pieces between newlines, never more than the pieces |
| CustomFile.Cell | Backend/Helpers/CustomFile.ts:35 | `null` iff the value is missing or empty; a present value comes back no longer, with no white space at either end, and empty exactly when it was all white space |
| CustomFile.LinesAreNonBlank | Backend/Helpers/CustomFile.ts:30 | the lines kept are non-empty and hold no newline |
| CustomFile.LinesOfConcatenation | Backend/Helpers/CustomFile.ts:30 | blank lines vanish wherever they are: the lines of `a + "\n" + b` are those of `a` followed by those of `b` |
| Text.JoinSplit | Backend/Helpers/CustomFile.ts:30 | joining the pieces of `split(d)` with `d` gives back the input |
| Text.Trim | Backend/Helpers/CustomFile.ts:35 | `trim` returns the input's inner window, with only white space removed at either end and no white space left at its ends |
| JwtAuth.ExtractToken | Backend/Middleware/JwtAuth.js:6-7 | no header gives no token, an empty header gives the empty token, and a token never holds a space |
| JwtAuth.ExtractTokenMissing | Backend/Middleware/JwtAuth.js:6-10 | a present header yields no token exactly when it is non-empty and holds no space (an empty header yields the empty token) |
| JwtAuth.ExtractTokenSecondField | Backend/Middleware/JwtAuth.js:7 | the token is the second space-separated field, whatever the scheme word and whatever follows |
| JwtAuth.ExtractTokenExamples | Backend/Middleware/JwtAuth.js:7 | "Bearer a b" gives "a", "Foo t" gives "t", "abc" and a missing header give none |
| JwtAuth.AuthenticateToken | Backend/Middleware/JwtAuth.js:5-21 | 400 iff no token; `next` is called iff the token verifies, exactly once, with `req.user` set to the payload; otherwise `req.user` and the `next` count are unchanged |
| JwtAuth.BearerTokenAccepted | Backend/Middleware/JwtAuth.js:7-19 | "Bearer " + a token the server signed passes the middleware with the signed payload |
| UserRoutes.BcryptKey | Backend/Services/SecurityService.js:15 | bcrypt reads a prefix of the password's UTF-8 bytes: all of them up to 72, else the first 72 |
| UserRoutes.VerifyHashedPassword | Backend/Routes/UserRoutes.js:43-47 | a stored hash verifies the password it was made from |
| UserRoutes.LongPasswordsCollide | Backend/Services/SecurityService.js:15-32 | once a common beginning fills 72 UTF-8 bytes, any password with it verifies against the hash of any other with it |
| UserRoutes.ShortAsciiPasswordsDistinct | Backend/Services/SecurityService.js:15-32 | for ASCII passwords of at most 72 characters with no NUL, a hash verifies its own password and no other |
| UserRoutes.CollectMissingFields | Backend/Routes/UserRoutes.js:79-84 | the pushes produce the names of exactly the falsy fields, in the order email, password, age, first name, last name |
| UserRoutes.MissingFieldsEmpty | Backend/Routes/UserRoutes.js:79-86 | nothing is reported missing iff all five fields are truthy |
| UserRoutes.MissingFieldsNamed | Backend/Routes/UserRoutes.js:79-90 | the error message names a field iff that field is falsy |
| UserRoutes.UserStore.constructor | Backend/Routes/UserRoutes.js:5 | the collection starts empty |
| UserRoutes.UserStore.Login | Backend/Routes/UserRoutes.js:18-69 | guards in order: 400 missing email or password, 400 unknown email, 403 wrong password, 403 unverified; 200 iff all pass, and then only that user's `isLoggedIn` becomes true and the reply is the updated user with a token signed for it; every failure leaves the store unchanged |
| UserRoutes.UserStore.Register | Backend/Routes/UserRoutes.js:74-158 | 400 listing the missing fields in order; then 409 for a known email; otherwise exactly one document is added (hashed password, not logged in, not verified, both dates `now`), the reply is 201 whatever the mail does, and the mail carries a token for the email and the link `SERVER_HOST/users/verify-email?token=...`; failures change nothing |
| UserRoutes.UserStore.VerifyEmail | Backend/Routes/UserRoutes.js:161-191 | 400 without a token, 500 for a token that does not verify; otherwise only the token's email's document becomes verified with a new `updatedAt`, and the reply is 200 iff that changed the document, else 400 |
| UserRoutes.UserStore.SignOut | Backend/Routes/UserRoutes.js:195-203 | behind the middleware: 400 without a token; the reply to a token that fails verification is not modelled, and the store and `req.user` are unchanged; otherwise only the token's email's document gets `isLoggedIn` false, reply 200 with an empty body |
| UserRoutes.AccountLifecycle | Backend/Routes/UserRoutes.js:18-191 | register gives 201, login before verification 403 "Please verify your email address", verification with the mailed token 200, then login 200 for a verified, logged-in user, and a second registration 409 |
| UserRoutes.LoginThenSignOut | Backend/Routes/UserRoutes.js:56-200 | a login followed by sign-out with the login token leaves that user logged out and every other field and document as before |
| UserRoutes.VerifyEmailTwice | Backend/Routes/UserRoutes.js:174-186 | two verifications at the same clock reading: the document ends verified, and the second is answered 400 |
| Sanitizer.Sanitize | Frontend/app/index.tsx:26-30 | the output is never longer, and holds a character iff the input does and it is outside the class |
| Sanitizer.SanitizeCounts | app/index.tsx:17-21 | each character outside the class occurs in the output exactly as often as in the input; class characters do not occur |
| Sanitizer.SanitizeAppend | Frontend/app/index.tsx:27 | sanitising a concatenation sanitises each part, so kept characters stay in order |
| Sanitizer.SanitizeUnchanged | app/index.tsx:18 | the input comes back unchanged iff none of its characters is in the class |
| Sanitizer.SanitizeIdempotent | app/index.tsx:18 | sanitising twice is sanitising once |
| Sanitizer.SanitizedEmail | Frontend/app/index.tsx:147 | the email class (also app/index.tsx:74) leaves only letters, digits, '@' and '.', each as often as in the input |
| Sanitizer.SanitizedPassword | Frontend/app/index.tsx:159 | the password class (also app/index.tsx:86) removes '<', '>', '(' and ')' and keeps every other character as often as in the input |
| Sanitizer.SanitizeEmailExample | app/index.tsx:74 | "a<b" becomes "ab" in the email field |
| Sanitizer.SanitizePasswordExample | app/index.tsx:86 | "a<b" becomes "ab" in the password field |
| LoginScreen.MatchesEmailPattern | Frontend/app/index.tsx:77 | text the pattern accepts has at least five characters, among them an '@' and a '.' |
| LoginScreen.EmailPatternShape | Frontend/app/index.tsx:77 | the pattern accepts a string iff it has no white space, exactly one '@' with something before it, and a '.' after the '@' that is neither the domain's first nor its last character |
| LoginScreen.EmailPatternAccepts | Frontend/app/index.tsx:77 | "a@b.co" is accepted |
| LoginScreen.EmailPatternRejects | Frontend/app/index.tsx:77 | "a@b" and "a@@b.c" are rejected |
| LoginScreen.Screen.constructor | Frontend/app/index.tsx:38-47 | every field starts empty and both modals closed |
| LoginScreen.Screen.OnEmailChange | Frontend/app/index.tsx:147 | the email state becomes the sanitised text; nothing else changes |
| LoginScreen.Screen.OnPasswordChange | Frontend/app/index.tsx:159 | the password state becomes the sanitised text; nothing else changes |
| LoginScreen.Screen.OnModalEmailChange | Frontend/app/index.tsx:209 | the modal's email is stored as typed |
| LoginScreen.Screen.OnResetCodeChange | Frontend/app/index.tsx:244 | the typed code is stored as typed |
| LoginScreen.Screen.HandleForgotPwrd | Frontend/app/index.tsx:72-110 | an empty trimmed email, then one the pattern rejects, each raise their alert; a request is made iff the trimmed email is non-empty and of the email shape, and it carries the trimmed email to `/users/forgot-password` |
| LoginScreen.Screen.ForgotPasswordReplied | Frontend/app/index.tsx:101-107 | the server's code is stored, the success alert shown, the email modal closed and the code modal opened |
| LoginScreen.Screen.ForgotPasswordFailed | Frontend/app/index.tsx:95-100 | a string error is stored and shown as is, anything else as "An unexpected error occurred." |
| LoginScreen.Screen.HandleVerifyCode | Frontend/app/index.tsx:113-125 | an empty code, then a code other than the server's, raise their alert and change nothing; it moves on to "/forgetPassword" iff the code is non-empty and equal to the server's, and then closes the code modal |
| LoginScreen.ForgotPasswordFlow | Frontend/app/index.tsx:72-125 | on a fresh screen a code typed before the server's reply is refused, the request carries the typed email, and the server's code is then accepted |
| Text.TrimBlank | Frontend/app/index.tsx:79 | the trimmed email is empty iff the typed text is all white space |
| RegisterForm.Validate | Frontend/app/register.tsx:36-57 | success iff every entry is filled in, the password has 6 to 16 UTF-16 code units and equals its confirmation; any other outcome is an "Error" alert carrying the length message, the mismatch message, or the message of an empty entry |
| RegisterForm.HandleRegister | Frontend/app/register.tsx:25-58 | the outcome is the success alert or an "Error" alert with one of the form's seven messages |
| RegisterForm.HandleRegisterIntended | Frontend/app/register.tsx:25-58 | the same, with the password entry testing the password |
| RegisterForm.FirstEmpty | Frontend/app/register.tsx:36-41 | `None` iff every entry is filled in; otherwise the message of an empty entry with no empty entry before it |
| RegisterForm.FirstEmptyAt | Frontend/app/register.tsx:36-41 | the loop stops at the first empty entry, wherever it is |
| RegisterForm.RegisterFirstMissing | Frontend/app/register.tsx:27-41 | the alert names the first empty field in the order first name, last name, email, age; the password message is never shown |
| RegisterForm.RegisterPasswordChecks | Frontend/app/register.tsx:44-53 | with the entries filled in, a password outside 6..16 UTF-16 code units gets the length message whatever the confirmation, and only a password of valid length is compared with it |
| RegisterForm.RegisterSuccess | Frontend/app/register.tsx:36-57 | success iff all fields are filled in, the password has 6 to 16 UTF-16 code units and equals its confirmation, for the form as written and as intended |
| RegisterForm.EmojiPasswordAccepted | Frontend/app/register.tsx:45 | three emoji (six UTF-16 code units) pass the length check |
| RegisterForm.BmpPasswordAcceptable | Frontend/app/register.tsx:45-53 | for a password without astral characters, it is acceptable iff it has 6 to 16 characters and equals its confirmation |
| RegisterForm.EmptyPasswordSlipsThrough | Frontend/app/register.tsx:31 | as written, a form with only the password empty gets the length message; as intended it gets "Please enter your password." |
| RegisterForm.RegisterIntendedPasswordMissing | Frontend/app/register.tsx:31 | as intended, an empty password after filled-in names and email is reported missing |
| RegisterForm.RegisterVersionsDiffer | Frontend/app/register.tsx:27-41 | the two versions differ exactly on forms whose names and email are filled in and whose password is empty |
| ResetPasswordForm.HandleResetPassword | Frontend/forgotPassword.tsx:12-31 | one press gives one or two effects, the last an alert; the only other effect is the request carrying the new password |
| ResetPasswordForm.ResetRequest | Frontend/forgotPassword.tsx:13-27 | exactly one request, to `/users/updatePassword` with the new password, iff both fields are filled in and equal; otherwise none |
| ResetPasswordForm.ResetGuardOrder | Frontend/forgotPassword.tsx:13-21 | an empty field gives "Both fields are required." even when the fields differ; the mismatch alert appears iff both are filled in and differ |
| ResetPasswordForm.ResetSuccessUnconditional | Frontend/forgotPassword.tsx:23-30 | the success alert is shown iff the request is made, right after it and without waiting for the server |

## Left out

- Errors thrown by MongoDB, bcrypt or the token library, and `insertOne` not acknowledged: the 500 replies other than the invalid-token one are not modelled, because they depend on foreign code failing.
- UserRoutes.VerifyPassword: bcrypt's salt and cost are not modelled. A hash stands for the first 72 UTF-8 bytes of its password; the encoding assumes well-formed text, as a `char` here is a Unicode scalar value. Passwords containing U+0000 are not modelled faithfully: bcrypt's key is NUL-terminated, so a NUL in the password reads as the end of the key, and "a" and "a\u0000a" verify against each other's hashes, while the model keeps them apart.
- Token expiry and the secret: `Signer.verify` is an uninterpreted partial function, and `Sound` assumes only that signed tokens are non-empty, space-free and verify to their payload.
- JwtAuth.AuthenticateToken: the reply on a failed verification is not modelled. The code passes an object to `sendStatus`, which expects a status code, so the model records only that `next` is not called.
- UserRoutes.ShortAsciiPasswordsDistinct: it excludes U+0000, because with a NUL in the password bcrypt's comparison and the model disagree (see the `UserRoutes.VerifyPassword` line).
- UserRoutes.UserStore.SignOut: the reply to a token that fails verification is `ReplyNotModelled`. The middleware passes an object to `sendStatus`, and what Express then sends depends on how it handles the resulting exception.
- UserRoutes.UserStore.Register: `createdAt` and `updatedAt` come from two separate clock readings in the code; the model stores one reading, `now`, in both.
- UserRoutes.UserStore.Register: the mail's HTML body is reduced to its recipient, subject, token and link. Sending is not modelled, since the code ignores its result.
- Request fields are strings or absent. A numeric JSON value (for instance age 0, which is falsy) or an object in place of a string is not modelled.
- `convertDateToWords`, `getDayOfWeek` and `GetCurrentDate` use the system clock and locale formatting. The date strings they produce are the parameter `now`.
- `readFile`/`writeFile` (file system) and the server wiring, logging and database connection are not modelled.
- The forgot-password and update-password routes, the profile routes, and the shared pending-reset email are not part of this model. The backend files for them are not part of it either.
- Concurrency: handlers are atomic transitions, so the check-then-insert race in `/register` is not represented.
- CustomFile.CsvToJson: the delimiter is one character, while JavaScript accepts any string. The default argument `","` is the caller passing ','. A header such as `__proto__`, which a plain JavaScript object treats specially, is an ordinary key here.
- Time.CustomDate.constructor: the default argument `new Date()` reads the clock, so the model always takes the date as a parameter.
- Time.CustomDate.GetDate: the code returns the wrapped `Date` object itself, so a caller can mutate it. The model returns a value, so that aliasing is not represented.
- Time.CustomDate.Get12hTime: an invalid `Date` (NaN fields) is not modelled. Day-of-month is 1..31 without month lengths, because `Date` normalises out-of-range values itself.
- The login screen's `handleLogin` and `handleRegister` only post or navigate, and are not modelled. Neither are haptics, styling, modal rendering, or the fetch wrappers' promise chains.
- LoginScreen.Screen.ForgotPasswordReplied: `forgotPassCode` holds the whole reply object. Only its `code` field is modelled.
- ResetPasswordForm.HandleResetPassword: the request's callbacks are asynchronous and not modelled. They are an error alert and navigation to "/".

## Findings

| source | as written | input that shows it | evidently intended | confidence | as-written member | corrected member |
|---|---|---|---|---|---|---|
| Frontend/app/register.tsx:31 | the password entry of the emptiness check tests `email` | first name "Ada", last name "Lovelace", email "ada@x.org", password "", confirmation "", age "36": the alert is "Password must be between 6 and 16 characters." | the entry tests `password`, so the alert is "Please enter your password." | high; not executed | RegisterForm.EmptyPasswordSlipsThrough | RegisterForm.RegisterIntendedPasswordMissing |
