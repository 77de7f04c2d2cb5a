# Sign-in and sign-up form logic

This project models the client-side logic of a web app's two authentication
forms. The identity provider does the real authentication. The forms only
check their inputs, decide whether to call the provider, and turn the
provider's answer into messages, a toast and a delayed redirect.

- **Sign-up** (`validateFields` and `signUp`). Four inputs are checked:
  display name, email, password and confirmation. Every failing check is
  collected, at most one message per field, in a fixed order. The messages
  are shown joined by single spaces. Only valid input reaches the provider.
  The provider is asked to create the account and then to set the display
  name. Each provider failure gets one fixed message, whatever its cause.
  Full success shows a toast and redirects to `/login` after 3000 ms.
- **Sign-in** (`signIn`). The error list is cleared first. An empty email or
  password is reported with plain emptiness, not trimming. Otherwise the
  credentials are sent to the provider. A failure's error code is translated
  by a fixed table into exactly one message. A success redirects to `/`
  after 3000 ms.

The provider is not modelled. Its answers are datatype inputs to the submit
functions (`SignUp.Outcome`, `SignIn.Outcome`). React state is modelled as
the sequence of values written to it; `FormEffects.Final` gives the value
after those writes.

Modules:

- `JsStrings` covers the JavaScript string operations the forms use.
  Whitespace is the ECMAScript WhiteSpace and LineTerminator set. `\s` and
  `String.prototype.trim` both use that set. The module also has `trim()`,
  `.length` counted in UTF-16 code units, and `join`.
- `EmailFormat` covers the pattern `^[^\s@]+@[^\s@]+\.[^\s@]+$`. It is given
  twice: once piece by piece, with the positions of the `@` and the `.` as
  witnesses, and once as a shape: no whitespace, exactly one `@`, a non-empty
  local part, and a domain with a dot that is neither its first nor its last
  character. A lemma proves the two agree.
- `MessageLists` covers ordered message lists. An ascending list is fixed by
  which messages it contains.
- `FormEffects` covers state writes, toasts and scheduled navigation.
- `SignUp` and `SignIn` hold the two forms.

## Model

| member | source | states |
|---|---|---|
| `JsStrings.Trim` | src/Auth/SignUp.jsx:22 | `trim()` never lengthens its input, and its result neither starts nor ends with whitespace |
| `JsStrings.TrimIsInfix` | src/Auth/SignUp.jsx:22 | `trim()` returns the infix between a blank prefix and a blank suffix; with the edges `Trim` promises, this fixes the result |
| `JsStrings.TrimEmptyIffBlank` | src/Auth/SignUp.jsx:22 | `!x.trim()` holds exactly when every character of `x` is whitespace, so a whitespace-only value counts as missing |
| `JsStrings.Utf16Length` | src/Auth/SignUp.jsx:34 | `password.length` counts UTF-16 code units: at least the number of characters and at most twice that; a single character is one unit, or two above U+FFFF |
| `JsStrings.Utf16LengthConcat` | src/Auth/SignUp.jsx:34 | code units add up over concatenation, which with the single-character case fixes `.length` for every string |
| `JsStrings.Utf16LengthIsSizeIffBmp` | src/Auth/SignUp.jsx:34 | `.length` equals the character count exactly when no character lies above U+FFFF |
| `JsStrings.Join` | src/Auth/SignUp.jsx:45 | `errors.join(" ")` of no parts is empty and of one part is that part; otherwise its length is the parts' total plus one separator between each pair, and it starts with the first part |
| `JsStrings.JoinConcat` | src/Auth/SignUp.jsx:45 | joining two non-empty lists is joining each with one separator between, so the parts keep their order, separated by exactly one space |
| `JsStrings.JoinContainsEach` | src/Auth/SignUp.jsx:45 | every part appears whole in the joined string |
| `JsStrings.JoinEmptyIff` | src/Auth/SignUp.jsx:45 | a join of non-empty messages is empty exactly when there are no messages |
| `EmailFormat.MatchesEmailPattern` | src/Auth/SignUp.jsx:28 | the regular-expression test; a matching address has at least five characters (`a@b.c`) and contains an `@` |
| `EmailFormat.MatchHasSingleAt` | src/Auth/SignUp.jsx:28 | a match of the email pattern puts the only `@` at the matched position, and the address has no whitespace |
| `EmailFormat.PatternIffShape` | src/Auth/SignUp.jsx:28 | the pattern accepts exactly the addresses with no whitespace, exactly one `@`, a non-empty local part, and a dot inside the domain that is neither its first nor its last character |
| `EmailFormat.PaddedEmailIsMalformed` | src/Auth/SignUp.jsx:26-30 | an email with leading or trailing whitespace and some other character survives `trim()`, yet fails the pattern |
| `SignUp.ShapedEmailIsNotBlank` | src/Auth/SignUp.jsx:26-30 | an address that passes the format check is never blank, so it never gets the "required" message |
| `SignUp.NameErrors` | src/Auth/SignUp.jsx:22-24 | the name check pushes nothing or "Name is required." |
| `SignUp.EmailErrors` | src/Auth/SignUp.jsx:26-30 | the email check's if/else-if pushes at most one message: nothing, "Email is required." or "Invalid email format." |
| `SignUp.PasswordErrors` | src/Auth/SignUp.jsx:32-36 | the password check pushes at most one message: nothing, "Password is required." or the length message |
| `SignUp.ConfirmErrors` | src/Auth/SignUp.jsx:38-42 | the confirmation check pushes at most one message: nothing, "Please confirm your password." or "Passwords do not match." |
| `SignUp.NameReport` | src/Auth/SignUp.jsx:22-24 | "Name is required." is pushed exactly when the name is blank |
| `SignUp.EmailReport` | src/Auth/SignUp.jsx:26-30 | "Email is required." is pushed exactly for a blank email; "Invalid email format." exactly for a non-blank email without the address shape |
| `SignUp.PasswordReport` | src/Auth/SignUp.jsx:32-36 | "Password is required." is pushed exactly for a blank password; the length message exactly for a non-blank password of fewer than 6 code units, counted untrimmed |
| `SignUp.ConfirmReport` | src/Auth/SignUp.jsx:38-42 | "Please confirm your password." is pushed exactly for a blank confirmation; "Passwords do not match." exactly for a non-blank confirmation that differs from the password |
| `SignUp.BandMembership` | src/Auth/SignUp.jsx:19-42 | each field's checks contribute messages of their own kind only, so a message is in the combined list exactly when its field's check produced it |
| `SignUp.BandsAscending` | src/Auth/SignUp.jsx:19-42 | per-field lists of at most one message, concatenated in field order, form an ascending list of at most four messages |
| `SignUp.CollectErrors` | src/Auth/SignUp.jsx:19-42 | every failing check is collected, not just the first: each message is listed exactly when its condition holds, so no field reports both "required" and a format, length or mismatch message; the messages come in the order name, email, password, confirmation, with no repeats and at most four in all |
| `SignUp.ReportsDetermineList` | src/Auth/SignUp.jsx:19-42 | two ordered lists that both report exactly the failing checks are equal, so the list `validateFields` builds is the only correct one |
| `SignUp.NothingReportedIffValid` | src/Auth/SignUp.jsx:44-50 | the error list is empty exactly when the name is non-blank, the email well-formed, the password non-blank with at least 6 code units, and the confirmation equal to it |
| `SignUp.ShownMessageNotEmpty` | src/Auth/SignUp.jsx:44-46 | when any check fails, the displayed message is not empty |
| `SignUp.ValidateFields` | src/Auth/SignUp.jsx:44-50 | validation passes exactly for valid fields; the message is `""` exactly when it passes; otherwise the message is the ordered report of the failing checks joined by single spaces |
| `SignUp.ShownMessageMentionsEach` | src/Auth/SignUp.jsx:44-46 | the text of every reported problem appears, whole, in the displayed message |
| `SignUp.ShortPasswordExample` | src/Auth/SignUp.jsx:32-46 | "abc" confirmed as "abc", with a valid name and address, displays exactly "Password must be at least 6 characters." |
| `SignUp.AstralPasswordIsShort` | src/Auth/SignUp.jsx:32-36 | a password of an emoji and three letters has `.length` 5 and is reported as too short |
| `SignUp.BlankPasswordIsMissing` | src/Auth/SignUp.jsx:32-36 | a whitespace-only password is reported as required, never as too short, whatever its length |
| `SignUp.ShortMatchingPassword` | src/Auth/SignUp.jsx:32-42 | a short password repeated in the confirmation (e.g. "abc"/"abc") gets the length message and no mismatch message |
| `SignUp.OnlyMismatch` | src/Auth/SignUp.jsx:38-42 | with the other fields valid, a differing non-blank confirmation yields exactly `["Passwords do not match."]`, which is also the displayed message |
| `SignUp.MismatchExample` | src/Auth/SignUp.jsx:38-42 | "abcdef" confirmed as "xyz123" displays exactly "Passwords do not match." |
| `SignUp.Submit` | src/Auth/SignUp.jsx:53-72 | account creation is requested, with the email and password, exactly when validation passes; the display name is set only after creation succeeds; the success toast "Account created successfully! Redirecting to login..." and the redirect to `/login` after 3000 ms happen exactly on full success |
| `SignUp.SubmitMessage` | src/Auth/SignUp.jsx:56-71 | whatever was shown before, the final message is the joined validation messages, "Failed to create an account. Please try again." after a creation failure, "Error adding user display name." after a profile failure, or `""` after full success |
| `SignUp.InvalidIgnoresProvider` | src/Auth/SignUp.jsx:56 | with invalid fields the provider's answer cannot affect the submission |
| `SignUp.ProviderErrorDiscarded` | src/Auth/SignUp.jsx:65-71 | the provider's error is discarded: all creation failures behave alike, and so do all profile failures |
| `FormEffects.Final` | src/Auth/SignIn.jsx:18-25 | each state write replaces the value: after some writes the state is the last one written, and after none it is unchanged |
| `FormEffects.FinalForgetsPrevious` | src/Auth/SignIn.jsx:18 | once anything is written, the earlier value of the state no longer matters |
| `SignIn.PresenceErrors` | src/Auth/SignIn.jsx:21-25 | the email message is listed exactly when the email is empty, the password message exactly when the password is empty, email first |
| `SignIn.PresenceErrorsDetermined` | src/Auth/SignIn.jsx:21-25 | any ordered list naming exactly the empty inputs is the presence error list |
| `SignIn.MessageForCode` | src/Auth/SignIn.jsx:41-53 | every code maps to one message: the three recognised codes to their table entries, any other code to "An error occurred. Please try again." |
| `SignIn.MessageIdentifiesKnownCode` | src/Auth/SignIn.jsx:41-53 | the table's messages differ from each other and from the generic one, so a specific message identifies its code |
| `SignIn.CodeExamples` | src/Auth/SignIn.jsx:48-52 | "auth/wrong-password" shows "Incorrect password. Please try again."; an unlisted code shows the generic message |
| `SignIn.Submit` | src/Auth/SignIn.jsx:16-60 | errors are cleared first; credentials are sent, unchanged, exactly when both inputs are non-empty; a redirect to `/` after 3000 ms happens exactly on success; a toast is shown exactly when the provider was asked: the success toast "Login successful! Welcome back." on success, the error toast "Login failed. Please check your email or password." on every failure |
| `SignIn.SubmitErrors` | src/Auth/SignIn.jsx:18-54 | whatever the list held before, it ends as the presence messages, as `[]` after a success, or as exactly one translated message after a failure; a redirect always leaves it empty |
| `SignIn.MissingInputIgnoresProvider` | src/Auth/SignIn.jsx:21-27 | with an empty input no call is made, so the provider's answer cannot affect the submission |
| `SignIn.SpacesAreSent` | src/Auth/SignIn.jsx:21-29 | inputs made only of spaces are non-empty, pass the handler's check and are sent to the provider as held in the form's state |
| `SignIn.BothMissing` | src/Auth/SignIn.jsx:21-25 | with both inputs empty the list is exactly "Email address is required." then "Password is required." |
| `SignIn.OnlyPasswordMissing` | src/Auth/SignIn.jsx:21-25 | with a non-empty email and an empty password the list is exactly "Password is required." |

## Left out

- src/components/LoginSignupForm.jsx is not part of this model. It only flips a boolean that picks which form to render.
- The identity provider's calls (`createUserWithEmailAndPassword`, `updateProfile`, `signInWithEmailAndPassword`) are foreign and asynchronous. Only their result is modelled, as an outcome input. Whether a given input would succeed is not modelled.
- Timers: `setTimeout` is recorded as its target path and its 3000 ms delay. Firing, cancellation and unmounting are not modelled.
- Toasts are recorded as their kind and text. Position, auto-close time and the other display options are rendering details and are left out.
- Asynchrony: a submission is modelled as completing before the next one. Overlapping submissions, and the intermediate state while the provider is pending, are not modelled, because the source does nothing to coordinate them.
- Browser form validation: the model takes field values as the handler reads them from component state. The browser's sanitising of `type="email"` inputs (surrounding whitespace stripped) and its blocking of a submit whose email is not a valid address are left out, so `EmailFormat.PaddedEmailIsMalformed` and `SignIn.SpacesAreSent` describe the handlers' logic, including for email values a browser would not deliver.
- Rendering, styling, `e.preventDefault()` and the show-password toggles have no logic to model.
- `JsStrings.Utf16Length`: a JavaScript string can hold an unpaired surrogate. Dafny's `char` is a Unicode scalar value, so such strings cannot be represented. For all other strings the UTF-16 length is exact.
- `EmailFormat.MatchesEmailPattern` is a hand-written matcher for this one pattern, not a general regular-expression engine. The pattern has no flags, so `$` matches only at the end of the input.
