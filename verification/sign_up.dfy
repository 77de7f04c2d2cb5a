/**
 The sign-up form: `validateFields`, which collects one message per failing
 field in a fixed order and shows them joined by spaces, and the submit
 handler, which asks the identity provider to create the account and then to
 set its display name. The provider is not modelled; its answers are an
 `Outcome` given to the submit handler.
 */
module SignUp {
  import opened JsStrings
  import opened EmailFormat
  import opened MessageLists
  import opened FormEffects

  /** The four controlled inputs of the form. */
  datatype Fields = Fields(displayName: string, email: string, password: string, confirmPassword: string)

  /** The checks of `validateFields` that can fail, one constructor per
      message, declared in the order the checks run. */
  datatype Problem =
    | NameRequired
    | EmailRequired | EmailInvalid
    | PasswordRequired | PasswordTooShort
    | ConfirmRequired | PasswordMismatch

  /** The text pushed for each failed check. */
  function Text(p: Problem): (t: string)
    ensures t != []
  {
    match p
    case NameRequired => "Name is required."
    case EmailRequired => "Email is required."
    case EmailInvalid => "Invalid email format."
    case PasswordRequired => "Password is required."
    case PasswordTooShort => "Password must be at least 6 characters."
    case ConfirmRequired => "Please confirm your password."
    case PasswordMismatch => "Passwords do not match."
  }

  /** Position of a check in the order name, email, password, confirmation. */
  function Rank(p: Problem): int {
    match p
    case NameRequired => 0
    case EmailRequired => 1
    case EmailInvalid => 2
    case PasswordRequired => 3
    case PasswordTooShort => 4
    case ConfirmRequired => 5
    case PasswordMismatch => 6
  }

  const CreateAccountFailed := "Failed to create an account. Please try again."
  const DisplayNameFailed := "Error adding user display name."
  const AccountCreated := "Account created successfully! Redirecting to login..."
  const LoginPath := "/login"

  /** Minimum `password.length`. */
  const MinPasswordLength := 6

  /** The sign-up invariant on the fields: a non-blank name, a well-formed
      email, a non-blank password of at least six code units, and a matching
      confirmation. */
  predicate FieldsValid(f: Fields) {
    && !IsBlank(f.displayName)
    && HasEmailShape(f.email)
    && !IsBlank(f.password)
    && Utf16Length(f.password) >= MinPasswordLength
    && f.confirmPassword == f.password
  }

  /** Which checks a correct error list reports, field by field. */
  predicate ReportsExactly(f: Fields, errors: seq<Problem>) {
    && (NameRequired in errors <==> IsBlank(f.displayName))
    && (EmailRequired in errors <==> IsBlank(f.email))
    && (EmailInvalid in errors <==> !IsBlank(f.email) && !HasEmailShape(f.email))
    && (PasswordRequired in errors <==> IsBlank(f.password))
    && (PasswordTooShort in errors <==> !IsBlank(f.password) && Utf16Length(f.password) < MinPasswordLength)
    && (ConfirmRequired in errors <==> IsBlank(f.confirmPassword))
    && (PasswordMismatch in errors <==> !IsBlank(f.confirmPassword) && f.password != f.confirmPassword)
  }

  // Each field is checked by an if/else-if chain, so it pushes at most one
  // message. A field is missing when `trim()` leaves nothing.

  function NameErrors(name: string): (r: seq<Problem>)
    ensures r == [] || r == [NameRequired]
  {
    if Trim(name) == [] then [NameRequired] else []
  }

  function EmailErrors(email: string): (r: seq<Problem>)
    ensures r == [] || r == [EmailRequired] || r == [EmailInvalid]
  {
    if Trim(email) == [] then [EmailRequired]
    else if !MatchesEmailPattern(email) then [EmailInvalid]
    else []
  }

  function PasswordErrors(password: string): (r: seq<Problem>)
    ensures r == [] || r == [PasswordRequired] || r == [PasswordTooShort]
  {
    if Trim(password) == [] then [PasswordRequired]
    else if Utf16Length(password) < MinPasswordLength then [PasswordTooShort]
    else []
  }

  function ConfirmErrors(password: string, confirmPassword: string): (r: seq<Problem>)
    ensures r == [] || r == [ConfirmRequired] || r == [PasswordMismatch]
  {
    if Trim(confirmPassword) == [] then [ConfirmRequired]
    else if password != confirmPassword then [PasswordMismatch]
    else []
  }

  /** The `errors` array `validateFields` builds: every failing check is
      reported, not only the first, in the order name, email, password,
      confirmation, and a field never reports two problems. */
  function CollectErrors(f: Fields): (errors: seq<Problem>)
    ensures ReportsExactly(f, errors)
    ensures Ascending(errors, Rank) && |errors| <= 4
  {
    var n, e := NameErrors(f.displayName), EmailErrors(f.email);
    var p, c := PasswordErrors(f.password), ConfirmErrors(f.password, f.confirmPassword);
    NameReport(f.displayName);
    EmailReport(f.email);
    PasswordReport(f.password);
    ConfirmReport(f.password, f.confirmPassword);
    BandMembership(n, e, p, c);
    BandsAscending(n, e, p, c);
    n + e + p + c
  }

  lemma PieceInBand(xs: seq<Problem>, lo: int, hi: int)
    requires xs == [] || (|xs| == 1 && lo <= Rank(xs[0]) < hi)
    ensures Ascending(xs, Rank) && RanksWithin(xs, Rank, lo, hi)
  {
  }

  lemma BandsAscending(n: seq<Problem>, e: seq<Problem>, p: seq<Problem>, c: seq<Problem>)
    requires n == [] || n == [NameRequired]
    requires e == [] || e == [EmailRequired] || e == [EmailInvalid]
    requires p == [] || p == [PasswordRequired] || p == [PasswordTooShort]
    requires c == [] || c == [ConfirmRequired] || c == [PasswordMismatch]
    ensures Ascending(n + e + p + c, Rank) && |n + e + p + c| <= 4
  {
    PieceInBand(n, 0, 1);
    PieceInBand(e, 1, 3);
    PieceInBand(p, 3, 5);
    PieceInBand(c, 5, 7);
    AscendingConcat(n, e, Rank, 0, 1, 3);
    AscendingConcat(n + e, p, Rank, 0, 3, 5);
    AscendingConcat(n + e + p, c, Rank, 0, 5, 7);
  }

  /** In the concatenated list, each problem can only have come from its own
      field's check. */
  lemma BandMembership(n: seq<Problem>, e: seq<Problem>, p: seq<Problem>, c: seq<Problem>)
    requires n == [] || n == [NameRequired]
    requires e == [] || e == [EmailRequired] || e == [EmailInvalid]
    requires p == [] || p == [PasswordRequired] || p == [PasswordTooShort]
    requires c == [] || c == [ConfirmRequired] || c == [PasswordMismatch]
    ensures NameRequired in n + e + p + c <==> NameRequired in n
    ensures EmailRequired in n + e + p + c <==> EmailRequired in e
    ensures EmailInvalid in n + e + p + c <==> EmailInvalid in e
    ensures PasswordRequired in n + e + p + c <==> PasswordRequired in p
    ensures PasswordTooShort in n + e + p + c <==> PasswordTooShort in p
    ensures ConfirmRequired in n + e + p + c <==> ConfirmRequired in c
    ensures PasswordMismatch in n + e + p + c <==> PasswordMismatch in c
  {
  }

  // What each field's check reports, one field at a time.

  lemma NameReport(name: string)
    ensures NameRequired in NameErrors(name) <==> IsBlank(name)
  {
    TrimEmptyIffBlank(name);
  }

  lemma EmailReport(email: string)
    ensures EmailRequired in EmailErrors(email) <==> IsBlank(email)
    ensures EmailInvalid in EmailErrors(email) <==> !IsBlank(email) && !HasEmailShape(email)
  {
    TrimEmptyIffBlank(email);
    PatternIffShape(email);
  }

  lemma PasswordReport(password: string)
    ensures PasswordRequired in PasswordErrors(password) <==> IsBlank(password)
    ensures PasswordTooShort in PasswordErrors(password) <==> !IsBlank(password) && Utf16Length(password) < MinPasswordLength
  {
    TrimEmptyIffBlank(password);
  }

  lemma ConfirmReport(password: string, confirmPassword: string)
    ensures ConfirmRequired in ConfirmErrors(password, confirmPassword) <==> IsBlank(confirmPassword)
    ensures PasswordMismatch in ConfirmErrors(password, confirmPassword) <==> !IsBlank(confirmPassword) && password != confirmPassword
  {
    TrimEmptyIffBlank(confirmPassword);
  }

  /** The field-by-field description fixes the list: two ascending lists
      that both report exactly the failing checks are the same list, so
      `CollectErrors` is the only one. */
  lemma ReportsDetermineList(f: Fields, xs: seq<Problem>, ys: seq<Problem>)
    requires Ascending(xs, Rank) && ReportsExactly(f, xs)
    requires Ascending(ys, Rank) && ReportsExactly(f, ys)
    ensures xs == ys
  {
    SameReportsSameContents(f, xs, ys);
    AscendingDeterminedByContents(xs, ys, Rank);
  }

  lemma SameReportsSameContents(f: Fields, xs: seq<Problem>, ys: seq<Problem>)
    requires ReportsExactly(f, xs) && ReportsExactly(f, ys)
    ensures forall m :: m in xs <==> m in ys
  {
    forall m
      ensures m in xs <==> m in ys
    {
      match m
      case NameRequired =>
      case EmailRequired =>
      case EmailInvalid =>
      case PasswordRequired =>
      case PasswordTooShort =>
      case ConfirmRequired =>
      case PasswordMismatch =>
    }
  }

  /** A well-formed address is never blank. */
  lemma ShapedEmailIsNotBlank(email: string)
    ensures HasEmailShape(email) ==> !IsBlank(email)
  {
    if HasEmailShape(email) {
      assert !IsWhitespace(email[0]);
    }
  }

  /** What `validateFields` leaves behind: whether the submission may go on,
      and the message the form shows above the inputs. */
  datatype Verdict = Verdict(ok: bool, errorMessage: string)

  /** `validateFields`: it passes exactly when the fields satisfy the sign-up
      invariant; it then clears the message, and otherwise shows the messages
      of the ordered report of the failing checks (unique, by
      `ReportsDetermineList`) separated by single spaces. */
  function ValidateFields(f: Fields): (v: Verdict)
    ensures v.ok <==> FieldsValid(f)
    ensures v.errorMessage == [] <==> v.ok
    ensures !v.ok ==> exists errors: seq<Problem> | Ascending(errors, Rank) && ReportsExactly(f, errors)
                        :: v.errorMessage == Join(Texts(errors, Text), " ")
  {
    var errors := CollectErrors(f);
    NothingReportedIffValid(f, errors);
    if |errors| > 0 then
      ShownMessageNotEmpty(errors);
      Verdict(false, Join(Texts(errors, Text), " "))
    else
      Verdict(true, [])
  }

  /** Every message text is non-empty, so joining some of them shows
      something. */
  lemma ShownMessageNotEmpty(errors: seq<Problem>)
    requires errors != []
    ensures Join(Texts(errors, Text), " ") != []
  {
    JoinEmptyIff(Texts(errors, Text), " ");
  }

  /** A list that reports exactly the failing checks is empty exactly when
      the fields satisfy the sign-up invariant. */
  lemma NothingReportedIffValid(f: Fields, errors: seq<Problem>)
    requires ReportsExactly(f, errors)
    ensures errors == [] <==> FieldsValid(f)
  {
    ShapedEmailIsNotBlank(f.email);
    if errors != [] {
      assert errors[0] in errors;
      match errors[0]
      case NameRequired =>
      case EmailRequired =>
      case EmailInvalid =>
      case PasswordRequired =>
      case PasswordTooShort =>
      case ConfirmRequired =>
      case PasswordMismatch =>
    }
  }

  /** The provider's answers: `createUserWithEmailAndPassword` rejects, or it
      resolves and `updateProfile` rejects, or both resolve. A rejection
      carries whatever error the provider reports. */
  datatype Outcome = CreateFailed(code: string) | ProfileFailed(code: string) | Completed

  /** A request made of the provider. */
  datatype ProviderCall = CreateUser(email: string, password: string) | UpdateProfile(displayName: string)

  /** Everything one submission does: the values written to `errorMessage`,
      in order, the provider requests, the toast and the redirect. */
  datatype Submission = Submission(
    messageWrites: seq<string>,
    calls: seq<ProviderCall>,
    toast: Option<Toast>,
    navigation: Option<Navigation>)

  /** The submit handler `signUp`, abstracted over the provider's answers. */
  function Submit(f: Fields, outcome: Outcome): (s: Submission)
    ensures s.calls == [] <==> !FieldsValid(f)
    ensures s.calls != [] ==> s.calls[0] == CreateUser(f.email, f.password)
    ensures |s.calls| <= 2
    ensures |s.calls| == 2 <==> FieldsValid(f) && !outcome.CreateFailed?
    ensures |s.calls| == 2 ==> s.calls[1] == UpdateProfile(f.displayName)
    ensures s.messageWrites != [] && s.messageWrites[0] == ValidateFields(f).errorMessage
    ensures s.navigation.Some? <==> FieldsValid(f) && outcome == Completed
    ensures s.navigation.Some? ==> s.navigation.value == Navigation(LoginPath, RedirectDelayMs)
    ensures s.toast.Some? <==> s.navigation.Some?
    ensures s.toast.Some? ==> s.toast.value == Toast(SuccessToast, AccountCreated)
  {
    var v := ValidateFields(f);
    var create := CreateUser(f.email, f.password);
    if !v.ok then Submission([v.errorMessage], [], None, None)
    else match outcome
      case CreateFailed(_) =>
        Submission([v.errorMessage, CreateAccountFailed], [create], None, None)
      case ProfileFailed(_) =>
        Submission([v.errorMessage, DisplayNameFailed], [create, UpdateProfile(f.displayName)], None, None)
      case Completed =>
        Submission([v.errorMessage], [create, UpdateProfile(f.displayName)],
                   Some(Toast(SuccessToast, AccountCreated)), Some(Navigation(LoginPath, RedirectDelayMs)))
  }

  /** The message shown once a submission has settled, whatever was shown
      before it: the joined validation messages, one fixed message per
      provider failure, or nothing after a full success. */
  lemma SubmitMessage(previous: string, f: Fields, outcome: Outcome)
    ensures var shown := Final(previous, Submit(f, outcome).messageWrites);
      && (!FieldsValid(f) ==> shown == Join(Texts(CollectErrors(f), Text), " ") && shown != [])
      && (FieldsValid(f) && outcome.CreateFailed? ==> shown == CreateAccountFailed)
      && (FieldsValid(f) && outcome.ProfileFailed? ==> shown == DisplayNameFailed)
      && (FieldsValid(f) && outcome == Completed ==> shown == [])
  {
    var v := ValidateFields(f);
    var writes := Submit(f, outcome).messageWrites;
    assert writes[|writes| - 1] == Final(previous, writes);
  }

  /** Invalid fields stop the submission before the provider is asked, so its
      answer cannot matter. */
  lemma InvalidIgnoresProvider(f: Fields, o1: Outcome, o2: Outcome)
    requires !FieldsValid(f)
    ensures Submit(f, o1) == Submit(f, o2)
  {
  }

  /** The provider's error is discarded: every creation failure, and every
      profile failure, looks the same. */
  lemma ProviderErrorDiscarded(f: Fields, c1: string, c2: string)
    ensures Submit(f, CreateFailed(c1)) == Submit(f, CreateFailed(c2))
    ensures Submit(f, ProfileFailed(c1)) == Submit(f, ProfileFailed(c2))
  {
  }

  /** A whitespace-only password is reported as missing, however long it is,
      and never as too short. */
  lemma BlankPasswordIsMissing(f: Fields)
    requires IsBlank(f.password)
    ensures PasswordRequired in CollectErrors(f)
    ensures PasswordTooShort !in CollectErrors(f)
  {
  }

  /** A short password repeated in the confirmation is reported as too short
      and not as a mismatch ("abc" and "abc", for one). */
  lemma ShortMatchingPassword(f: Fields)
    requires f.password == f.confirmPassword
    requires !IsBlank(f.password) && Utf16Length(f.password) < MinPasswordLength
    ensures PasswordTooShort in CollectErrors(f)
    ensures PasswordMismatch !in CollectErrors(f)
    ensures !ValidateFields(f).ok
  {
  }

  /** With every other field in order, a differing confirmation is the one
      and only message shown. */
  lemma OnlyMismatch(f: Fields)
    requires !IsBlank(f.displayName) && HasEmailShape(f.email)
    requires !IsBlank(f.password) && Utf16Length(f.password) >= MinPasswordLength
    requires !IsBlank(f.confirmPassword) && f.confirmPassword != f.password
    ensures CollectErrors(f) == [PasswordMismatch]
    ensures ValidateFields(f).errorMessage == Text(PasswordMismatch)
  {
    ShapedEmailIsNotBlank(f.email);
  }

  /** "abcdef" confirmed as "xyz123", with a valid name and address. */
  lemma MismatchExample(name: string, email: string)
    requires !IsBlank(name) && HasEmailShape(email)
    ensures ValidateFields(Fields(name, email, "abcdef", "xyz123")).errorMessage == "Passwords do not match."
  {
    var f := Fields(name, email, "abcdef", "xyz123");
    assert !IsWhitespace(f.password[0]) && !IsWhitespace(f.confirmPassword[0]);
    OnlyMismatch(f);
  }

  /** Every reported problem's text appears, whole, in the message shown. */
  lemma ShownMessageMentionsEach(f: Fields)
    ensures forall p | p in CollectErrors(f) :: Contains(ValidateFields(f).errorMessage, Text(p))
  {
    var errors := CollectErrors(f);
    NothingReportedIffValid(f, errors);
    forall p | p in errors
      ensures Contains(ValidateFields(f).errorMessage, Text(p))
    {
      JoinedTextsMentionEach(errors, p);
    }
  }

  lemma JoinedTextsMentionEach(errors: seq<Problem>, p: Problem)
    requires p in errors
    ensures Contains(Join(Texts(errors, Text), " "), Text(p))
  {
    var k :| 0 <= k < |errors| && errors[k] == p;
    JoinContainsEach(Texts(errors, Text), " ", k);
  }

  /** "abc" confirmed as "abc", with a valid name and address: the only
      message is the length one. */
  lemma ShortPasswordExample(name: string, email: string)
    requires !IsBlank(name) && HasEmailShape(email)
    ensures ValidateFields(Fields(name, email, "abc", "abc")).errorMessage
      == "Password must be at least 6 characters."
  {
    var f := Fields(name, email, "abc", "abc");
    ShapedEmailIsNotBlank(email);
    assert !IsWhitespace(f.password[0]);
    ReportsDetermineList(f, [PasswordTooShort], CollectErrors(f));
  }

  /** `.length` counts an emoji as two code units, so four characters with
      one emoji make five units: still too short. */
  lemma AstralPasswordIsShort()
    ensures Utf16Length("\U{1F600}abc") == 5
    ensures PasswordErrors("\U{1F600}abc") == [PasswordTooShort]
  {
    var s := "\U{1F600}abc";
    Utf16LengthConcat(s[..1], s[1..]);
    assert s[..1] + s[1..] == s;
    assert Utf16Length(s[1..]) == 3 by {
      Utf16LengthIsSizeIffBmp(s[1..]);
    }
    assert !IsWhitespace(s[0]);
  }
}
