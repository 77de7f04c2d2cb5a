/**
 The sign-in form's submit handler `signIn`: it clears the error list, checks
 that both inputs are non-empty, asks the identity provider to verify the
 credentials, and on failure translates the provider's error code into one
 message. The provider is not modelled; its answer is an `Outcome` given to
 the handler.
 */
module SignIn {
  import opened MessageLists
  import opened FormEffects

  /** The two controlled inputs of the form. */
  datatype Fields = Fields(email: string, password: string)

  /** The presence checks that can fail, declared in the order they run. */
  datatype Missing = MissingEmail | MissingPassword

  function Text(m: Missing): string {
    match m
    case MissingEmail => "Email address is required."
    case MissingPassword => "Password is required."
  }

  function Rank(m: Missing): int {
    match m
    case MissingEmail => 0
    case MissingPassword => 1
  }

  /** The provider error codes the form recognises, and their messages. */
  const InvalidEmailCode := "auth/invalid-email"
  const UserNotFoundCode := "auth/user-not-found"
  const WrongPasswordCode := "auth/wrong-password"

  const InvalidEmailMessage := "The email address is not valid."
  const UserNotFoundMessage := "No user found with this email address."
  const WrongPasswordMessage := "Incorrect password. Please try again."
  const GenericFailureMessage := "An error occurred. Please try again."

  const LoginSucceeded := "Login successful! Welcome back."
  const LoginFailed := "Login failed. Please check your email or password."
  const HomePath := "/"

  /** The translation table, as a map from recognised code to message. */
  const KnownCodes: map<string, string> := map[
    InvalidEmailCode := InvalidEmailMessage,
    UserNotFoundCode := UserNotFoundMessage,
    WrongPasswordCode := WrongPasswordMessage]

  /** The validation errors: a message for each empty input, email first.
      Emptiness is plain: an input of spaces is present. */
  function PresenceErrors(f: Fields): (r: seq<Missing>)
    ensures MissingEmail in r <==> f.email == []
    ensures MissingPassword in r <==> f.password == []
    ensures Ascending(r, Rank)
  {
    (if f.email == [] then [MissingEmail] else [])
      + (if f.password == [] then [MissingPassword] else [])
  }

  /** The contract of `PresenceErrors` leaves no freedom: an ascending list
      naming exactly the empty inputs is that list. */
  lemma PresenceErrorsDetermined(f: Fields, r: seq<Missing>)
    requires MissingEmail in r <==> f.email == []
    requires MissingPassword in r <==> f.password == []
    requires Ascending(r, Rank)
    ensures r == PresenceErrors(f)
  {
    var expected := PresenceErrors(f);
    forall m
      ensures m in r <==> m in expected
    {
      match m
      case MissingEmail =>
      case MissingPassword =>
    }
    AscendingDeterminedByContents(r, expected, Rank);
  }

  /** The `switch (error.code)`: one message for every code, the generic one
      for any code outside the table. */
  function MessageForCode(code: string): (m: string)
    ensures code in KnownCodes ==> m == KnownCodes[code]
    ensures code !in KnownCodes ==> m == GenericFailureMessage
  {
    if code == InvalidEmailCode then InvalidEmailMessage
    else if code == UserNotFoundCode then UserNotFoundMessage
    else if code == WrongPasswordCode then WrongPasswordMessage
    else GenericFailureMessage
  }

  /** The specific messages differ from one another and from the generic
      one, so a specific message names the code that caused it. */
  lemma MessageIdentifiesKnownCode(c1: string, c2: string)
    requires MessageForCode(c1) == MessageForCode(c2)
    requires MessageForCode(c1) != GenericFailureMessage
    ensures c1 == c2 && c1 in KnownCodes
  {
    assert InvalidEmailMessage != UserNotFoundMessage;
    assert InvalidEmailMessage != WrongPasswordMessage;
    assert UserNotFoundMessage != WrongPasswordMessage;
    assert InvalidEmailMessage != GenericFailureMessage;
    assert UserNotFoundMessage != GenericFailureMessage;
    assert WrongPasswordMessage != GenericFailureMessage;
  }

  /** The provider's answer to `signInWithEmailAndPassword`. */
  datatype Outcome = Succeeded | Failed(code: string)

  /** Everything one submission does: the values written to `errors`, in
      order, the credentials sent to the provider, the toast and the
      redirect. */
  datatype Submission = Submission(
    errorWrites: seq<seq<string>>,
    sent: Option<Fields>,
    toast: Option<Toast>,
    navigation: Option<Navigation>)

  /** The submit handler `signIn`, abstracted over the provider's answer. */
  function Submit(f: Fields, outcome: Outcome): (s: Submission)
    ensures s.errorWrites != [] && s.errorWrites[0] == []
    ensures |s.errorWrites| <= 2
    ensures s.sent.Some? <==> f.email != [] && f.password != []
    ensures s.sent.Some? ==> s.sent.value == f
    ensures s.navigation.Some? <==> s.sent.Some? && outcome == Succeeded
    ensures s.navigation.Some? ==> s.navigation.value == Navigation(HomePath, RedirectDelayMs)
    ensures s.toast.Some? <==> s.sent.Some?
    ensures s.toast.Some? && outcome == Succeeded ==> s.toast.value == Toast(SuccessToast, LoginSucceeded)
    ensures s.toast.Some? && outcome.Failed? ==> s.toast.value == Toast(ErrorToast, LoginFailed)
  {
    if f.email == [] || f.password == [] then
      Submission([[], Texts(PresenceErrors(f), Text)], None, None, None)
    else match outcome
      case Succeeded =>
        Submission([[]], Some(f), Some(Toast(SuccessToast, LoginSucceeded)),
                   Some(Navigation(HomePath, RedirectDelayMs)))
      case Failed(code) =>
        Submission([[], [MessageForCode(code)]], Some(f), Some(Toast(ErrorToast, LoginFailed)), None)
  }

  /** The error list once a submission has settled, whatever it held before:
      the presence messages when an input is empty, nothing after a success,
      and exactly one translated message after a failure. */
  lemma SubmitErrors(previous: seq<string>, f: Fields, outcome: Outcome)
    ensures var shown := Final(previous, Submit(f, outcome).errorWrites);
      && (f.email == [] || f.password == [] ==> shown == Texts(PresenceErrors(f), Text) && shown != [])
      && (f.email != [] && f.password != [] && outcome == Succeeded ==> shown == [])
      && (f.email != [] && f.password != [] && outcome.Failed? ==> shown == [MessageForCode(outcome.code)])
      && (Submit(f, outcome).navigation.Some? ==> shown == [])
  {
    var writes := Submit(f, outcome).errorWrites;
    assert Final(previous, writes) == writes[|writes| - 1];
  }

  /** Empty inputs stop the submission before the provider is asked, so its
      answer cannot matter. */
  lemma MissingInputIgnoresProvider(f: Fields, o1: Outcome, o2: Outcome)
    requires f.email == [] || f.password == []
    ensures Submit(f, o1) == Submit(f, o2)
  {
  }

  /** Inputs made only of spaces are not empty: they pass the local check and
      are sent to the provider as they are. */
  lemma SpacesAreSent(f: Fields, outcome: Outcome)
    requires f.email != [] && f.password != []
    requires forall i | 0 <= i < |f.email| :: f.email[i] == ' '
    requires forall i | 0 <= i < |f.password| :: f.password[i] == ' '
    ensures PresenceErrors(f) == []
    ensures Submit(f, outcome).sent == Some(f)
  {
  }

  /** With both inputs empty, both messages are listed, email first. */
  lemma BothMissing(previous: seq<string>, outcome: Outcome)
    ensures Final(previous, Submit(Fields([], []), outcome).errorWrites)
      == ["Email address is required.", "Password is required."]
  {
    SubmitErrors(previous, Fields([], []), outcome);
  }

  /** With only the password empty, only its message is listed. */
  lemma OnlyPasswordMissing(previous: seq<string>, email: string, outcome: Outcome)
    requires email != []
    ensures Final(previous, Submit(Fields(email, []), outcome).errorWrites) == ["Password is required."]
  {
    SubmitErrors(previous, Fields(email, []), outcome);
  }

  /** A wrong password and an unlisted code, as the user sees them. */
  lemma CodeExamples()
    ensures MessageForCode("auth/wrong-password") == "Incorrect password. Please try again."
    ensures MessageForCode("auth/some-unlisted-code") == "An error occurred. Please try again."
  {
  }
}
