/** Frontend/app/index.tsx: the login screen's input handling. The
    sanitising text fields, the forgot-password request with its email
    check, and the reset-code check, over the screen's React state. The
    network calls appear as effects; the server's replies arrive through
    the callback methods. */
module LoginScreen {
  import opened Wrappers
  import opened Text
  import opened Sanitizer

  /** `host`, which the reset-password screen imports too. */
  const Host := "http://10.0.0.242:3000"

  /** What a handler asks the outside world to do, in order. */
  datatype Effect =
    | ShowAlert(title: string, message: Option<string>)      // Alert.alert(title[, message])
    | PostRequest(url: string, field: string, value: string)  // Post(url, { field: value }, ...)
    | Replace(path: string)                                   // router.replace(path)

  // ---------------------------------------------------------------------
  // The forgot-password email check
  // ---------------------------------------------------------------------

  /** `[^\s@]`: neither JavaScript white space nor '@'. */
  predicate IsAtomChar(c: char) {
    !IsJsSpace(c) && c != '@'
  }

  predicate AllAtoms(s: string) {
    forall i :: 0 <= i < |s| ==> IsAtomChar(s[i])
  }

  /** `/^[^\s@]+@[^\s@]+\.[^\s@]+$/.test(s)`: `s` is three non-empty runs of
      atom characters joined by an '@' and then a '.'; so accepted text
      has at least five characters, among them an '@' and a '.'. */
  predicate MatchesEmailPattern(s: string)
    ensures MatchesEmailPattern(s) ==> |s| >= 5 && '@' in s && '.' in s
  {
    exists at, dot :: 0 < at && at + 1 < dot && dot + 1 < |s|
      && s[at] == '@' && s[dot] == '.'
      && AllAtoms(s[..at]) && AllAtoms(s[at + 1..dot]) && AllAtoms(s[dot + 1..])
  }

  /** The shape the pattern accepts, stated directly: no white space,
      exactly one '@' with something before it, and a '.' after the '@'
      that is neither the first nor the last character of the domain. */
  predicate HasEmailShape(s: string) {
    && (forall i :: 0 <= i < |s| ==> !IsJsSpace(s[i]))
    && '@' in s
    && var at := IndexOf(s, '@');
       && at > 0
       && '@' !in s[at + 1..]
       && exists k :: at + 1 < k < |s| - 1 && s[k] == '.'
  }

  lemma EmailPatternShape(s: string)
    ensures MatchesEmailPattern(s) <==> HasEmailShape(s)
  {
    if MatchesEmailPattern(s) {
      var at, dot :| 0 < at && at + 1 < dot && dot + 1 < |s|
        && s[at] == '@' && s[dot] == '.'
        && AllAtoms(s[..at]) && AllAtoms(s[at + 1..dot]) && AllAtoms(s[dot + 1..]);
      PatternPartsShape(s, at, dot);
    }
    if HasEmailShape(s) {
      var at := IndexOf(s, '@');
      var dot :| at + 1 < dot < |s| - 1 && s[dot] == '.';
      ShapePartsPattern(s, at, dot);
    }
  }

  /** A match splits at the only '@' of the text. */
  lemma PatternPartsShape(s: string, at: int, dot: int)
    requires 0 < at && at + 1 < dot && dot + 1 < |s|
    requires s[at] == '@' && s[dot] == '.'
    requires AllAtoms(s[..at]) && AllAtoms(s[at + 1..dot]) && AllAtoms(s[dot + 1..])
    ensures HasEmailShape(s)
  {
    forall i | 0 <= i < |s| ensures !IsJsSpace(s[i]) && (i != at ==> s[i] != '@') {
      if i < at {
        assert s[i] == s[..at][i];
      } else if at < i < dot {
        assert s[i] == s[at + 1..dot][i - at - 1];
      } else if dot < i {
        assert s[i] == s[dot + 1..][i - dot - 1];
      }
    }
    assert s[at] in s;
    var first := IndexOf(s, '@');
    assert first == at;
  }

  /** Text of the shape splits into the three runs of the pattern at its
      '@' and at any inner '.' of the domain. */
  lemma ShapePartsPattern(s: string, at: int, dot: int)
    requires HasEmailShape(s) && at == IndexOf(s, '@')
    requires at + 1 < dot < |s| - 1 && s[dot] == '.'
    ensures MatchesEmailPattern(s)
  {
    ShapeAtoms(s, at);
    SliceAtoms(s, 0, at);
    SliceAtoms(s, at + 1, dot);
    SliceAtoms(s, dot + 1, |s|);
    assert s[dot + 1..|s|] == s[dot + 1..];
    assert s[0..at] == s[..at];
  }

  /** In text of the shape every character but the '@' is an atom. */
  lemma ShapeAtoms(s: string, at: int)
    requires HasEmailShape(s) && at == IndexOf(s, '@')
    ensures forall i :: 0 <= i < |s| && i != at ==> IsAtomChar(s[i])
  {
    forall i | 0 <= i < |s| && i != at ensures IsAtomChar(s[i]) {
      if i < at {
        assert s[i] == s[..at][i];
      } else {
        assert s[i] == s[at + 1..][i - at - 1];
      }
    }
  }

  /** A slice of atom characters is a run of atoms. */
  lemma SliceAtoms(s: string, lo: int, hi: int)
    requires 0 <= lo <= hi <= |s|
    requires forall i :: lo <= i < hi ==> IsAtomChar(s[i])
    ensures AllAtoms(s[lo..hi])
  {
  }

  /** "a@b.co" is accepted. */
  lemma EmailPatternAccepts()
    ensures MatchesEmailPattern("a@b.co")
  {
    var s := "a@b.co";
    assert s[1] == '@' && s[3] == '.';
    assert s[..1] == "a" && s[2..3] == "b" && s[4..] == "co";
    assert IsAtomChar('a') && IsAtomChar('b') && IsAtomChar('c') && IsAtomChar('o');
    assert AllAtoms(s[..1]) && AllAtoms(s[2..3]) && AllAtoms(s[4..]);
  }

  /** "a@b" has no dot after the '@' and "a@@b.c" a second '@'. */
  lemma EmailPatternRejects()
    ensures !MatchesEmailPattern("a@b")
    ensures !MatchesEmailPattern("a@@b.c")
  {
    EmailPatternShape("a@b");
    assert IndexOf("a@b", '@') == 1;
    EmailPatternShape("a@@b.c");
    assert IndexOf("a@@b.c", '@') == 1;
    assert "a@@b.c"[2..][0] == '@';
  }

  // ---------------------------------------------------------------------
  // The screen's state and handlers
  // ---------------------------------------------------------------------

  /** All of the screen's state at one moment, for stating what a handler
      leaves alone. */
  datatype ScreenState = ScreenState(
    email: string, password: string, modalEmail: string, resetCode: string,
    serverCode: string, error: string, isModalVisible: bool, isCodeModalVisible: bool)

  class Screen {
    var email: string
    var password: string
    var modalEmail: string           // the forgot-password modal's field
    var resetCode: string            // the code the user typed
    var serverCode: string           // forgotPassCode.code, set from the server's reply
    var error: string
    var isModalVisible: bool
    var isCodeModalVisible: bool

    function State(): ScreenState
      reads this
    {
      ScreenState(email, password, modalEmail, resetCode, serverCode, error,
        isModalVisible, isCodeModalVisible)
    }

    constructor ()
      ensures State() == ScreenState("", "", "", "", "", "", false, false)
    {
      email, password, modalEmail, resetCode := "", "", "", "";
      serverCode, error := "", "";
      isModalVisible, isCodeModalVisible := false, false;
    }

    /** The email field: `Sanitizer(text, setEmail, /[^a-zA-Z0-9@.]/g)`. */
    method OnEmailChange(text: string)
      modifies this
      ensures State() == old(State()).(email := SanitizeEmail(text))
    {
      email := SanitizeEmail(text);
    }

    /** The password field: `Sanitizer(text, setPassword, /[<>()]/g)`. */
    method OnPasswordChange(text: string)
      modifies this
      ensures State() == old(State()).(password := SanitizePassword(text))
    {
      password := SanitizePassword(text);
    }

    /** The modal's email field stores what is typed, unsanitised. */
    method OnModalEmailChange(text: string)
      modifies this
      ensures State() == old(State()).(modalEmail := text)
    {
      modalEmail := text;
    }

    method OnResetCodeChange(text: string)
      modifies this
      ensures State() == old(State()).(resetCode := text)
    {
      resetCode := text;
    }

    /** `handleForgotPwrd`: trim the modal's email; an empty one and then one
        the pattern rejects each raise an alert, and only an accepted one is
        posted, trimmed. No state changes here. */
    method HandleForgotPwrd() returns (effects: seq<Effect>)
      ensures Trim(modalEmail) == "" ==>
        effects == [ShowAlert("Error", Some("Please enter your email address."))]
      ensures Trim(modalEmail) != "" && !MatchesEmailPattern(Trim(modalEmail)) ==>
        effects == [ShowAlert("Error", Some("Please enter a valid email address in the format: example@gmail.com"))]
      ensures |effects| == 1
      ensures effects[0].PostRequest? <==> Trim(modalEmail) != "" && HasEmailShape(Trim(modalEmail))
      ensures Trim(modalEmail) != "" && HasEmailShape(Trim(modalEmail)) ==>
        effects == [PostRequest(Host + "/users/forgot-password", "email", Trim(modalEmail))]
    {
      var trimmedEmail := Trim(modalEmail);
      EmailPatternShape(trimmedEmail);
      if trimmedEmail == "" {
        return [ShowAlert("Error", Some("Please enter your email address."))];
      }
      if !MatchesEmailPattern(trimmedEmail) {
        return [ShowAlert("Error", Some("Please enter a valid email address in the format: example@gmail.com"))];
      }
      effects := [PostRequest(Host + "/users/forgot-password", "email", trimmedEmail)];
    }

    /** The request's success path: `setCode(data)`, then the success alert,
        the email modal closed and the code modal opened. */
    method ForgotPasswordReplied(code: string) returns (effects: seq<Effect>)
      modifies this
      ensures State() == old(State()).(serverCode := code, isModalVisible := false, isCodeModalVisible := true)
      ensures effects == [ShowAlert("Success", Some("Password reset email has been sent successfully."))]
    {
      serverCode := code;
      effects := [ShowAlert("Success", Some("Password reset email has been sent successfully."))];
      isModalVisible := false;
      isCodeModalVisible := true;
    }

    /** The request's error path: a string error is shown as it is,
        anything else as a generic message. */
    method ForgotPasswordFailed(serverError: Option<string>) returns (effects: seq<Effect>)
      modifies this
      ensures var message := if serverError.Some? then serverError.value else "An unexpected error occurred.";
        && State() == old(State()).(error := message)
        && effects == [ShowAlert("Error", Some(message))]
    {
      var message := if serverError.Some? then serverError.value else "An unexpected error occurred.";
      error := message;
      effects := [ShowAlert("Error", Some(message))];
    }

    /** `handleVerifyCode`: an empty code, then a code other than the
        server's, raise an alert and change nothing; only the exact code
        moves on to the reset screen and closes the code modal. */
    method HandleVerifyCode() returns (effects: seq<Effect>)
      modifies this
      ensures resetCode == "" ==>
        effects == [ShowAlert("Error", Some("Please enter the reset code."))] && State() == old(State())
      ensures resetCode != "" && resetCode != serverCode ==>
        effects == [ShowAlert("Wrong password reset code, please try again", None)] && State() == old(State())
      ensures Replace("/forgetPassword") in effects <==> resetCode != "" && resetCode == serverCode
      ensures resetCode != "" && resetCode == serverCode ==>
        && effects == [Replace("/forgetPassword"), ShowAlert("Success", Some("Code verified! Proceed to reset your password."))]
        && State() == old(State()).(isCodeModalVisible := false)
    {
      if resetCode == "" {
        return [ShowAlert("Error", Some("Please enter the reset code."))];
      }
      if resetCode != serverCode {
        return [ShowAlert("Wrong password reset code, please try again", None)];
      }
      effects := [Replace("/forgetPassword"), ShowAlert("Success", Some("Code verified! Proceed to reset your password."))];
      isCodeModalVisible := false;
    }
  }

  /** The whole forgot-password exchange on a fresh screen: a code typed
      before the server has sent one is refused, the request carries the
      typed email, and after the reply the server's code is accepted. */
  method ForgotPasswordFlow(typedEmail: string, code: string)
    returns (early: seq<Effect>, request: seq<Effect>, accepted: seq<Effect>)
    requires typedEmail != "" && !IsJsSpace(typedEmail[0]) && !IsJsSpace(typedEmail[|typedEmail| - 1])
    requires HasEmailShape(typedEmail) && code != ""
    ensures early == [ShowAlert("Wrong password reset code, please try again", None)]
    ensures request == [PostRequest(Host + "/users/forgot-password", "email", typedEmail)]
    ensures accepted == [Replace("/forgetPassword"), ShowAlert("Success", Some("Code verified! Proceed to reset your password."))]
  {
    var screen := new Screen();
    screen.OnResetCodeChange(code);
    early := screen.HandleVerifyCode();
    screen.OnModalEmailChange(typedEmail);
    TrimUnchanged(typedEmail);
    request := screen.HandleForgotPwrd();
    var _ := screen.ForgotPasswordReplied(code);
    accepted := screen.HandleVerifyCode();
  }
}
