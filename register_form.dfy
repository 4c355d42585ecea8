/** Frontend/app/register.tsx: `handleRegister`, the sign-up form's
    client-side validation. A list of (value, message) entries is searched
    for the first empty value; then the password length and the
    confirmation are checked. The outcome is the one alert shown. */
module RegisterForm {
  import opened Wrappers
  import opened Text

  datatype Form = Form(
    firstName: string, lastName: string, email: string,
    password: string, confirmPassword: string, age: string)

  /** `Alert.alert(title, message)`. */
  datatype Alert = Alert(title: string, message: string)

  /** One entry of the `fields` array. */
  datatype Entry = Entry(value: string, message: string)

  const PasswordMissing := "Please enter your password."
  const PasswordLength := "Password must be between 6 and 16 characters."
  const PasswordMismatch := "Passwords do not match."
  const Registered := Alert("Success", "Registration complete!")

  /** Every message an error alert of the form can carry. */
  const ErrorMessages: set<string> := {
    "Please enter your first name.", "Please enter your last name.",
    "Please enter your email address.", PasswordMissing,
    "Please enter your age.", PasswordLength, PasswordMismatch}

  /** The entries as written: the password entry tests `email`. */
  function EntriesAsWritten(f: Form): seq<Entry> {
    [Entry(f.firstName, "Please enter your first name."),
     Entry(f.lastName, "Please enter your last name."),
     Entry(f.email, "Please enter your email address."),
     Entry(f.email, PasswordMissing),
     Entry(f.age, "Please enter your age.")]
  }

  /** The entries as evidently intended: the password entry tests the
      password. */
  function EntriesIntended(f: Form): seq<Entry> {
    [Entry(f.firstName, "Please enter your first name."),
     Entry(f.lastName, "Please enter your last name."),
     Entry(f.email, "Please enter your email address."),
     Entry(f.password, PasswordMissing),
     Entry(f.age, "Please enter your age.")]
  }

  /** The `for…of` search: the message of the first entry whose value is
      empty, or `None` when every value is filled in. */
  function FirstEmpty(entries: seq<Entry>): (r: Option<string>)
    ensures r.None? <==> forall i :: 0 <= i < |entries| ==> entries[i].value != ""
    ensures r.Some? ==>
      exists i :: 0 <= i < |entries| && entries[i].value == ""
        && entries[i].message == r.value && EmptyFirstAt(entries, i)
  {
    if entries == [] then None
    else if entries[0].value == "" then
      assert EmptyFirstAt(entries, 0);
      Some(entries[0].message)
    else
      var r := FirstEmpty(entries[1..]);
      if r.Some? then
        var i :| 0 <= i < |entries[1..]| && entries[1..][i].value == ""
          && entries[1..][i].message == r.value && EmptyFirstAt(entries[1..], i);
        assert EmptyFirstAt(entries, i + 1);
        r
      else r
  }

  /** No entry before `i` is empty. */
  predicate EmptyFirstAt(entries: seq<Entry>, i: int) {
    forall j :: 0 <= j < i && j < |entries| ==> entries[j].value != ""
  }

  /** The search stops at the first empty entry, wherever it is. */
  lemma FirstEmptyAt(entries: seq<Entry>, i: int)
    requires 0 <= i < |entries| && entries[i].value == "" && EmptyFirstAt(entries, i)
    ensures FirstEmpty(entries) == Some(entries[i].message)
  {
    var r := FirstEmpty(entries);
    var k :| 0 <= k < |entries| && entries[k].value == ""
      && entries[k].message == r.value && EmptyFirstAt(entries, k);
    assert k == i;
  }

  /** The checks after the search: the length bounds first, then the
      confirmation. `password.length` counts UTF-16 code units. */
  function Validate(entries: seq<Entry>, password: string, confirmPassword: string): (r: Alert)
    ensures r == Registered <==>
      (forall i :: 0 <= i < |entries| ==> entries[i].value != "")
      && 6 <= Utf16Length(password) <= 16 && password == confirmPassword
    ensures r != Registered ==>
      && r.title == "Error"
      && (|| r.message in {PasswordLength, PasswordMismatch}
          || exists i :: 0 <= i < |entries| && entries[i].value == "" && entries[i].message == r.message)
  {
    match FirstEmpty(entries)
    case Some(message) => Alert("Error", message)
    case None =>
      var length := Utf16Length(password);
      if length < 6 || length > 16 then Alert("Error", PasswordLength)
      else if password != confirmPassword then Alert("Error", PasswordMismatch)
      else Registered
  }

  /** `handleRegister` as written. */
  function HandleRegister(f: Form): (r: Alert)
    ensures r == Registered || (r.title == "Error" && r.message in ErrorMessages)
  {
    var entries := EntriesAsWritten(f);
    var r := Validate(entries, f.password, f.confirmPassword);
    assert forall i :: 0 <= i < |entries| ==> entries[i].message in ErrorMessages;
    r
  }

  /** `handleRegister` with the password entry testing the password. */
  function HandleRegisterIntended(f: Form): (r: Alert)
    ensures r == Registered || (r.title == "Error" && r.message in ErrorMessages)
  {
    var entries := EntriesIntended(f);
    var r := Validate(entries, f.password, f.confirmPassword);
    assert forall i :: 0 <= i < |entries| ==> entries[i].message in ErrorMessages;
    r
  }

  predicate Complete(f: Form) {
    f.firstName != "" && f.lastName != "" && f.email != "" && f.password != "" && f.age != ""
  }

  predicate PasswordAcceptable(f: Form) {
    6 <= Utf16Length(f.password) <= 16 && f.password == f.confirmPassword
  }

  /** The form reports success exactly when every field is filled in and
      the password has 6 to 16 UTF-16 code units and matches its
      confirmation.
      This holds as written too: the length check catches an empty
      password. */
  lemma RegisterSuccess(f: Form)
    ensures HandleRegister(f) == Registered <==> Complete(f) && PasswordAcceptable(f)
    ensures HandleRegisterIntended(f) == Registered <==> Complete(f) && PasswordAcceptable(f)
  {
    var w := EntriesAsWritten(f);
    var n := EntriesIntended(f);
    assert FirstEmpty(w).None? <==> f.firstName != "" && f.lastName != "" && f.email != "" && f.age != ""
    by {
      assert w[0].value == f.firstName && w[1].value == f.lastName && w[2].value == f.email && w[4].value == f.age;
    }
    assert FirstEmpty(n).None? <==> Complete(f) by {
      assert n[0].value == f.firstName && n[1].value == f.lastName && n[2].value == f.email;
      assert n[3].value == f.password && n[4].value == f.age;
    }
  }

  /** The alert names the first empty field in the order first name, last
      name, email, age; as written the password is never reported missing. */
  lemma RegisterFirstMissing(f: Form)
    ensures f.firstName == "" ==> HandleRegister(f) == Alert("Error", "Please enter your first name.")
    ensures f.firstName != "" && f.lastName == "" ==>
      HandleRegister(f) == Alert("Error", "Please enter your last name.")
    ensures f.firstName != "" && f.lastName != "" && f.email == "" ==>
      HandleRegister(f) == Alert("Error", "Please enter your email address.")
    ensures f.firstName != "" && f.lastName != "" && f.email != "" && f.age == "" ==>
      HandleRegister(f) == Alert("Error", "Please enter your age.")
    ensures HandleRegister(f).message != PasswordMissing
  {
    var w := EntriesAsWritten(f);
    if f.firstName == "" {
      FirstEmptyAt(w, 0);
    } else if f.lastName == "" {
      FirstEmptyAt(w, 1);
    } else if f.email == "" {
      FirstEmptyAt(w, 2);
    } else if f.age == "" {
      FirstEmptyAt(w, 4);
    }
  }

  /** Once every entry is filled in, a password of the wrong length is
      reported whatever the confirmation says, and only a password of the
      right length is compared with it. */
  lemma RegisterPasswordChecks(f: Form)
    requires f.firstName != "" && f.lastName != "" && f.email != "" && f.age != ""
    ensures Utf16Length(f.password) < 6 || Utf16Length(f.password) > 16 ==>
      HandleRegister(f) == Alert("Error", PasswordLength)
    ensures 6 <= Utf16Length(f.password) <= 16 && f.password != f.confirmPassword ==>
      HandleRegister(f) == Alert("Error", PasswordMismatch)
  {
    assert FirstEmpty(EntriesAsWritten(f)).None?;
  }

  /** The slip as written: with the other fields filled in, an empty
      password passes the search and is reported by the length check. */
  lemma EmptyPasswordSlipsThrough()
    ensures HandleRegister(Form("Ada", "Lovelace", "ada@x.org", "", "", "36"))
      == Alert("Error", PasswordLength)
    ensures HandleRegisterIntended(Form("Ada", "Lovelace", "ada@x.org", "", "", "36"))
      == Alert("Error", PasswordMissing)
  {
    var f := Form("Ada", "Lovelace", "ada@x.org", "", "", "36");
    RegisterPasswordChecks(f);
    RegisterIntendedPasswordMissing(f);
  }

  /** Three emoji make six UTF-16 code units, so they pass the length
      check although they are three characters. */
  lemma EmojiPasswordAccepted()
    ensures HandleRegister(Form("Ada", "Lovelace", "ada@x.org",
      "\U{1F600}\U{1F600}\U{1F600}", "\U{1F600}\U{1F600}\U{1F600}", "36")) == Registered
  {
    var password := "\U{1F600}\U{1F600}\U{1F600}";
    Utf16LengthAstral(password);
    RegisterSuccess(Form("Ada", "Lovelace", "ada@x.org", password, password, "36"));
  }

  /** For a password without astral characters the code units are the
      characters, so the length check is on `|password|`. */
  lemma BmpPasswordAcceptable(f: Form)
    requires forall i :: 0 <= i < |f.password| ==> !IsAstral(f.password[i])
    ensures PasswordAcceptable(f) <==> 6 <= |f.password| <= 16 && f.password == f.confirmPassword
  {
    Utf16LengthBmp(f.password);
  }

  /** As intended, an empty password is reported missing once the fields
      before it are filled in. */
  lemma RegisterIntendedPasswordMissing(f: Form)
    requires f.firstName != "" && f.lastName != "" && f.email != "" && f.password == ""
    ensures HandleRegisterIntended(f) == Alert("Error", PasswordMissing)
  {
    FirstEmptyAt(EntriesIntended(f), 3);
  }

  /** The two versions differ exactly on forms whose first three fields are
      filled in and whose password is empty. */
  lemma RegisterVersionsDiffer(f: Form)
    ensures HandleRegister(f) != HandleRegisterIntended(f) <==>
      f.firstName != "" && f.lastName != "" && f.email != "" && f.password == ""
  {
    var w := EntriesAsWritten(f);
    var n := EntriesIntended(f);
    RegisterSuccess(f);
    if f.firstName == "" {
      FirstEmptyAt(w, 0);
      FirstEmptyAt(n, 0);
    } else if f.lastName == "" {
      FirstEmptyAt(w, 1);
      FirstEmptyAt(n, 1);
    } else if f.email == "" {
      FirstEmptyAt(w, 2);
      FirstEmptyAt(n, 2);
    } else if f.password == "" {
      RegisterIntendedPasswordMissing(f);
      RegisterFirstMissing(f);
    } else if f.age == "" {
      FirstEmptyAt(w, 4);
      FirstEmptyAt(n, 4);
    } else {
      assert FirstEmpty(w).None? && FirstEmpty(n).None?;
    }
  }
}
