/** The validators of the registration and password-reset forms
    (tracker/forms.py): password confirmation, the duplicate-email check,
    and the user row `save` builds, where the email doubles as username. */
module Forms {

  import opened Base
  import opened Text
  import opened Models

  /** A field's `clean_*` outcome: the cleaned value, or a `ValidationError`. */
  datatype Cleaned<T> = Valid(value: T) | Invalid(message: string)

  const PasswordMismatch: string := "Passwords do not match."
  const EmailRegistered: string := "This email is already registered."

  /** `CustomUserCreationForm.clean_password2`. A missing or empty password
      is not compared (the required-field check reports it elsewhere). */
  function CleanPassword2(password1: Option<string>, password2: Option<string>): (r: Cleaned<Option<string>>)
    ensures r.Invalid? <==> Truthy(password1) && Truthy(password2) && password1 != password2
    ensures r.Invalid? ==> r.message == PasswordMismatch
    ensures r.Valid? ==> r.value == password2
    ensures r.Valid? && password1.Some? && password2.Some? && password1.value != "" ==>
      password2.value == "" || password1 == password2
  {
    if Truthy(password1) && Truthy(password2) && password1 != password2 then Invalid(PasswordMismatch)
    else Valid(password2)
  }

  /** `PasswordResetConfirmForm.clean_password2`, written separately in the
      source. */
  function ResetCleanPassword2(password1: Option<string>, password2: Option<string>): (r: Cleaned<Option<string>>)
    ensures r.Invalid? ==> password1.Some? && password2.Some? && password1.value != password2.value
    ensures r.Valid? ==> r.value == password2
    ensures r == CleanPassword2(password1, password2)
  {
    if password1.Some? && password1.value != "" && password2.Some? && password2.value != ""
       && password1.value != password2.value
    then Invalid(PasswordMismatch)
    else Valid(password2)
  }

  /** Some user already holds exactly this email. */
  predicate EmailHeld(users: seq<User>, email: string) {
    exists i :: 0 <= i < |users| && users[i].email == email
  }

  /** `CustomUserCreationForm.clean_email`: an exact-match existence check. */
  function CleanEmail(email: string, users: seq<User>): (r: Cleaned<string>)
    ensures r.Invalid? <==> EmailHeld(users, email)
    ensures r.Invalid? ==> r.message == EmailRegistered
    ensures r.Valid? ==> r.value == email
  {
    if EmailHeld(users, email) then Invalid(EmailRegistered) else Valid(email)
  }

  /** `CustomUserCreationForm.save`: the cleaned email is both username and email. */
  function SaveUser(email: string): (u: User)
    ensures u.username == email && u.email == email
    ensures !u.isStaff
  {
    User(email, email, "", "", false)
  }

  /** No two users share an email, compared exactly. */
  predicate EmailsUnique(users: seq<User>) {
    forall i, j :: 0 <= i < j < |users| ==> users[i].email != users[j].email
  }

  /** Saving a user whose email passed `clean_email` keeps emails unique
      under exact comparison. */
  lemma CleanEmailKeepsUnique(users: seq<User>, email: string)
    requires EmailsUnique(users)
    requires CleanEmail(email, users).Valid?
    ensures EmailsUnique(users + [SaveUser(email)])
  {
    var after := users + [SaveUser(email)];
    forall i, j | 0 <= i < j < |after|
      ensures after[i].email != after[j].email
    {
      if j == |users| {
        assert after[i] == users[i];
      }
    }
  }

  // ------------------------------------------- caseless duplicate emails

  /** No two users share an email up to ASCII case. */
  predicate CaselessUnique(users: seq<User>) {
    forall i, j :: 0 <= i < j < |users| ==> !SameIgnoringCase(users[i].email, users[j].email)
  }

  /** Some user holds this email up to ASCII case. */
  predicate EmailHeldCaseless(users: seq<User>, email: string) {
    exists i :: 0 <= i < |users| && SameIgnoringCase(users[i].email, email)
  }

  /** `clean_email` as the login view needs it: the duplicate check uses the
      same case-insensitive comparison as the `email__iexact` login lookup. */
  function CleanEmailCaseless(email: string, users: seq<User>): (r: Cleaned<string>)
    ensures r.Invalid? <==> EmailHeldCaseless(users, email)
    ensures r.Valid? ==> r.value == email
  {
    if EmailHeldCaseless(users, email) then Invalid(EmailRegistered) else Valid(email)
  }

  /** The caseless check rejects everything the exact one does. */
  lemma CaselessRejectsMore(users: seq<User>, email: string)
    requires CleanEmail(email, users).Invalid?
    ensures CleanEmailCaseless(email, users).Invalid?
  {
    var i :| 0 <= i < |users| && users[i].email == email;
    assert SameIgnoringCase(users[i].email, email);
  }

  /** Saving a user whose email passed the caseless check keeps emails
      unique up to case. */
  lemma CleanEmailCaselessKeepsUnique(users: seq<User>, email: string)
    requires CaselessUnique(users)
    requires CleanEmailCaseless(email, users).Valid?
    ensures CaselessUnique(users + [SaveUser(email)])
  {
    var after := users + [SaveUser(email)];
    forall i, j | 0 <= i < j < |after|
      ensures !SameIgnoringCase(after[i].email, after[j].email)
    {
      if j == |users| {
        assert after[i] == users[i];
      }
    }
  }
}
