/** `validateLoginInput`: the login request check. Whether an address is well
    formed is decided by an external library, so it is a parameter here. */
module LoginValidation {
  import opened Outcomes
  import opened Validation

  const PasswordRequired := "Password field is required"
  const EmailInvalid := "Email is invalid"
  const EmailRequired := "Email field is required"

  /** Password check first, then the address check, then the required check on
      the address, which overwrites the invalid-address message. */
  function Validate(email: Option<string>, password: Option<string>, isEmail: string -> bool): (v: Verdict)
    ensures v.errors.Keys <= {"email", "password"}
    ensures v.isValid <==> v.errors == map[]
    ensures "password" in v.errors <==> Normalize(password) == ""
    ensures "password" in v.errors ==> v.errors["password"] == PasswordRequired
    ensures Normalize(email) == "" ==> "email" in v.errors && v.errors["email"] == EmailRequired
    ensures Normalize(email) != "" && !isEmail(Normalize(email)) ==>
              "email" in v.errors && v.errors["email"] == EmailInvalid
    ensures Normalize(email) != "" && isEmail(Normalize(email)) ==> "email" !in v.errors
    ensures v.isValid <==>
              Normalize(password) != "" && Normalize(email) != "" && isEmail(Normalize(email))
  {
    var e := Normalize(email);
    var p := Normalize(password);
    var noErrors: ErrorMap := map[];
    var withPassword := if p == "" then noErrors["password" := PasswordRequired] else noErrors;
    var withInvalid := if !isEmail(e) then withPassword["email" := EmailInvalid] else withPassword;
    var withRequired := if e == "" then withInvalid["email" := EmailRequired] else withInvalid;
    Conclude(withRequired)
  }

  /** The password entry depends only on the password, the email entry only on
      the email. */
  lemma EntriesAreIndependent(e1: Option<string>, e2: Option<string>,
                              p1: Option<string>, p2: Option<string>, isEmail: string -> bool)
    ensures Lookup(Validate(e1, p1, isEmail).errors, "password")
         == Lookup(Validate(e2, p1, isEmail).errors, "password")
    ensures Lookup(Validate(e1, p1, isEmail).errors, "email")
         == Lookup(Validate(e1, p2, isEmail).errors, "email")
  {
  }
}
