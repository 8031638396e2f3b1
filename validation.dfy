/** The express-validator chains in front of `/register` and `/login`, and
    the request bodies they inspect. A field absent from the body is None;
    the validator reads it as the empty string. */
module Validation {
  import opened Models
  import opened Http

  datatype RegisterRequest = RegisterRequest(username: Option<string>, email: Option<string>, password: Option<string>)
  datatype LoginRequest = LoginRequest(email: Option<string>, password: Option<string>)

  const UsernameMsg := "Username is required"
  const EmailMsg := "Please include a valid email"
  const PasswordLengthMsg := "Please enter a password with 6 or more characters"
  const PasswordRequiredMsg := "Password is required"
  /** `isLength({ min: 6 })` on the password of `/register`. */
  const MinPasswordLength := 6

  /** The string a validator sees for a body field. */
  function FieldText(v: Option<string>): (text: string)
  {
    if v.Some? then v.value else ""
  }

  /** `isEmail()`. `isEmail` stands for validator.js's email syntax check,
      which is not modelled; the one fact stated concretely is that the check
      rejects the empty string, so a missing field never passes it. */
  predicate EmailAccepted(isEmail: string -> bool, v: Option<string>)
  {
    FieldText(v) != "" && isEmail(FieldText(v))
  }

  /** One rule of a chain: no error when it holds, else one error for its field. */
  function Rule(holds: bool, path: string, msg: string): (errs: seq<ErrorItem>)
  {
    if holds then [] else [FieldError(path, msg)]
  }

  /** `validationResult(req).array()` for `/register`: every failed rule, in
      the order the chains are declared. */
  function RegisterErrors(req: RegisterRequest, isEmail: string -> bool): (errs: seq<ErrorItem>)
    ensures errs == [] <==>
      FieldText(req.username) != "" && EmailAccepted(isEmail, req.email) && |FieldText(req.password)| >= MinPasswordLength
    ensures errs == [] ==> req.username.Some? && req.email.Some? && req.password.Some?
    ensures FieldError("username", UsernameMsg) in errs <==> FieldText(req.username) == ""
    ensures FieldError("email", EmailMsg) in errs <==> !EmailAccepted(isEmail, req.email)
    ensures FieldError("password", PasswordLengthMsg) in errs <==> |FieldText(req.password)| < MinPasswordLength
    ensures forall e :: e in errs ==>
      e in [FieldError("username", UsernameMsg), FieldError("email", EmailMsg), FieldError("password", PasswordLengthMsg)]
    // each failed rule is reported exactly once
    ensures |errs| == (if FieldText(req.username) == "" then 1 else 0)
                    + (if !EmailAccepted(isEmail, req.email) then 1 else 0)
                    + (if |FieldText(req.password)| < MinPasswordLength then 1 else 0)
  {
    Rule(FieldText(req.username) != "", "username", UsernameMsg)
      + Rule(EmailAccepted(isEmail, req.email), "email", EmailMsg)
      + Rule(|FieldText(req.password)| >= MinPasswordLength, "password", PasswordLengthMsg)
  }

  /** `validationResult(req).array()` for `/login`: the email rule, then
      `exists()` on the password, which only asks that the field be present. */
  function LoginErrors(req: LoginRequest, isEmail: string -> bool): (errs: seq<ErrorItem>)
    ensures errs == [] <==> EmailAccepted(isEmail, req.email) && req.password.Some?
    ensures errs == [] ==> req.email.Some?
    ensures FieldError("email", EmailMsg) in errs <==> !EmailAccepted(isEmail, req.email)
    ensures FieldError("password", PasswordRequiredMsg) in errs <==> req.password.None?
    ensures forall e :: e in errs ==> e in [FieldError("email", EmailMsg), FieldError("password", PasswordRequiredMsg)]
    // each failed rule is reported exactly once
    ensures |errs| == (if !EmailAccepted(isEmail, req.email) then 1 else 0) + (if req.password.None? then 1 else 0)
  {
    Rule(EmailAccepted(isEmail, req.email), "email", EmailMsg)
      + Rule(req.password.Some?, "password", PasswordRequiredMsg)
  }
}
