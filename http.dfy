/** The responses the handlers send, and the points at which a call into the
    store or a library can throw. */
module Http {
  import opened Models

  /** An entry of an `errors` array: a field rule that failed (from the
      validator), or a bare `{ msg }` written by a handler. */
  datatype ErrorItem = FieldError(path: string, msg: string) | PlainError(msg: string)

  datatype Body =
    | ErrorList(errors: seq<ErrorItem>)  // `{ errors: [...] }`
    | Text(text: string)                 // `send(text)`
    | MsgObject(msg: string)             // `{ msg }`
    | TokenObject(token: string)         // `{ token }`
    | ProfileDoc(profile: Profile)       // the profile document itself

  datatype Response = Response(status: nat, body: Body)

  /** The awaited calls of the handlers that can throw. `fault == Some(s)`
      says that the call `s` throws when the handler reaches it; the `catch`
      then answers 500. */
  datatype Step =
    | FindUser        // User.findOne
    | GenSalt         // bcrypt.genSalt
    | HashPassword    // bcrypt.hash
    | SaveUser        // user.save
    | SaveProfile     // userProfile.save, profile.save
    | ComparePassword // bcrypt.compare
    | FindCourse      // Course.findById
    | FindProfile     // UserProfile.findOne

  /** `res.status(500).send(text)` in a `catch` block. */
  function ServerError(text: string): (r: Response)
  {
    Response(500, Text(text))
  }
}
