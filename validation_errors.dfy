/** The error objects the form validators return in place of `null`. */
module ValidationErrors {

  datatype ValidationError =
    | InvalidPassword   // { invalidPassword: true }
    | ConsecutiveSpaces // { consecutiveSpaces: true }
    | NoSpaceAllowed    // { noSpaceAllowed: true }
}
