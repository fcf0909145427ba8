/** Outcomes of the handlers: every refusal the web layer turns into a
    flash message or an error page is a named error here. */
module Results {
  datatype Error =
    | NotFound               // get_or_404 on an unknown id
    | PermissionDenied       // role check failed (flash or HTTP 403)
    | BookUnavailable        // checkout of a book with no copy on the shelf
    | LoanLimitExceeded      // member already holds the maximum number of loans
    | MemberHasOverdueBooks  // member holds an overdue loan
    | AlreadyReturned        // return or renewal of a returned loan
    | RenewalBlockedOverdue  // renewal of an overdue loan
    | HasActiveLoans         // delete of a book or member with unreturned loans
    | DuplicateKey           // isbn, email or member code already taken
    | InvalidCredentials     // login with an unknown email or a wrong password
    | AccountInactive        // login of a deactivated member
    | UndefinedSetting       // reading a configuration attribute that does not exist

  datatype Option<+T> = None | Some(value: T)

  datatype Result<+T> = Ok(value: T) | Err(error: Error)

  /** The outcome of a handler that produces no value. */
  datatype Outcome = Done | Failed(error: Error)
}
