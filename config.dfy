/** The circulation settings of the library (the three constants of the
    configuration class), with time measured in whole seconds and money
    in whole cents. */
module Config {
  /** Length of one loan period, in days. */
  const MaxLoanDays: int := 14

  /** Fine per whole day overdue, in cents (0.25 in the configuration). */
  const FinePerDayCents: int := 25

  /** Largest number of unreturned loans a member may hold. */
  const MaxBooksPerMember: int := 5

  const SecondsPerDay: int := 86400

  /** One loan period, in seconds. */
  const LoanPeriod: int := MaxLoanDays * SecondsPerDay
}
