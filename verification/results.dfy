/**
 * The exceptions the report generator can raise, and a result type that
 * carries either a value or the exception that aborted the computation.
 * No exception is caught anywhere in the program: every one of them aborts
 * the whole report run.
 */
module Results {

  /** The JVM exceptions that the modelled code can throw. */
  datatype Exception =
    | NumberFormat      // Integer.parseInt on text that is not a 32-bit decimal integer
    | IndexOutOfBounds  // destructuring a list that has too few elements
    | Arithmetic        // BigDecimal.divide by a numerically zero divisor
    | IllegalArgument   // Enum.valueOf with a name that is not a constant

  datatype Result<+T> = Ok(value: T) | Err(error: Exception)
}
