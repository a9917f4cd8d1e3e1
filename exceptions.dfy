/** The Java exceptions thrown by the modelled operations, as values. */
module Exceptions {

  /** The exception kinds that the modelled operations raise. */
  datatype Exception =
    | IllegalArgument      // java.lang.IllegalArgumentException
    | NegativeArraySize    // java.lang.NegativeArraySizeException, from `new byte[n]` with n < 0
    | IndexOutOfBounds     // java.lang.IndexOutOfBoundsException, from a matrix read outside its shape

  /** What a Java method does: return a value or throw an exception. */
  datatype Result<+T> = Success(value: T) | Failure(error: Exception)
}
