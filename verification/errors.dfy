/** The exception kinds the modelled code raises: the application's own
    (cartman/exceptions.py) and the Python built-ins that escape from it. */
module Errors {

  datatype Error =
      /** A command parameter is not acceptable (a usage error). */
    | InvalidParameter(message: string)
      /** An unrecoverable runtime error that ends the command. */
    | FatalError(message: string)
      /** A request to the server failed. */
    | RequestException(message: string)
      /** Python's `int()` rejected a string. */
    | ValueError(message: string)
      /** A dictionary lookup of a missing key. */
    | KeyError(key: string)
      /** A name used but never bound. */
    | NameError(name: string)
}
