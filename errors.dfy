/**
 * The exceptions the parser can raise, as values. The first five are the
 * `ValueError`s the source raises on purpose (each with its own cause); the
 * rest are the Python exceptions that surface from the code paths modelled.
 */
module Errors {
  datatype Error =
    | UnknownVariableType   // ValueError: type code not in the list of known types
    | InvalidLiteral        // ValueError: `int('')`, a type token without digits
    | UnknownState          // ValueError: dependency state is not construct/commit/refresh
    | UnsupportedVersion    // ValueError: the `version` field is not "1.40"
    | DataSizeMismatch      // ValueError: set_data given the wrong number of values
    | StopIteration         // the byte stream ran out
    | AttributeError        // missing attribute, or an attribute looked up on None
    | KeyError              // missing key in a dictionary
    | IndexError            // list index out of range
    | TypeError             // an operation applied to a value of the wrong type
    | NameError             // an unbound name in a dependency expression
    | OverflowError         // an integer too large for its field width
    | RecursionError        // the interpreter's recursion limit was reached
}
