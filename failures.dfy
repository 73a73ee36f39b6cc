/** The ways one solve attempt can fail. In the source each is an exception that
    ends the attempt; here each is a value returned to the caller. */
module Failures {

  datatype Failure =
    | MarkerNotFound          // the magic keyword is absent
    | Truncated               // no ';' ends the statement (Substring gets a negative length)
    | MissingEquals           // seed declaration without '='
    | MissingOpeningQuote     // seed declaration without the member name's opening '"'
    | MissingClosingQuote     // ... or its closing '"'
    | MissingColon            // no ':' after the member name
    | MissingClosingBrace     // no '}' after the ':'
    | ExpressionNotFound      // the combined identifier does not occur again
    | JschlVcNotFound         // the jschl_vc attribute is absent
    | JschlVcUnclosed         // ... or has no closing quote
    | PassNotFound            // the pass attribute is absent
    | PassUnclosed            // ... or has no closing quote
    | ExpressionTooShort      // the normalised text has fewer than two characters
    | DivideByZero            // '/=' by a decoded zero

  datatype Result<T> = Ok(value: T) | Err(failure: Failure)

  datatype Outcome = Pass | Fail(failure: Failure)
}
