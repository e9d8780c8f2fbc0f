/**
 * The library's exception hierarchy (src/vexy_markliff/exceptions.py) as a datatype.
 * Every error carries the message text the Python exception would carry.
 */
module Errors {

  datatype Error =
    | ValidationError(message: string)
    | ParsingError(message: string)
    | ConversionError(message: string)
}
