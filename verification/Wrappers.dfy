/** Failure-compatible results. `Error` lists the exceptions that the modelled code throws. */
module Wrappers {

  datatype Option<+T> = None | Some(value: T)

  datatype Error =
    | NumericCast         // boost::numeric_cast out of range
    | RemainingLength     // remaining_length_error
    | Utf8Length          // utf8string_length_error
    | Utf8Contents        // utf8string_contents_error
    | Protocol            // protocol_error
    | WillMessageLength   // will_message_length_error
    | PropertyParse       // property_parse_error
    | BadOptionalAccess   // value() of an optional that holds nothing
    | Assertion           // not an exception: an assertion of the program fails

  datatype Result<+T> = Success(value: T) | Failure(error: Error)
}
