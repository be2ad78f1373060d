/** The library's error type (linguist/src/error.rs). The payloads of the regex and I/O
    variants are not modelled. */
module Errors {
  datatype LinguistError =
    | DeserializationError
    | LanguageNotFound
    | FileNotFound
    | PatternCompileError
    | IOError
}
