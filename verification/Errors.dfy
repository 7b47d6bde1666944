/** `CoreError` (error.rs) without its message texts. */
module Errors {
  datatype CoreError = Format | Auth | NotFound | InvalidState | Crypto | Io | PartialImport
}
