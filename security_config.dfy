/**
 * The limits shared by the validators and the client, and the mapping of an error
 * to the text shown to the user.
 */
module SecurityConfig {
  import opened Wrappers
  import opened Text

  /** `API_LIMITS.MAX_URL_LENGTH`. */
  const MaxUrlLength: nat := 2048
  /** `API_LIMITS.MAX_CONTENT_LENGTH`. */
  const MaxContentLength: nat := 50000
  /** `API_LIMITS.REQUEST_TIMEOUT`, in milliseconds. */
  const RequestTimeout: nat := 30000
  /** `API_LIMITS.MAX_RETRIES`. */
  const MaxRetries: nat := 3

  const UnexpectedError: string := "An unexpected error occurred"
  const ServiceUnavailable: string := "Service temporarily unavailable. Please try again later."
  const NetworkError: string := "Network error. Please check your connection and try again."
  const GenericError: string := "Something went wrong. Please try again."

  /**
   * `sanitizeErrorMessage`: `message` is the error's message, if it has one, and
   * `dev` the development flag. In development the message itself is shown; in
   * production only one of three fixed texts, chosen by what the message mentions.
   */
  function SanitizeErrorMessage(message: Option<string>, dev: bool): (r: string)
    ensures dev && message.Some? && message.value != "" ==> r == message.value
    ensures dev && (message.None? || message.value == "") ==> r == UnexpectedError
    ensures !dev ==> r in {ServiceUnavailable, NetworkError, GenericError}
    ensures !dev ==> (r == ServiceUnavailable <==> message.Some? && Contains(message.value, "API"))
    ensures !dev ==> (r == NetworkError <==>
      message.Some? && !Contains(message.value, "API") &&
      (Contains(message.value, "network") || Contains(message.value, "fetch")))
  {
    if dev then
      if message.Some? && message.value != "" then message.value else UnexpectedError
    else if message.Some? && Contains(message.value, "API") then
      ServiceUnavailable
    else if message.Some? && (Contains(message.value, "network") || Contains(message.value, "fetch")) then
      NetworkError
    else
      GenericError
  }
}
