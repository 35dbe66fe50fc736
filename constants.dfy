/**
 * The string constants the helpers compare against. The skill's own constants
 * module (lib/constants.ts) is not part of this model: the request type tags are
 * the voice platform's, the two error kinds are stand-ins that are only required
 * to be distinct from each other.
 */
module Constants {

  /** RequestTypes.* */
  const IntentType: string := "IntentRequest"
  const LaunchType: string := "LaunchRequest"
  const SessionEndedType: string := "SessionEndedRequest"
  const SystemExceptionType: string := "System.ExceptionEncountered"

  /** ErrorTypes.* */
  const UnknownError: string := "UnknownError"
  const UnexpectedError: string := "UnexpectedError"

  /** Entity-resolution status codes the normaliser recognises. */
  const SuccessMatch: string := "ER_SUCCESS_MATCH"
  const SuccessNoMatch: string := "ER_SUCCESS_NO_MATCH"

  /** The dialog state of a finished multi-turn dialog. */
  const Completed: string := "COMPLETED"

  /** The request-attribute key the slot interceptor writes. */
  const SlotsKey: string := "slots"
}
