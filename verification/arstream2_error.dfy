/*
 * ARSTREAM2_Error_ToString of libARStream2 (src/arstream2_error.c): every
 * error code of the library has its own fixed description, and any other
 * value of the enumeration type reads "unknown error".
 *
 * The numeric values of the enumeration live in libARStream2's
 * arstream2_error.h, which is not part of this model; the codes are
 * therefore symbolic, and Other stands for any value that is none of them.
 */
module ArStream2Error {

  datatype Error =
    | Ok
    | ErrorBadParameters
    | ErrorAlloc
    | ErrorBusy
    | ErrorQueueFull
    | ErrorWaitingForSync
    | ErrorResyncRequired
    | ErrorResourceUnavailable
    | ErrorNotFound
    | ErrorInvalidState
    | ErrorUnsupported
    | Other(code: int)

  /** The description ARSTREAM2_Error_ToString returns for each code. */
  function ToString(error: Error): (r: string)
    ensures r != []
    ensures error.Other? <==> r == "unknown error"
  {
    match error
    case Ok => "no error"
    case ErrorBadParameters => "bad parameters"
    case ErrorAlloc => "unable to allocate resource"
    case ErrorBusy => "object is busy and can not be deleted yet"
    case ErrorQueueFull => "queue is full"
    case ErrorWaitingForSync => "waiting for synchronization"
    case ErrorResyncRequired => "re-synchronization required"
    case ErrorResourceUnavailable => "resource unavailable"
    case ErrorNotFound => "not found"
    case ErrorInvalidState => "invalid state"
    case ErrorUnsupported => "unsupported"
    case Other(_) => "unknown error"
  }

  /** The code a description names back, for the library's own codes. */
  function FromString(s: string): (r: Error)
    ensures r.Other? || ToString(r) == s
  {
    if s == "no error" then Ok
    else if s == "bad parameters" then ErrorBadParameters
    else if s == "unable to allocate resource" then ErrorAlloc
    else if s == "object is busy and can not be deleted yet" then ErrorBusy
    else if s == "queue is full" then ErrorQueueFull
    else if s == "waiting for synchronization" then ErrorWaitingForSync
    else if s == "re-synchronization required" then ErrorResyncRequired
    else if s == "resource unavailable" then ErrorResourceUnavailable
    else if s == "not found" then ErrorNotFound
    else if s == "invalid state" then ErrorInvalidState
    else if s == "unsupported" then ErrorUnsupported
    else Other(0)
  }

  /** Each of the library's codes has its own description: the description names the code back. */
  lemma DescriptionsDistinct(error: Error)
    requires !error.Other?
    ensures FromString(ToString(error)) == error
  {
  }
}
