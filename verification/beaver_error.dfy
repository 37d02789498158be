/*
 * The Beaver variant of ARSTREAM2_Error_ToString (src/beaver_error.c), over
 * the five codes of Includes/libBeaver/beaver_error.h (values 0 to 4); any
 * other value of the enumeration type reads "Unknown value".
 */
module BeaverError {

  const ARSTREAM2_OK := 0
  const ARSTREAM2_ERROR_BAD_PARAMETERS := 1
  const ARSTREAM2_ERROR_ALLOC := 2
  const ARSTREAM2_ERROR_BUSY := 3
  const ARSTREAM2_ERROR_QUEUE_FULL := 4

  function ToString(error: int): (r: string)
    ensures r != []
    ensures (0 <= error <= 4) <==> r != "Unknown value"
  {
    if error == ARSTREAM2_OK then "No error"
    else if error == ARSTREAM2_ERROR_BAD_PARAMETERS then "Bad parameters"
    else if error == ARSTREAM2_ERROR_ALLOC then "Unable to allocate data"
    else if error == ARSTREAM2_ERROR_BUSY then "Object is busy and can not be deleted yet"
    else if error == ARSTREAM2_ERROR_QUEUE_FULL then "Queue is full"
    else "Unknown value"
  }

  /** The five codes have five different descriptions. */
  lemma DescriptionsDistinct(a: int, b: int)
    requires 0 <= a <= 4 && 0 <= b <= 4 && a != b
    ensures ToString(a) != ToString(b)
  {
  }
}
