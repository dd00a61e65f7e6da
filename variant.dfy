/**
 * Routines with a slip in the original come in two variants: the code as
 * written, and the code as evidently intended.
 */
module Variant {
  datatype Build = AsWritten | Corrected
}
