/** Operations on strings shared by the modules of the model. */
module Strings {

  /** The strings concatenated in order. */
  function Concat(parts: seq<string>): string {
    if parts == [] then "" else parts[0] + Concat(parts[1..])
  }
}
