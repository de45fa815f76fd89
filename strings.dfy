/** Strings joined end to end, shared by the tokeniser and the codes. */
module Strings {

  /** The strings of `parts` written one after another, with nothing between them. */
  function Concat(parts: seq<string>): string
  {
    if parts == [] then [] else parts[0] + Concat(parts[1..])
  }
}
