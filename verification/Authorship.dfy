/** Who wrote a byte: an actor, and the session it wrote in. */
module Authorship {
  datatype Author = Author(actor: int, session: int)

  /** What a byte without an author reads as. */
  const NOBODY := Author(0, 0)
}
