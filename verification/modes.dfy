/** The global ghost behaviour mode. */
module Modes {

  /** `Returning` is representable but no transition of the game ever enters it. */
  datatype GhostMode = Scatter | Chase | Frightened | Returning
}
