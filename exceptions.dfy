/**
 * The two exceptions a game manager hands to the movie builder when an
 * evaluation goes wrong (package `base.exceptions`). Only the parts the
 * builder reads are kept: the message, and for a player's fault the culprit
 * and its verdict.
 */
module Exceptions {
  import opened Wrappers
  import opened MovieModels

  /** `BuilderException`: a failure of the game itself; the message may be absent. */
  datatype BuilderException = BuilderException(message: Option<string>)

  /** `PlayerException`: a player's fault, with the verdict it earns. */
  datatype PlayerException = PlayerException(playerId: string,
                                             classification: Option<MooshakClassification>,
                                             message: Option<string>)
}
