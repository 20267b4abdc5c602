/** The chat side of both bots, as a trace of the requests they make. Whether a request
    succeeded is an input of each bot's model; the trace records what was attempted. */
module Chat {
  import opened Wrappers

  datatype Action =
    | SendMessage(text: string)   // sendMessage with the given text
    | UnpinAll                    // unpinAllChatMessages
    | PinMessage(messageId: int)  // pinChatMessage of that message

  /** What a run did: the requests in order, and whether an exception escaped the script. */
  datatype Outcome = Outcome(trace: seq<Action>, raised: bool)

  /** A message id worth pinning, as both bots test it (`if msg_id`): present and not 0. */
  predicate UsableId(mid: Option<int>) {
    mid.Some? && mid.value != 0
  }
}
