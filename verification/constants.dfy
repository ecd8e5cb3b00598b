/** The fixed strings and enumerations of `frontend/utils/constants.js`. */
module Constants {

  /** Message authorship; the source compares role strings "user", "assistant", "system". */
  datatype Role = User | Assistant | System

  /** The three ways the chat controller can start a response. */
  datatype MessageType = UserMessage | RegenerateAssistantMessage | RegenerateUserMessage

  /** Title of a conversation that has not been persisted yet. */
  const MockTitle: string := "mock title"

  /** Placeholder identifier, and the prefix of every locally generated identifier. */
  const MockId: string := "mock id"

  /** Title used when the title request fails. */
  const TitleFallback: string := "Error generating title"

  /** Reason the create thunk gives when a conversation has fewer than two messages. */
  const TooFewMessages: string := "At least two messages are required to create a conversation."
}
