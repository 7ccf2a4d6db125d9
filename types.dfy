/** The records the memory server stores and exchanges. */
module Types {

  datatype Role = User | Assistant | System

  /** One turn of a conversation; `content` may be empty (an assistant turn in progress). */
  datatype Message = Message(id: string, role: Role, content: string, ts: int)

  /** A conversation; timestamps are epoch milliseconds. */
  datatype Chat = Chat(id: string, title: string, createdAt: int, updatedAt: int, messages: seq<Message>)

  /** The projection of a chat kept in the recency index. */
  datatype ChatSummary = ChatSummary(id: string, title: string, createdAt: int, updatedAt: int)

  /** The user profile; the only identity the server ever writes is "default". */
  datatype Profile = Profile(userId: string, traits: seq<string>, facts: seq<string>, updatedAt: int)

  /** A role-tagged message of an assembled prompt. */
  datatype ContextMessage = ContextMessage(role: Role, content: string)
}
