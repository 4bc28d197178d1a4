/** The records the chat front-end passes around. Their declarations live in `types.ts`,
    which is not part of this model; the fields here are the ones the core reads and writes. */
module Types {

  /** `Role.USER` and `Role.MODEL` */
  datatype Role = User | Model

  /** One turn of a conversation. `timestamp` is a `Date.now()` reading. */
  datatype Message = Message(id: string, role: Role, content: string, timestamp: int)

  /** One conversation: `ChatThread`. `updatedAt` is a `Date.now()` reading. */
  datatype Thread = Thread(id: string, title: string, messages: seq<Message>, updatedAt: int)
}
