/** The typed messages the dispatcher receives from and sends to clients. */
module Messages {

  /**
   * An incoming envelope after `JSON.parse`. The three supported tags carry
   * their payload fields; `Unsupported` stands for a parsed envelope whose
   * type tag is none of the three, which the dispatcher ignores.
   */
  datatype Incoming =
    | JoinRoom(name: string, userId: string, roomId: string)
    | SendMessage(userId: string, roomId: string, message: string)
    | UpvoteMessage(userId: string, roomId: string, chatId: string)
    | Unsupported(tag: string)

  /** An outgoing envelope, before it is serialised. */
  datatype Outgoing =
    | AddChat(chatId: string, roomId: string, message: string, name: string, upvotes: nat)
    | UpdateChat(chatId: string, roomId: string, upvotes: nat)
}
