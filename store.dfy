/**
 * The chat store as the dispatcher uses it. Its implementation is not part
 * of this model: `ChatStore` records the calls made to it and answers each
 * one with `answer(history, call)`, where `history` is the list of earlier
 * calls. The dispatcher relies only on what a reply is shaped like: a chat
 * with an id and a list of upvotes, or null.
 */
module Store {
  import opened Wrappers

  /** The parts of a stored chat that the dispatcher reads. */
  datatype Chat = Chat(id: string, upvotes: seq<string>)

  /** One call into the store, with its arguments in call order. */
  datatype StoreCall =
    | AddChatCall(userId: string, name: string, roomId: string, message: string)
    | UpvoteCall(userId: string, roomId: string, chatId: string)

  class ChatStore {
    /** How the store answers a call, given every call made before it. */
    const answer: (seq<StoreCall>, StoreCall) -> Option<Chat>
    /** The calls made so far, oldest first. */
    var history: seq<StoreCall>

    constructor (answer: (seq<StoreCall>, StoreCall) -> Option<Chat>)
      ensures this.answer == answer && history == []
    {
      this.answer := answer;
      history := [];
    }

    /** `addChat(userId, name, roomId, message)`: a chat or null. */
    method AddChat(userId: string, name: string, roomId: string, message: string) returns (chat: Option<Chat>)
      modifies this
      ensures history == old(history) + [AddChatCall(userId, name, roomId, message)]
      ensures chat == answer(old(history), AddChatCall(userId, name, roomId, message))
    {
      var call := AddChatCall(userId, name, roomId, message);
      chat := answer(history, call);
      history := history + [call];
    }

    /** `upvote(userId, roomId, chatId)`: the chat with its upvotes, or null. */
    method Upvote(userId: string, roomId: string, chatId: string) returns (chat: Option<Chat>)
      modifies this
      ensures history == old(history) + [UpvoteCall(userId, roomId, chatId)]
      ensures chat == answer(old(history), UpvoteCall(userId, roomId, chatId))
    {
      var call := UpvoteCall(userId, roomId, chatId);
      chat := answer(history, call);
      history := history + [call];
    }
  }
}
