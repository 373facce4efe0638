/**
 * The dispatcher of the chat server (`messageHandler` in backend/src/index.ts):
 * it routes each parsed incoming message to the room registry and the chat
 * store, and broadcasts the resulting outgoing message to the room.
 *
 * The registry and the store are passed in rather than held in module-level
 * variables; `stringify` stands for `JSON.stringify`.
 */
module Server {
  import opened Wrappers
  import opened Connection
  import opened Messages
  import opened Registry
  import opened Store

  /** The last record of a non-empty member list. */
  function Last(users: seq<User>): User
    requires users != []
  {
    users[|users| - 1]
  }

  /** One call of `broadcast(roomId, senderId, message)` and the sends it made. */
  datatype Broadcasted = Broadcasted(roomId: string, senderId: string, message: Outgoing, sent: seq<Delivery>)

  /**
   * Handles one incoming message from `ws`.
   *
   * JoinRoom passes its fields to `addUser` in the order name, roomId,
   * userId, so the record registered has id `roomId` and sits under the
   * room key `userId`. SendMessage and UpvoteMessage look the sender up
   * with `getUser(roomId, userId)` and stop, touching nothing, when it is
   * absent; otherwise they call the store once and, when it returns a chat,
   * broadcast `AddChat` or `UpdateChat` to the room, excluding `userId`.
   */
  method MessageHandler(userManager: UserManager, store: ChatStore, ws: Socket, message: Incoming, stringify: Outgoing -> string)
    returns (broadcasts: seq<Broadcasted>)
    modifies userManager, store
    ensures |broadcasts| <= 1
    ensures message.JoinRoom? ==>
      && userManager.rooms == WithUserAdded(old(userManager.rooms), message.name, message.roomId, message.userId, ws)
      && message.userId in userManager.rooms
      && Last(userManager.rooms[message.userId].users) == User(message.name, message.roomId, ws)
      && store.history == old(store.history)
      && broadcasts == []
    ensures !message.JoinRoom? ==> userManager.rooms == old(userManager.rooms)
    ensures message.Unsupported? ==> store.history == old(store.history) && broadcasts == []
    ensures message.SendMessage? ==>
      var user := FindUser(old(userManager.rooms), message.roomId, message.userId);
      if user.None? then store.history == old(store.history) && broadcasts == []
      else
        var call := AddChatCall(message.userId, user.value.name, message.roomId, message.message);
        var chat := store.answer(old(store.history), call);
        && store.history == old(store.history) + [call]
        && (chat.None? ==> broadcasts == [])
        && (chat.Some? ==>
              var out := AddChat(chat.value.id, message.roomId, message.message, user.value.name, 0);
              var sent := Deliver(Recipients(userManager.rooms[message.roomId].users, message.userId), stringify(out));
              broadcasts == [Broadcasted(message.roomId, message.userId, out, sent)])
    ensures message.UpvoteMessage? ==>
      var user := FindUser(old(userManager.rooms), message.roomId, message.userId);
      if user.None? then store.history == old(store.history) && broadcasts == []
      else
        var call := UpvoteCall(message.userId, message.roomId, message.chatId);
        var chat := store.answer(old(store.history), call);
        && store.history == old(store.history) + [call]
        && (chat.None? ==> broadcasts == [])
        && (chat.Some? ==>
              var out := UpdateChat(message.chatId, message.roomId, |chat.value.upvotes|);
              var sent := Deliver(Recipients(userManager.rooms[message.roomId].users, message.userId), stringify(out));
              broadcasts == [Broadcasted(message.roomId, message.userId, out, sent)])
  {
    broadcasts := [];

    if message.JoinRoom? {
      userManager.AddUser(message.name, message.roomId, message.userId, ws);
    }

    if message.SendMessage? {
      var user := userManager.GetUser(message.roomId, message.userId);
      if user.None? {
        return;
      }
      var chat := store.AddChat(message.userId, user.value.name, message.roomId, message.message);
      if chat.None? {
        return;
      }
      var outgoing := AddChat(chat.value.id, message.roomId, message.message, user.value.name, 0);
      var sent := userManager.Broadcast(message.roomId, message.userId, outgoing, stringify);
      broadcasts := broadcasts + [Broadcasted(message.roomId, message.userId, outgoing, sent)];
    }

    if message.UpvoteMessage? {
      var user := userManager.GetUser(message.roomId, message.userId);
      if user.None? {
        return;
      }
      var chat := store.Upvote(message.userId, message.roomId, message.chatId);
      if chat.None? {
        return;
      }
      var outgoing := UpdateChat(message.chatId, message.roomId, |chat.value.upvotes|);
      var sent := userManager.Broadcast(message.roomId, message.userId, outgoing, stringify);
      broadcasts := broadcasts + [Broadcasted(message.roomId, message.userId, outgoing, sent)];
    }
  }

  /**
   * The registry left by a JoinRoom, as the handler calls `addUser`: a later
   * `getUser(roomId, userId)` finds someone only if the room and user ids of
   * the join are equal, or a matching record was already there.
   */
  lemma LookupAfterJoinRoom(rooms: Rooms, name: string, userId: string, roomId: string, ws: Socket)
    ensures FindUser(WithUserAdded(rooms, name, roomId, userId, ws), roomId, userId).Some?
        <==> roomId == userId || FindUser(rooms, roomId, userId).Some?
  {
    if roomId == userId {
      FindAfterAdd(rooms, name, roomId, userId, ws);
    } else {
      FindAfterAddElsewhere(rooms, name, roomId, userId, ws, roomId, userId);
    }
  }

  /**
   * On a server where nobody has joined, a JoinRoom followed by a lookup of
   * the same user in the same room succeeds exactly when the two ids are
   * equal.
   */
  lemma LookupAfterFirstJoinRoom(name: string, userId: string, roomId: string, ws: Socket)
    ensures FindUser(WithUserAdded(map[], name, roomId, userId, ws), roomId, userId).Some? <==> roomId == userId
  {
    LookupAfterJoinRoom(map[], name, userId, roomId, ws);
  }

  /**
   * Alice and Bob join room "R1" with JoinRoom messages and Alice then sends
   * "hi" to "R1": the handler finds no sender, so the store is never called
   * and nothing is broadcast.
   */
  method JoinThenSendIsDropped() returns (calls: seq<StoreCall>, broadcasts: seq<Broadcasted>)
    ensures calls == []
    ensures broadcasts == []
  {
    var userManager := new UserManager();
    var store := new ChatStore((history, call) => Some(Chat("chat-1", [])));
    var alice := new Socket(Open);
    var bob := new Socket(Open);
    var stringify := (m: Outgoing) => "frame";
    var none := MessageHandler(userManager, store, alice, JoinRoom("Alice", "A", "R1"), stringify);
    none := MessageHandler(userManager, store, bob, JoinRoom("Bob", "B", "R1"), stringify);
    assert "R1" !in userManager.rooms;
    broadcasts := MessageHandler(userManager, store, alice, SendMessage("A", "R1", "hi"), stringify);
    calls := store.history;
  }

  /**
   * With Alice and Bob registered in "R1" through `addUser`'s own parameter
   * order, Alice's SendMessage "hi" reaches Bob's socket alone, as one
   * `AddChat` with no upvotes, and Bob's upvote then reaches Alice alone as
   * an `UpdateChat` with one upvote.
   */
  method SendAndUpvoteReachOthers() returns (alice: Socket, bob: Socket, sends: seq<Broadcasted>, upvotes: seq<Broadcasted>)
    ensures sends == [Broadcasted("R1", "A", AddChat("chat-1", "R1", "hi", "Alice", 0), [Delivery(bob, "frame")])]
    ensures upvotes == [Broadcasted("R1", "B", UpdateChat("chat-1", "R1", 1), [Delivery(alice, "frame")])]
  {
    var userManager := new UserManager();
    var store := new ChatStore((history: seq<StoreCall>, call: StoreCall) =>
      match call
      case AddChatCall(_, _, _, _) => Some(Chat("chat-1", []))
      case UpvoteCall(userId, _, _) => Some(Chat("chat-1", [userId])));
    alice := new Socket(Open);
    bob := new Socket(Open);
    var stringify := (m: Outgoing) => "frame";
    userManager.AddUser("Alice", "A", "R1", alice);
    userManager.AddUser("Bob", "B", "R1", bob);
    var a, b := User("Alice", "A", alice), User("Bob", "B", bob);
    var rooms := userManager.rooms;
    assert rooms["R1"].users == [a] + [b];
    assert [a][1..] == [] && [b][1..] == [] && ([a] + [b])[1..] == [b];
    assert FindUser(rooms, "R1", "A") == Some(a) by {
      assert IndexOfId([a] + [b], "A") == 0;
    }
    assert FindUser(rooms, "R1", "B") == Some(b) by {
      assert IndexOfId([a] + [b], "B") == 1;
    }
    var addChat := AddChat("chat-1", "R1", "hi", "Alice", 0);
    assert store.history == [];
    assert store.answer([], AddChatCall("A", "Alice", "R1", "hi")) == Some(Chat("chat-1", []));
    assert stringify(addChat) == "frame";
    sends := MessageHandler(userManager, store, alice, SendMessage("A", "R1", "hi"), stringify);
    assert userManager.rooms == rooms && alice.readyState == Open && bob.readyState == Open;
    assert Recipients([a], "A") == [] && Recipients([b], "A") == [b];
    RecipientsConcat([a], [b], "A");
    assert Recipients(userManager.rooms["R1"].users, "A") == [b];
    DeliverOne(b, "frame");
    assert sends == [Broadcasted("R1", "A", addChat, Deliver([b], "frame"))];
    var updateChat := UpdateChat("chat-1", "R1", 1);
    assert store.answer(store.history, UpvoteCall("B", "R1", "chat-1")) == Some(Chat("chat-1", ["B"]));
    assert stringify(updateChat) == "frame";
    upvotes := MessageHandler(userManager, store, bob, UpvoteMessage("B", "R1", "chat-1"), stringify);
    assert userManager.rooms == rooms && alice.readyState == Open && bob.readyState == Open;
    assert Recipients([a], "B") == [a] && Recipients([b], "B") == [];
    RecipientsConcat([a], [b], "B");
    assert Recipients(userManager.rooms["R1"].users, "B") == [a];
    DeliverOne(a, "frame");
    assert upvotes == [Broadcasted("R1", "B", updateChat, Deliver([a], "frame"))];
  }
}
