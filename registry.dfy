/**
 * The room registry of the chat server (backend/src/UserManager.ts): a map
 * from room id to the ordered list of members registered in that room.
 *
 * The class `UserManager` keeps the map in its field `rooms` and changes it
 * in place; the functions before it say, on map values, what each of its
 * operations computes, and the lemmas after them relate the operations.
 */
module Registry {
  import opened Wrappers
  import opened Connection
  import opened Messages

  /** A member record `{name, id, ws}`. */
  datatype User = User(name: string, id: string, ws: Socket)

  /** A room `{users}`: its members in the order they joined. */
  datatype Room = Room(users: seq<User>)

  type Rooms = map<string, Room>

  /** The members of `roomId`, or none when the room does not exist. */
  function UsersOf(rooms: Rooms, roomId: string): seq<User>
  {
    if roomId in rooms then rooms[roomId].users else []
  }

  /** The number of records in `users` whose id is `id`. */
  function CountId(users: seq<User>, id: string): nat
  {
    if users == [] then 0
    else (if users[0].id == id then 1 else 0) + CountId(users[1..], id)
  }

  // ---------------------------------------------------------------------
  // addUser
  // ---------------------------------------------------------------------

  /**
   * The rooms after `addUser(name, userId, roomId, ws)`: the room is created
   * empty when absent, then exactly one record is appended to its end; no
   * other room changes.
   */
  function WithUserAdded(rooms: Rooms, name: string, userId: string, roomId: string, ws: Socket): (r: Rooms)
    ensures r.Keys == rooms.Keys + {roomId}
    ensures r[roomId].users == UsersOf(rooms, roomId) + [User(name, userId, ws)]
    ensures forall k :: k in rooms && k != roomId ==> r[k] == rooms[k]
  {
    var created := if roomId in rooms then rooms else rooms[roomId := Room([])];
    created[roomId := Room(created[roomId].users + [User(name, userId, ws)])]
  }

  lemma {:induction false} CountIdAppend(users: seq<User>, u: User, id: string)
    ensures CountId(users + [u], id) == CountId(users, id) + (if u.id == id then 1 else 0)
  {
    if users != [] {
      assert (users + [u])[1..] == users[1..] + [u];
      CountIdAppend(users[1..], u, id);
    }
  }

  /**
   * `addUser` never de-duplicates: the room grows by one record per call and
   * the number of records carrying `userId` grows by one, whatever was there.
   */
  lemma AddUserDoesNotDeduplicate(rooms: Rooms, name: string, userId: string, roomId: string, ws: Socket)
    ensures |UsersOf(WithUserAdded(rooms, name, userId, roomId, ws), roomId)| == |UsersOf(rooms, roomId)| + 1
    ensures CountId(UsersOf(WithUserAdded(rooms, name, userId, roomId, ws), roomId), userId)
         == CountId(UsersOf(rooms, roomId), userId) + 1
  {
    CountIdAppend(UsersOf(rooms, roomId), User(name, userId, ws), userId);
  }

  /** Two joins with the same id leave two more records with that id. */
  lemma AddUserTwiceKeepsBoth(rooms: Rooms, name1: string, name2: string, userId: string, roomId: string, ws1: Socket, ws2: Socket)
    ensures CountId(UsersOf(WithUserAdded(WithUserAdded(rooms, name1, userId, roomId, ws1), name2, userId, roomId, ws2), roomId), userId)
         == CountId(UsersOf(rooms, roomId), userId) + 2
  {
    AddUserDoesNotDeduplicate(rooms, name1, userId, roomId, ws1);
    AddUserDoesNotDeduplicate(WithUserAdded(rooms, name1, userId, roomId, ws1), name2, userId, roomId, ws2);
  }

  // ---------------------------------------------------------------------
  // removeUser
  // ---------------------------------------------------------------------

  /** `users.filter(({id}) => id !== userId)`. */
  function Without(users: seq<User>, userId: string): (r: seq<User>)
    ensures |r| <= |users|
    ensures forall k :: 0 <= k < |r| ==> r[k] in users && r[k].id != userId
    ensures forall k :: 0 <= k < |users| && users[k].id != userId ==> users[k] in r
  {
    if users == [] then []
    else (if users[0].id != userId then [users[0]] else []) + Without(users[1..], userId)
  }

  /** The filter keeps the remaining records in their relative order. */
  lemma {:induction false} WithoutConcat(a: seq<User>, b: seq<User>, userId: string)
    ensures Without(a + b, userId) == Without(a, userId) + Without(b, userId)
  {
    if a == [] {
      assert a + b == b;
    } else {
      assert (a + b)[0] == a[0] && (a + b)[1..] == a[1..] + b;
      WithoutConcat(a[1..], b, userId);
    }
  }

  /** A list without the id is left exactly as it is. */
  lemma {:induction false} WithoutAbsent(users: seq<User>, userId: string)
    requires forall k :: 0 <= k < |users| ==> users[k].id != userId
    ensures Without(users, userId) == users
  {
    if users != [] {
      assert users == [users[0]] + users[1..];
      WithoutAbsent(users[1..], userId);
    }
  }

  /** Filtering the same id twice is filtering it once. */
  lemma {:induction false} WithoutIdempotent(users: seq<User>, userId: string)
    ensures Without(Without(users, userId), userId) == Without(users, userId)
  {
    WithoutAbsent(Without(users, userId), userId);
  }

  /** Every record without the id survives as often as it occurred. */
  lemma {:induction false} WithoutCount(users: seq<User>, userId: string)
    ensures CountId(Without(users, userId), userId) == 0
    ensures |Without(users, userId)| + CountId(users, userId) == |users|
  {
    if users != [] {
      WithoutCount(users[1..], userId);
      var first := if users[0].id != userId then [users[0]] else [];
      var rest := Without(users[1..], userId);
      assert Without(users, userId) == first + rest;
      if first == [] {
        assert first + rest == rest;
      } else {
        assert (first + rest)[0] == users[0] && (first + rest)[1..] == rest;
        assert CountId(first + rest, userId) == CountId(rest, userId);
      }
    }
  }

  /**
   * The rooms after `removeUser(roomId, userId)`: an unknown room is left
   * alone and not created; otherwise that room loses every record with
   * `userId` and nothing else changes.
   */
  function WithUserRemoved(rooms: Rooms, roomId: string, userId: string): (r: Rooms)
    ensures roomId !in rooms ==> r == rooms
    ensures r.Keys == rooms.Keys
    ensures roomId in rooms ==> r[roomId].users == Without(rooms[roomId].users, userId)
    ensures forall k :: k in rooms && k != roomId ==> r[k] == rooms[k]
  {
    if roomId !in rooms then rooms
    else rooms[roomId := Room(Without(rooms[roomId].users, userId))]
  }

  /** Removing twice is removing once. */
  lemma RemoveUserIdempotent(rooms: Rooms, roomId: string, userId: string)
    ensures WithUserRemoved(WithUserRemoved(rooms, roomId, userId), roomId, userId) == WithUserRemoved(rooms, roomId, userId)
  {
    if roomId in rooms {
      WithoutIdempotent(rooms[roomId].users, userId);
    }
  }

  // ---------------------------------------------------------------------
  // getUser
  // ---------------------------------------------------------------------

  /** `k` is the position of the first record in `users` with id `userId`. */
  ghost predicate FirstWithId(users: seq<User>, userId: string, k: int)
  {
    0 <= k < |users| && users[k].id == userId && forall j :: 0 <= j < k ==> users[j].id != userId
  }

  /** The search performed by `users.find(({id}) => id === userId)`. */
  function IndexOfId(users: seq<User>, userId: string): (k: nat)
    ensures k <= |users|
    ensures forall j :: 0 <= j < k ==> users[j].id != userId
    ensures k < |users| ==> users[k].id == userId
  {
    if users == [] then 0
    else if users[0].id == userId then 0
    else 1 + IndexOfId(users[1..], userId)
  }

  /**
   * The result of `getUser(roomId, userId)`: absent when the room does not
   * exist or holds no record with `userId`, and otherwise the first such
   * record in list order.
   */
  function FindUser(rooms: Rooms, roomId: string, userId: string): (r: Option<User>)
    ensures r.None? <==> roomId !in rooms || forall k :: 0 <= k < |rooms[roomId].users| ==> rooms[roomId].users[k].id != userId
    ensures r.Some? ==> exists k :: FirstWithId(rooms[roomId].users, userId, k) && rooms[roomId].users[k] == r.value
  {
    if roomId !in rooms then None
    else
      var users := rooms[roomId].users;
      var k := IndexOfId(users, userId);
      if k < |users| then
        assert FirstWithId(users, userId, k);
        Some(users[k])
      else None
  }

  /** `IndexOfId` skips the appended record when an earlier one matches. */
  lemma {:induction false} IndexOfIdAppend(users: seq<User>, u: User, userId: string)
    ensures IndexOfId(users + [u], userId) == IndexOfId(users, userId)
         || (IndexOfId(users, userId) == |users| && u.id != userId && IndexOfId(users + [u], userId) == |users| + 1)
    ensures IndexOfId(users, userId) < |users| ==> IndexOfId(users + [u], userId) == IndexOfId(users, userId)
    ensures IndexOfId(users, userId) == |users| && u.id == userId ==> IndexOfId(users + [u], userId) == |users|
  {
    if users != [] {
      assert (users + [u])[1..] == users[1..] + [u];
      IndexOfIdAppend(users[1..], u, userId);
    }
  }

  /**
   * After `addUser(name, userId, roomId, ws)`, `getUser(roomId, userId)`
   * finds a record with id `userId`: the earlier one if the id was already
   * in the room, exactly the new record otherwise.
   */
  lemma {:induction false} FindAfterAdd(rooms: Rooms, name: string, userId: string, roomId: string, ws: Socket)
    ensures var found := FindUser(WithUserAdded(rooms, name, userId, roomId, ws), roomId, userId);
      && found.Some? && found.value.id == userId
      && found == (if FindUser(rooms, roomId, userId).Some? then FindUser(rooms, roomId, userId) else Some(User(name, userId, ws)))
  {
    IndexOfIdAppend(UsersOf(rooms, roomId), User(name, userId, ws), userId);
  }

  /** An `addUser` into another room leaves every lookup in `roomId` as it was. */
  lemma FindAfterAddElsewhere(rooms: Rooms, name: string, userId: string, otherRoom: string, ws: Socket, roomId: string, id: string)
    requires otherRoom != roomId
    ensures FindUser(WithUserAdded(rooms, name, userId, otherRoom, ws), roomId, id) == FindUser(rooms, roomId, id)
  {
    var after := WithUserAdded(rooms, name, userId, otherRoom, ws);
    assert roomId in after <==> roomId in rooms;
  }

  /** After `removeUser(roomId, userId)`, `getUser(roomId, userId)` is absent. */
  lemma FindAfterRemove(rooms: Rooms, roomId: string, userId: string)
    ensures FindUser(WithUserRemoved(rooms, roomId, userId), roomId, userId) == None
  {
  }

  // ---------------------------------------------------------------------
  // broadcast
  // ---------------------------------------------------------------------

  /** A member who receives a broadcast from `senderId`. */
  predicate Eligible(u: User, senderId: string)
    reads u.ws
  {
    u.id != senderId && u.ws.readyState == Open
  }

  /** The sockets of `users`. */
  function Sockets(users: seq<User>): set<Socket>
  {
    set k | 0 <= k < |users| :: users[k].ws
  }

  /**
   * The members a broadcast from `senderId` reaches, in list order: those
   * whose id differs from the sender's and whose socket is open.
   */
  function Recipients(users: seq<User>, senderId: string): (r: seq<User>)
    reads Sockets(users)
    ensures forall k :: 0 <= k < |r| ==> r[k] in users && Eligible(r[k], senderId)
    ensures forall k :: 0 <= k < |users| && Eligible(users[k], senderId) ==> users[k] in r
  {
    if users == [] then []
    else (if Eligible(users[0], senderId) then [users[0]] else []) + Recipients(users[1..], senderId)
  }

  /** Recipients are chosen member by member, keeping list order. */
  lemma {:induction false} RecipientsConcat(a: seq<User>, b: seq<User>, senderId: string)
    ensures Recipients(a + b, senderId) == Recipients(a, senderId) + Recipients(b, senderId)
  {
    if a == [] {
      assert a + b == b;
    } else {
      assert (a + b)[0] == a[0] && (a + b)[1..] == a[1..] + b;
      RecipientsConcat(a[1..], b, senderId);
    }
  }

  /** One send of `frame` to each recipient, in order. */
  function Deliver(recipients: seq<User>, frame: string): seq<Delivery>
  {
    seq(|recipients|, k requires 0 <= k < |recipients| => Delivery(recipients[k].ws, frame))
  }

  lemma DeliverOne(u: User, frame: string)
    ensures Deliver([u], frame) == [Delivery(u.ws, frame)]
  {
  }

  // ---------------------------------------------------------------------
  // The registry object
  // ---------------------------------------------------------------------

  /** The registry object; `rooms` is its private map. */
  class UserManager {
    var rooms: Rooms

    constructor ()
      ensures rooms == map[]
    {
      rooms := map[];
    }

    /** Registers a member record; see `WithUserAdded`. */
    method AddUser(name: string, userId: string, roomId: string, ws: Socket)
      modifies this
      ensures rooms == WithUserAdded(old(rooms), name, userId, roomId, ws)
    {
      if roomId !in rooms {
        rooms := rooms[roomId := Room([])];
      }
      rooms := rooms[roomId := Room(rooms[roomId].users + [User(name, userId, ws)])];
    }

    /** Removes every record with `userId` from the room; see `WithUserRemoved`. */
    method RemoveUser(roomId: string, userId: string)
      modifies this
      ensures rooms == WithUserRemoved(old(rooms), roomId, userId)
    {
      if roomId !in rooms {
        return;
      }
      rooms := rooms[roomId := Room(Without(rooms[roomId].users, userId))];
    }

    /** The first record with `userId` in the room, if any; see `FindUser`. */
    method GetUser(roomId: string, userId: string) returns (user: Option<User>)
      ensures user == FindUser(rooms, roomId, userId)
    {
      if roomId !in rooms {
        return None;
      }
      var users := rooms[roomId].users;
      var k := IndexOfId(users, userId);
      user := if k < |users| then Some(users[k]) else None;
    }

    /**
     * Serialises `message` once and sends that one frame to every member of
     * the room other than `senderId` whose socket is open, in list order;
     * returns the sends made. An unknown room gets no send. The registry is
     * not changed.
     */
    method Broadcast(roomId: string, senderId: string, message: Outgoing, stringify: Outgoing -> string)
      returns (sent: seq<Delivery>)
      ensures roomId !in rooms ==> sent == []
      ensures roomId in rooms ==> sent == Deliver(Recipients(rooms[roomId].users, senderId), stringify(message))
    {
      if roomId !in rooms {
        return [];
      }
      var users := rooms[roomId].users;
      var msgStr := stringify(message);
      sent := [];
      for i := 0 to |users|
        invariant sent == Deliver(Recipients(users[..i], senderId), msgStr)
      {
        var user := users[i];
        if user.id != senderId && user.ws.readyState == Open {
          sent := sent + [Delivery(user.ws, msgStr)];
        }
        assert users[..i + 1] == users[..i] + [user];
        RecipientsConcat(users[..i], [user], senderId);
      }
      assert users[..|users|] == users;
    }
  }

  /**
   * What `Broadcast` promises, member by member: every send carries the same
   * frame, and a socket is written to exactly when it belongs to a member
   * that is not the sender and is open.
   */
  lemma DeliverSendsToExactlyEligible(users: seq<User>, senderId: string, frame: string)
    ensures forall d :: d in Deliver(Recipients(users, senderId), frame) ==> d.frame == frame
    ensures forall u :: u in users && Eligible(u, senderId) ==> Delivery(u.ws, frame) in Deliver(Recipients(users, senderId), frame)
    ensures forall d :: d in Deliver(Recipients(users, senderId), frame) ==>
      exists u :: u in users && Eligible(u, senderId) && d.socket == u.ws
  {
    var rs := Recipients(users, senderId);
    var sent := Deliver(rs, frame);
    forall u | u in users && Eligible(u, senderId)
      ensures Delivery(u.ws, frame) in sent
    {
      var k :| 0 <= k < |rs| && rs[k] == u;
      assert sent[k] == Delivery(u.ws, frame);
    }
    forall d | d in sent
      ensures exists u :: u in users && Eligible(u, senderId) && d.socket == u.ws
    {
      var k :| 0 <= k < |sent| && sent[k] == d;
      assert rs[k] in rs;
    }
  }
}
