/** The socket handlers of the chat server, as methods on the server state
    (`users`, `messages`, `typingUsers`). Each handler receives the socket it
    runs for and a clock reading, updates the state, and returns the
    emissions it makes, in order. */
module Server {
  import opened ChatTypes
  import opened Presence
  import opened History
  import opened Reactions
  import opened Broadcast

  /** A connected socket as the handlers see it: its id and the identity the
      token check attached to it, plus the room it last joined. */
  class Socket {
    const id: SocketId
    const userId: UserId
    const username: string
    /** Unset ("") until the connection handler places the socket in a room. */
    var currentRoom: Room

    constructor (id: SocketId, userId: UserId, username: string)
      ensures this.id == id && this.userId == userId && this.username == username
      ensures currentRoom == ""
    {
      this.id := id;
      this.userId := userId;
      this.username := username;
      currentRoom := "";
    }
  }

  /** `data.room || socket.currentRoom`; "" stands for a missing room. */
  function TargetRoom(requested: Room, current: Room): (r: Room)
  {
    if requested != "" then requested else current
  }

  class ChatServer {
    /** Online users, in insertion order, one per user id. */
    var users: seq<User>
    /** Room name -> stored history. */
    var messages: Histories
    /** Socket id -> typing indicator. */
    var typingUsers: map<SocketId, Typing>

    ghost predicate Valid()
      reads this
    {
      && UniqueIds(users)
      && (forall u :: u in users ==> u.currentRoom in Rooms)
      && (forall r :: r in Rooms ==> r in messages)
      && (forall r, m :: r in messages && m in messages[r] ==> TallyValid(m.reactions))
    }

    /** Module start: no users, an empty history for every configured room. */
    constructor ()
      ensures Valid()
      ensures users == [] && typingUsers == map[]
      ensures messages == map["general" := [], "random" := [], "tech" := [], "gaming" := []]
    {
      users := [];
      messages := map["general" := [], "random" := [], "tech" := [], "gaming" := []];
      typingUsers := map[];
    }

    /** GET /api/rooms/:room/messages. */
    function RoomHistory(room: Room): (h: seq<Message>)
      reads this
      ensures room in messages ==> h == messages[room]
      ensures room !in messages ==> h == []
      ensures Valid() ==> forall m :: m in h ==> TallyValid(m.reactions)
    {
      HistoryOf(messages, room)
    }

    /** GET /api/users/online: every registry entry, in insertion order. */
    function OnlineUsers(): (us: seq<User>)
      reads this
      requires Valid()
      ensures UniqueIds(us)
      ensures forall u :: u in us ==> u.currentRoom in Rooms
      ensures forall u :: u in users <==> u in us
    {
      users
    }

    /** `users.set(u.id, u)` on the registry, for a record placed in a
        configured room. */
    method SetUser(u: User)
      requires Valid() && u.currentRoom in Rooms
      modifies this
      ensures Valid()
      ensures users == Put(old(users), u)
      ensures Lookup(users, u.id) == Some(u)
      ensures forall id :: id != u.id ==> Lookup(users, id) == Lookup(old(users), id)
      ensures messages == old(messages) && typingUsers == old(typingUsers)
    {
      PutLookup(users, u);
      PutKeepsUniqueIds(users, u);
      users := Put(users, u);
    }

    /** The connection handler. */
    method Connect(sock: Socket, now: Clock) returns (out: seq<Emission>)
      requires Valid()
      modifies this, sock
      ensures Valid()
      ensures var entry := User(sock.userId, sock.username, sock.id, "online", DefaultRoom, now);
        && users == Put(old(users), entry)
        && Lookup(users, sock.userId) == Some(entry)
        && (forall id :: id != sock.userId ==> Lookup(users, id) == Lookup(old(users), id))
      ensures sock.currentRoom == DefaultRoom
      ensures var welcome := SystemMessage(now, "Welcome to the chat, " + sock.username + "!", DefaultRoom);
        && messages == old(messages)[DefaultRoom := old(messages[DefaultRoom]) + [welcome]]
        && out == [
             Emission(ToSender, "receive_message", MessageBody(welcome)),
             Emission(ToSender, "initial_data",
                      InitialData(Rooms, users, messages[DefaultRoom], sock.userId, sock.username)),
             Emission(ToAllExceptSender, "user_joined", Roster(sock.username, users)),
             Emission(ToRoomExceptSender(DefaultRoom), "receive_message",
                      MessageBody(SystemMessage(now, sock.username + " joined the chat", DefaultRoom)))]
      ensures Extends(old(messages), messages)
      ensures typingUsers == old(typingUsers)
    {
      var entry := User(sock.userId, sock.username, sock.id, "online", DefaultRoom, now);
      SetUser(entry);
      sock.currentRoom := DefaultRoom;
      var welcome := SystemMessage(now, "Welcome to the chat, " + sock.username + "!", DefaultRoom);
      assert DefaultRoom in Rooms;
      AppendedHistory(messages, DefaultRoom, welcome);
      messages := messages[DefaultRoom := messages[DefaultRoom] + [welcome]];
      out := [
        Emission(ToSender, "receive_message", MessageBody(welcome)),
        Emission(ToSender, "initial_data", InitialData(Rooms, users, messages[DefaultRoom], sock.userId, sock.username)),
        Emission(ToAllExceptSender, "user_joined", Roster(sock.username, users)),
        Emission(ToRoomExceptSender(DefaultRoom), "receive_message",
                 MessageBody(SystemMessage(now, sock.username + " joined the chat", DefaultRoom)))];
    }

    /** `join_room`. */
    method JoinRoom(sock: Socket, roomName: Room, now: Clock) returns (out: seq<Emission>)
      requires Valid()
      modifies this, sock
      ensures Valid()
      ensures messages == old(messages) && typingUsers == old(typingUsers)
      ensures roomName !in Rooms ==>
                && out == [Emission(ToSender, "error", Failure("Room does not exist"))]
                && users == old(users)
                && sock.currentRoom == old(sock.currentRoom)
      ensures roomName in Rooms ==>
                && sock.currentRoom == roomName
                && users == (match Lookup(old(users), sock.userId)
                             case Some(u) => Put(old(users), u.(currentRoom := roomName))
                             case None => old(users))
                && (Lookup(old(users), sock.userId).Some? ==>
                      Lookup(users, sock.userId) == Some(Lookup(old(users), sock.userId).value.(currentRoom := roomName)))
                && (forall id :: id != sock.userId ==> Lookup(users, id) == Lookup(old(users), id))
                && out == [
                     Emission(ToSender, "room_messages", RoomMessages(roomName, messages[roomName])),
                     Emission(ToRoomExceptSender(roomName), "user_joined_room", RoomPresence(sock.username, roomName)),
                     Emission(ToRoomExceptSender(roomName), "receive_message",
                              MessageBody(SystemMessage(now, sock.username + " joined the room", roomName)))]
    {
      if roomName !in Rooms {
        out := [Emission(ToSender, "error", Failure("Room does not exist"))];
        return;
      }
      sock.currentRoom := roomName;
      var found := Lookup(users, sock.userId);
      if found.Some? {
        var u := found.value.(currentRoom := roomName);
        SetUser(u);
      }
      out := [
        Emission(ToSender, "room_messages", RoomMessages(roomName, messages[roomName])),
        Emission(ToRoomExceptSender(roomName), "user_joined_room", RoomPresence(sock.username, roomName)),
        Emission(ToRoomExceptSender(roomName), "receive_message",
                 MessageBody(SystemMessage(now, sock.username + " joined the room", roomName)))];
    }

    /** `send_message`: "" for `room` or `kind` stands for a missing field. */
    method SendMessage(sock: Socket, text: string, room: Room, kind: string, now: Clock)
      returns (out: seq<Emission>)
      requires Valid()
      modifies this
      ensures Valid()
      ensures users == old(users) && typingUsers == old(typingUsers)
      ensures var target := TargetRoom(room, sock.currentRoom);
        var m := Message(DecimalString(now), sock.username, sock.userId, text, target, now,
                         if kind != "" then kind else "text", Some(map[]), None);
        var notified := NotifiedSockets(users, target, sock.id);
        && messages == old(messages)[target := HistoryOf(old(messages), target) + [m]]
        && (target !in old(messages) ==> messages[target] == [m])
        && |out| == 1 + |notified|
        && out[0] == Emission(ToRoom(target), "receive_message", MessageBody(m))
        && (forall i :: 1 <= i < |out| ==>
              out[i] == NotificationFor(notified[i - 1], sock.username, target, text, now))
      ensures Extends(old(messages), messages)
    {
      var target := TargetRoom(room, sock.currentRoom);
      var m := Message(DecimalString(now), sock.username, sock.userId, text, target, now,
                       if kind != "" then kind else "text", Some(map[]), None);
      AppendedHistory(messages, target, m);
      messages := messages[target := HistoryOf(messages, target) + [m]];
      var notes := Notifications(users, target, sock.id, sock.username, text, now);
      out := [Emission(ToRoom(target), "receive_message", MessageBody(m))] + notes;
    }

    /** `typing_start`: the room is taken as given, unchecked. */
    method TypingStart(sock: Socket, room: Room) returns (out: seq<Emission>)
      modifies this
      ensures typingUsers == old(typingUsers)[sock.id := Typing(sock.username, room)]
      ensures users == old(users) && messages == old(messages)
      ensures out == [Emission(ToRoomExceptSender(room), "user_typing", RoomPresence(sock.username, room))]
    {
      typingUsers := typingUsers[sock.id := Typing(sock.username, room)];
      out := [Emission(ToRoomExceptSender(room), "user_typing", RoomPresence(sock.username, room))];
    }

    /** `typing_stop`: a stop without a start is not an error. */
    method TypingStop(sock: Socket, room: Room) returns (out: seq<Emission>)
      modifies this
      ensures typingUsers == old(typingUsers) - {sock.id}
      ensures users == old(users) && messages == old(messages)
      ensures out == [Emission(ToRoomExceptSender(room), "user_stop_typing", RoomPresence(sock.username, room))]
    {
      typingUsers := typingUsers - {sock.id};
      out := [Emission(ToRoomExceptSender(room), "user_stop_typing", RoomPresence(sock.username, room))];
    }

    /** `react_to_message`. When the chosen symbol has no other reactor the
        push at the end dereferences a deleted key: the handler stops with a
        TypeError (`crashed`), after the removal has been stored and before
        anything is broadcast. */
    method ReactToMessage(sock: Socket, room: Room, messageId: string, symbol: string)
      returns (out: seq<Emission>, crashed: bool)
      requires Valid()
      modifies this
      ensures Valid()
      ensures users == old(users) && typingUsers == old(typingUsers)
      ensures Extends(old(messages), messages)
      ensures room !in old(messages) || FindMessage(old(messages)[room], messageId).None? ==>
                messages == old(messages) && out == [] && !crashed
      ensures room in old(messages) && FindMessage(old(messages)[room], messageId).Some? ==>
                var h := old(messages)[room];
                var i := FindMessage(h, messageId).value;
                var o := React(h[i].reactions, symbol, sock.username);
                && messages == old(messages)[room := h[i := h[i].(reactions := Some(o.tally))]]
                && crashed == o.PushFailed?
                && out == (if crashed then []
                           else [Emission(ToRoom(room), "message_reacted", ReactionTally(messageId, o.tally))])
    {
      out, crashed := [], false;
      if room !in messages {
        return;
      }
      var h := messages[room];
      var found := FindMessage(h, messageId);
      if found.None? {
        return;
      }
      var i := found.value;
      var t := if h[i].reactions.Some? then h[i].reactions.value else map[];
      if symbol !in t {
        t := t[symbol := []];
      }
      t := StripReactor(t, sock.username);
      ghost var o := React(h[i].reactions, symbol, sock.username);
      if symbol in t {
        t := t[symbol := t[symbol] + [sock.username]];
        out := [Emission(ToRoom(room), "message_reacted", ReactionTally(messageId, t))];
      } else {
        crashed := true;
      }
      assert t == o.tally;
      ReactKeepsTallyValid(h[i].reactions, symbol, sock.username);
      UpdatedHistoryValid(messages, room, i, Some(t));
      messages := messages[room := h[i := h[i].(reactions := Some(t))]];
    }

    /** `send_private_message`: the first online user with the target name, in
        registry order, gets the message once; the sender gets a copy marked
        as its own. Nothing is stored. */
    method SendPrivateMessage(sock: Socket, targetUsername: string, text: string, now: Clock)
      returns (out: seq<Emission>)
      ensures (exists j :: 0 <= j < |users| && users[j].username == targetUsername) <==> |out| == 2
      ensures |out| == 2 ==>
                exists j :: 0 <= j < |users| && users[j].username == targetUsername
                  && (forall k :: 0 <= k < j ==> users[k].username != targetUsername)
                  && var pm := PrivateMessage(DecimalString(now), sock.username, sock.userId,
                                              targetUsername, users[j].id, text, now, false);
                     out == [Emission(ToSocket(users[j].socketId), "receive_private_message", Private(pm, false)),
                             Emission(ToSender, "receive_private_message", Private(pm, true))]
      ensures |out| != 2 ==> out == [Emission(ToSender, "error", Failure("User not found or offline"))]
    {
      var found := FindByUsername(users, targetUsername);
      if found.Some? {
        var target := users[found.value];
        var pm := PrivateMessage(DecimalString(now), sock.username, sock.userId,
                                 targetUsername, target.id, text, now, false);
        out := [Emission(ToSocket(target.socketId), "receive_private_message", Private(pm, false)),
                Emission(ToSender, "receive_private_message", Private(pm, true))];
      } else {
        out := [Emission(ToSender, "error", Failure("User not found or offline"))];
      }
    }

    /** `upload_file`: the file reference from the upload route is stored
        verbatim in a "file" message. */
    method UploadFile(sock: Socket, filename: string, fileUrl: string, room: Room, now: Clock)
      returns (out: seq<Emission>)
      requires Valid()
      modifies this
      ensures Valid()
      ensures users == old(users) && typingUsers == old(typingUsers)
      ensures var target := TargetRoom(room, sock.currentRoom);
        var m := Message(DecimalString(now), sock.username, sock.userId, "Uploaded file: " + filename,
                         target, now, "file", None, Some(FileRef(fileUrl, filename)));
        && messages == old(messages)[target := HistoryOf(old(messages), target) + [m]]
        && out == [Emission(ToRoom(target), "receive_message", MessageBody(m))]
      ensures Extends(old(messages), messages)
    {
      var target := TargetRoom(room, sock.currentRoom);
      var m := Message(DecimalString(now), sock.username, sock.userId, "Uploaded file: " + filename,
                       target, now, "file", None, Some(FileRef(fileUrl, filename)));
      AppendedHistory(messages, target, m);
      messages := messages[target := HistoryOf(messages, target) + [m]];
      out := [Emission(ToRoom(target), "receive_message", MessageBody(m))];
    }

    /** `mark_message_read`: a receipt to every other socket; no message is changed. */
    method MarkMessageRead(sock: Socket, messageId: string) returns (out: seq<Emission>)
      ensures out == [Emission(ToAllExceptSender, "message_read", ReadReceipt(messageId, sock.username))]
    {
      out := [Emission(ToAllExceptSender, "message_read", ReadReceipt(messageId, sock.username))];
    }

    /** `disconnect`: the entry under the socket's user id goes, whichever
        socket it records, and so does this socket's typing indicator. */
    method Disconnect(sock: Socket, now: Clock) returns (out: seq<Emission>)
      requires Valid()
      modifies this
      ensures Valid()
      ensures users == Delete(old(users), sock.userId)
      ensures Lookup(users, sock.userId).None?
      ensures forall id :: id != sock.userId ==> Lookup(users, id) == Lookup(old(users), id)
      ensures typingUsers == old(typingUsers) - {sock.id}
      ensures messages == old(messages)
      ensures Lookup(old(users), sock.userId).None? ==> out == []
      ensures Lookup(old(users), sock.userId).Some? ==>
                var last := Lookup(old(users), sock.userId).value.currentRoom;
                out == [Emission(ToAll, "user_left", Roster(sock.username, users)),
                        Emission(ToRoom(last), "receive_message",
                                 MessageBody(SystemMessage(now, sock.username + " left the chat", last)))]
    {
      var found := Lookup(users, sock.userId);
      out := [];
      if found.Some? {
        assert found.value.currentRoom in Rooms;
        RemoveUser(sock.userId);
        out := [Emission(ToAll, "user_left", Roster(sock.username, users))];
        var last := found.value.currentRoom;
        if last != "" {
          out := out + [Emission(ToRoom(last), "receive_message",
                                 MessageBody(SystemMessage(now, sock.username + " left the chat", last)))];
        }
      }
      typingUsers := typingUsers - {sock.id};
    }

    /** `users.delete(id)` on the registry. */
    method RemoveUser(id: UserId)
      requires Valid()
      modifies this
      ensures Valid()
      ensures users == Delete(old(users), id)
      ensures Lookup(users, id).None?
      ensures forall other :: other != id ==> Lookup(users, other) == Lookup(old(users), other)
      ensures messages == old(messages) && typingUsers == old(typingUsers)
    {
      users := Delete(users, id);
    }

    /** `reconnect`: the stored entry takes this socket's id and is marked
        online; the socket gets back the entry's room and that room's history. */
    method Reconnect(sock: Socket) returns (out: seq<Emission>)
      requires Valid()
      modifies this
      ensures Valid()
      ensures messages == old(messages) && typingUsers == old(typingUsers)
      ensures Lookup(old(users), sock.userId).None? ==> users == old(users) && out == []
      ensures Lookup(old(users), sock.userId).Some? ==>
                var u := Lookup(old(users), sock.userId).value;
                && users == Put(old(users), u.(socketId := sock.id, status := "online"))
                && Lookup(users, sock.userId) == Some(u.(socketId := sock.id, status := "online"))
                && out == [Emission(ToSender, "reconnect_success",
                                    ResumeState(users, Rooms, u.currentRoom, messages[u.currentRoom]))]
    {
      var found := Lookup(users, sock.userId);
      if found.None? {
        out := [];
        return;
      }
      var u := found.value.(socketId := sock.id, status := "online");
      SetUser(u);
      out := [Emission(ToSender, "reconnect_success", ResumeState(users, Rooms, u.currentRoom, messages[u.currentRoom]))];
    }
  }

  /** Replacing one message's tally by a valid one changes only reactions and
      keeps every tally valid. */
  lemma UpdatedHistoryValid(hs: Histories, room: Room, i: nat, o: Option<Tally>)
    requires room in hs && i < |hs[room]|
    requires forall r, m :: r in hs && m in hs[r] ==> TallyValid(m.reactions)
    requires TallyValid(o)
    ensures var hs' := hs[room := hs[room][i := hs[room][i].(reactions := o)]];
      && Extends(hs, hs')
      && forall r, m :: r in hs' && m in hs'[r] ==> TallyValid(m.reactions)
  {
    var hs' := hs[room := hs[room][i := hs[room][i].(reactions := o)]];
    forall r: Room, m: Message | r in hs' && m in hs'[r] ensures TallyValid(m.reactions) {
      if r == room {
        var j :| 0 <= j < |hs'[r]| && hs'[r][j] == m;
        if j != i {
          assert hs[room][j] in hs[room];
        }
      }
    }
  }

  /** Appending a message with a well-formed tally to a room's history (created
      empty when missing) extends the histories and keeps every tally valid. */
  lemma AppendedHistory(hs: Histories, room: Room, m: Message)
    requires forall r, m' :: r in hs && m' in hs[r] ==> TallyValid(m'.reactions)
    requires TallyValid(m.reactions)
    ensures var hs' := hs[room := HistoryOf(hs, room) + [m]];
      && Extends(hs, hs')
      && forall r, m' :: r in hs' && m' in hs'[r] ==> TallyValid(m'.reactions)
  {
    var hs' := hs[room := HistoryOf(hs, room) + [m]];
    forall r: Room, m': Message | r in hs' && m' in hs'[r] ensures TallyValid(m'.reactions) {
      if r == room && m' != m {
        assert m' in HistoryOf(hs, room);
      }
    }
  }
}
