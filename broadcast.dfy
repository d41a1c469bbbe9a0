/** The notification fan-out of `send_message`: who is told about a new
    message outside their room, and the preview they get. */
module Broadcast {
  import opened ChatTypes

  /** Longest text a notification carries before it is cut. */
  const PreviewLength: nat := 50

  /** `text.substring(0, 50) + (text.length > 50 ? '...' : '')`. */
  function Preview(text: string): (p: string)
    ensures |text| <= PreviewLength ==> p == text
    ensures |text| > PreviewLength ==>
              |p| == PreviewLength + 3 && p[..PreviewLength] == text[..PreviewLength] && p[PreviewLength..] == "..."
  {
    if |text| > PreviewLength then text[..PreviewLength] + "..." else text
  }

  /** A user is notified when it is in another room and is not the sender's socket. */
  predicate Notified(u: User, room: Room, sender: SocketId)
  {
    u.currentRoom != room && u.socketId != sender
  }

  /** The socket ids notified, in registry order. */
  function NotifiedSockets(us: seq<User>, room: Room, sender: SocketId): (ss: seq<SocketId>)
  {
    if us == [] then []
    else
      var last := us[|us| - 1];
      NotifiedSockets(us[..|us| - 1], room, sender) + (if Notified(last, room, sender) then [last.socketId] else [])
  }

  /** Exactly the users in another room, other than the sender, are notified,
      each once per registry entry and never more often than there are entries. */
  lemma {:induction false} NotifiedSocketsExactly(us: seq<User>, room: Room, sender: SocketId)
    ensures |NotifiedSockets(us, room, sender)| <= |us|
    ensures forall s :: s in NotifiedSockets(us, room, sender) <==>
              exists i :: 0 <= i < |us| && us[i].socketId == s && Notified(us[i], room, sender)
    ensures sender !in NotifiedSockets(us, room, sender)
  {
    if us != [] {
      var init := us[..|us| - 1];
      NotifiedSocketsExactly(init, room, sender);
      forall s ensures s in NotifiedSockets(us, room, sender) <==>
                 exists i :: 0 <= i < |us| && us[i].socketId == s && Notified(us[i], room, sender)
      {
        if s in NotifiedSockets(init, room, sender) {
          var i :| 0 <= i < |init| && init[i].socketId == s && Notified(init[i], room, sender);
          assert us[i] == init[i];
        }
        if exists i :: 0 <= i < |us| && us[i].socketId == s && Notified(us[i], room, sender) {
          var i :| 0 <= i < |us| && us[i].socketId == s && Notified(us[i], room, sender);
          if i < |us| - 1 {
            assert init[i] == us[i];
          }
        }
      }
    }
  }

  /** The notification one notified user receives. */
  function NotificationFor(socketId: SocketId, username: string, room: Room, text: string, now: Clock): (e: Emission)
  {
    Emission(ToSocket(socketId), "notification", Notice("new_message", username, room, Preview(text), now))
  }

  /** The `users.forEach` loop: one notification per notified user, in
      registry order, all carrying the same preview. */
  method Notifications(us: seq<User>, room: Room, sender: SocketId, username: string, text: string, now: Clock)
    returns (out: seq<Emission>)
    ensures |out| == |NotifiedSockets(us, room, sender)|
    ensures forall i :: 0 <= i < |out| ==>
              out[i] == NotificationFor(NotifiedSockets(us, room, sender)[i], username, room, text, now)
  {
    out := [];
    var i := 0;
    while i < |us|
      invariant 0 <= i <= |us|
      invariant |out| == |NotifiedSockets(us[..i], room, sender)|
      invariant forall j :: 0 <= j < |out| ==>
                  out[j] == NotificationFor(NotifiedSockets(us[..i], room, sender)[j], username, room, text, now)
    {
      assert us[..i + 1][..i] == us[..i];
      if Notified(us[i], room, sender) {
        out := out + [NotificationFor(us[i].socketId, username, room, text, now)];
      }
      i := i + 1;
    }
    assert us[..i] == us;
  }
}
