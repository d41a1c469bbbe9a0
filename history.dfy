/** Room histories: the server's `messages` Map from room name to the
    ordered list of messages stored for that room. */
module History {
  import opened ChatTypes

  type Histories = map<Room, seq<Message>>

  /** `messages.get(room) || []`: an unknown room reads as an empty history. */
  function HistoryOf(hs: Histories, room: Room): (h: seq<Message>)
    ensures room in hs ==> h == hs[room]
    ensures room !in hs ==> h == []
  {
    if room in hs then hs[room] else []
  }

  /** `roomMessages.find(m => m.id === id)`: the position of the first
      message with that id (ids are clock readings and may repeat). */
  function FindMessage(h: seq<Message>, id: string): (r: Option<nat>)
    ensures r.Some? ==> r.value < |h| && h[r.value].id == id
    ensures r.Some? ==> forall j :: 0 <= j < r.value ==> h[j].id != id
    ensures r.None? <==> forall j :: 0 <= j < |h| ==> h[j].id != id
  {
    if h == [] then None
    else if h[0].id == id then Some(0)
    else match FindMessage(h[1..], id)
      case None => None
      case Some(k) => Some(k + 1)
  }

  /** `b` is `a` with only its reaction tally changed. */
  ghost predicate SameButReactions(a: Message, b: Message)
  {
    a.(reactions := b.reactions) == b
  }

  /** Histories are append-only: every room of `before` is still there, every
      message it held is still at its position, and only reactions changed. */
  ghost predicate Extends(before: Histories, after: Histories)
  {
    forall room :: room in before ==>
      && room in after
      && |before[room]| <= |after[room]|
      && forall i :: 0 <= i < |before[room]| ==> SameButReactions(before[room][i], after[room][i])
  }

  /** Append-only evolution composes over a run of handlers. */
  lemma ExtendsTransitive(a: Histories, b: Histories, c: Histories)
    requires Extends(a, b) && Extends(b, c)
    ensures Extends(a, c)
  {
    forall room | room in a
      ensures room in c && |a[room]| <= |c[room]|
      ensures forall i :: 0 <= i < |a[room]| ==> SameButReactions(a[room][i], c[room][i])
    {
      forall i | 0 <= i < |a[room]| ensures SameButReactions(a[room][i], c[room][i]) {
        assert SameButReactions(a[room][i], b[room][i]);
        assert SameButReactions(b[room][i], c[room][i]);
      }
    }
  }

  /** What a reader of a room's history sees across handlers: a later reading
      starts with every message of an earlier one, in place, with only their
      reactions changed. */
  lemma HistoryOfGrows(before: Histories, after: Histories, room: Room)
    requires Extends(before, after)
    ensures |HistoryOf(before, room)| <= |HistoryOf(after, room)|
    ensures forall i :: 0 <= i < |HistoryOf(before, room)| ==>
              SameButReactions(HistoryOf(before, room)[i], HistoryOf(after, room)[i])
  {
    if room in before {
      assert HistoryOf(before, room) == before[room] && HistoryOf(after, room) == after[room];
    }
  }
}
