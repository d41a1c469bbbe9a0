/** The online-user registry: a map from user id to user record that keeps
    insertion order, as the server's `users` Map does. It is held as the
    sequence of its values; the key of each entry is the record's `id`. */
module Presence {
  import opened ChatTypes

  /** One entry per user id. */
  ghost predicate UniqueIds(us: seq<User>)
  {
    forall i, j :: 0 <= i < j < |us| ==> us[i].id != us[j].id
  }

  /** `users.get(id)`: the entry stored under `id`, if any. */
  function Lookup(us: seq<User>, id: UserId): (r: Option<User>)
    ensures r.Some? ==> r.value in us && r.value.id == id
    ensures r.None? <==> forall u :: u in us ==> u.id != id
  {
    if us == [] then None
    else if us[0].id == id then Some(us[0])
    else Lookup(us[1..], id)
  }

  /** With one entry per id, the entry holding an id is the one Lookup finds. */
  lemma {:induction false} LookupFindsEntry(us: seq<User>, i: nat)
    requires UniqueIds(us) && i < |us|
    ensures Lookup(us, us[i].id) == Some(us[i])
  {
    if i > 0 {
      assert UniqueIds(us[1..]) by {
        forall a, b | 0 <= a < b < |us[1..]| ensures us[1..][a].id != us[1..][b].id {
          assert us[1..][a] == us[a + 1] && us[1..][b] == us[b + 1];
        }
      }
      assert us[0].id != us[i].id;
      LookupFindsEntry(us[1..], i - 1);
    }
  }

  /** `users.set(u.id, u)`: an entry already under `u.id` is replaced where it
      stands; otherwise `u` is appended at the end. */
  function Put(us: seq<User>, u: User): (r: seq<User>)
    ensures Lookup(us, u.id).None? ==> r == us + [u]
    ensures Lookup(us, u.id).Some? ==> |r| == |us|
    ensures forall j :: 0 <= j < |us| ==> r[j].id == us[j].id
    ensures forall j :: 0 <= j < |us| && us[j].id != u.id ==> r[j] == us[j]
    ensures forall v :: v in r ==> v == u || v in us
  {
    if us == [] then [u]
    else if us[0].id == u.id then [u] + us[1..]
    else
      var rest := Put(us[1..], u);
      var r := [us[0]] + rest;
      assert r[0] == us[0] && r[1..] == rest;
      r
  }

  /** After `set`, the key holds the new record and every other key what it held. */
  lemma {:induction false} PutLookup(us: seq<User>, u: User)
    ensures Lookup(Put(us, u), u.id) == Some(u)
    ensures forall id :: id != u.id ==> Lookup(Put(us, u), id) == Lookup(us, id)
  {
    if us != [] && us[0].id != u.id {
      PutLookup(us[1..], u);
      assert Put(us, u)[1..] == Put(us[1..], u);
    }
  }

  /** `set` keeps one entry per id. */
  lemma {:induction false} PutKeepsUniqueIds(us: seq<User>, u: User)
    requires UniqueIds(us)
    ensures UniqueIds(Put(us, u))
  {
    var r := Put(us, u);
    if Lookup(us, u.id).None? {
      forall i, j | 0 <= i < j < |r| ensures r[i].id != r[j].id {
        if j == |us| {
          assert r[j] == u && r[i] == us[i] && us[i] in us;
        }
      }
    }
  }

  /** `users.delete(id)`: every entry under `id` is dropped (there is at most
      one); the others keep their order. */
  function Delete(us: seq<User>, id: UserId): (r: seq<User>)
    ensures Lookup(r, id).None?
    ensures forall other :: other != id ==> Lookup(r, other) == Lookup(us, other)
    ensures forall v :: v in r <==> v in us && v.id != id
    ensures UniqueIds(us) ==> UniqueIds(r)
    ensures Lookup(us, id).None? ==> r == us
  {
    if us == [] then []
    else if us[0].id == id then Delete(us[1..], id)
    else
      assert us[0] in us;
      [us[0]] + Delete(us[1..], id)
  }

  /** The entries after the first of a registry with one entry per id still
      have one entry per id, and none of them holds the first entry's id. */
  lemma UniqueTail(us: seq<User>)
    requires UniqueIds(us) && us != []
    ensures UniqueIds(us[1..])
    ensures Lookup(us[1..], us[0].id).None?
  {
    forall a, b | 0 <= a < b < |us[1..]| ensures us[1..][a].id != us[1..][b].id {
      assert us[1..][a] == us[a + 1] && us[1..][b] == us[b + 1];
    }
    forall u | u in us[1..] ensures u.id != us[0].id {
      var j :| 0 <= j < |us[1..]| && us[1..][j] == u;
      assert us[j + 1] == u;
    }
  }

  /** With one entry per id, deleting the id held at position `k` removes
      exactly that entry and keeps the others in their order. */
  lemma {:induction false} DeleteAt(us: seq<User>, k: nat)
    requires UniqueIds(us) && k < |us|
    ensures Delete(us, us[k].id) == us[..k] + us[k + 1..]
  {
    if k == 0 {
      DeleteHead(us);
    } else {
      UniqueTail(us);
      DeleteAt(us[1..], k - 1);
      DeleteCons(us, k);
      SpliceUnderHead(us, k);
    }
  }

  /** The first entry is the only one holding its id. */
  lemma DeleteHead(us: seq<User>)
    requires UniqueIds(us) && us != []
    ensures Delete(us, us[0].id) == us[..0] + us[1..]
  {
    UniqueTail(us);
    assert us[..0] + us[1..] == us[1..];
  }

  /** Deleting a later entry's id keeps the first entry in front. */
  lemma DeleteCons(us: seq<User>, k: nat)
    requires 0 < k < |us| && us[0].id != us[k].id
    ensures Delete(us, us[k].id) == [us[0]] + Delete(us[1..], us[1..][k - 1].id)
  {
    assert us[1..][k - 1] == us[k];
  }

  /** Removing position `k > 0` commutes with keeping the first element. */
  lemma SpliceUnderHead<T>(s: seq<T>, k: nat)
    requires 0 < k < |s|
    ensures s[..k] + s[k + 1..] == [s[0]] + (s[1..][..k - 1] + s[1..][k..])
  {
    assert s[..k] == [s[0]] + s[1..][..k - 1];
    assert s[k + 1..] == s[1..][k..];
  }

  /** `Array.from(users.values()).find(u => u.username === name)`: the
      position of the first entry, in registry order, with that username. */
  function FindByUsername(us: seq<User>, name: string): (r: Option<nat>)
    ensures r.Some? ==> r.value < |us| && us[r.value].username == name
    ensures r.Some? ==> forall j :: 0 <= j < r.value ==> us[j].username != name
    ensures r.None? <==> forall j :: 0 <= j < |us| ==> us[j].username != name
  {
    if us == [] then None
    else if us[0].username == name then Some(0)
    else match FindByUsername(us[1..], name)
      case None => None
      case Some(k) => Some(k + 1)
  }
}
