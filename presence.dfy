/**
 * The presence registry of the chat relay: the plain `users` object of the
 * backend, which maps a user id to the id of the socket that last joined under
 * it.  A JavaScript object keeps its own keys in insertion order, and the
 * `disconnect` handler depends on that order, so the registry is a sequence of
 * entries, one per key, in the order the keys were first created.
 */
module Presence {

  type UserId = string
  type SocketId = string

  datatype Option<T> = None | Some(value: T)

  /** One own property of `users`: the key and the socket id stored under it. */
  datatype Entry = Entry(user: UserId, socket: SocketId)

  /** An object has at most one property per key. */
  ghost predicate DistinctUsers(users: seq<Entry>)
  {
    forall i, j :: 0 <= i < j < |users| ==> users[i].user != users[j].user
  }

  /** `u` is an own key of `users`. */
  ghost predicate HasUser(users: seq<Entry>, u: UserId)
  {
    exists i :: 0 <= i < |users| && users[i].user == u
  }

  /** Some property of `users` stores socket id `s` under key `u`. */
  ghost predicate MapsTo(users: seq<Entry>, u: UserId, s: SocketId)
  {
    exists i :: 0 <= i < |users| && users[i] == Entry(u, s)
  }

  /** No property of `users` holds socket id `s`. */
  ghost predicate NoEntryFor(users: seq<Entry>, s: SocketId)
  {
    forall j :: 0 <= j < |users| ==> users[j].socket != s
  }

  /** Position of key `u` in iteration order, or -1 when it is not a key. */
  function IndexOfUser(users: seq<Entry>, u: UserId): (k: int)
    ensures -1 <= k < |users|
    ensures 0 <= k ==> users[k].user == u
    ensures forall j :: 0 <= j < |users| && (k < 0 || j < k) ==> users[j].user != u
    decreases |users|
  {
    if users == [] then -1
    else if users[0].user == u then 0
    else
      var k := IndexOfUser(users[1..], u);
      if k < 0 then -1 else k + 1
  }

  /** Position of the first key, in iteration order, whose value is `s`, or -1. */
  function IndexOfSocket(users: seq<Entry>, s: SocketId): (k: int)
    ensures -1 <= k < |users|
    ensures 0 <= k ==> users[k].socket == s
    ensures forall j :: 0 <= j < |users| && (k < 0 || j < k) ==> users[j].socket != s
    decreases |users|
  {
    if users == [] then -1
    else if users[0].socket == s then 0
    else
      var k := IndexOfSocket(users[1..], s);
      if k < 0 then -1 else k + 1
  }

  /** `users[u]`: the socket id stored under `u`, or `None` for `undefined`. */
  function Lookup(users: seq<Entry>, u: UserId): (r: Option<SocketId>)
    ensures r.None? <==> !HasUser(users, u)
    ensures r.Some? ==> MapsTo(users, u, r.value)
  {
    var k := IndexOfUser(users, u);
    if k < 0 then None else Some(users[k].socket)
  }

  /**
   * `users[u] = s`: an existing key keeps its place and gets the new value;
   * a new key is added after all existing ones.
   */
  function Assign(users: seq<Entry>, u: UserId, s: SocketId): (r: seq<Entry>)
    ensures |r| == if HasUser(users, u) then |users| else |users| + 1
    ensures MapsTo(r, u, s)
    ensures forall i :: 0 <= i < |users| && users[i].user != u ==> r[i] == users[i]
  {
    var k := IndexOfUser(users, u);
    if k < 0 then
      assert (users + [Entry(u, s)])[|users|] == Entry(u, s);
      users + [Entry(u, s)]
    else
      assert users[k := Entry(u, s)][k] == Entry(u, s);
      users[k := Entry(u, s)]
  }

  /**
   * The `disconnect` handler: delete the first key, in iteration order, whose
   * value is `s`, and stop.  Any later key with the same value stays.
   */
  function RemoveSocket(users: seq<Entry>, s: SocketId): (r: seq<Entry>)
    ensures |r| == if NoEntryFor(users, s) then |users| else |users| - 1
    ensures forall e :: e in r ==> e in users
    ensures forall i :: 0 <= i < |users| && users[i].socket != s ==> users[i] in r
  {
    var k := IndexOfSocket(users, s);
    if k < 0 then users
    else
      RemoveAtEntries(users, k);
      assert !NoEntryFor(users, s);
      var r := users[..k] + users[k + 1..];
      assert forall e :: e in r ==> e in users by {
        forall e | e in r
          ensures e in users
        {
          var i :| 0 <= i < |r| && r[i] == e;
          if i < k { assert users[i] == e; } else { assert users[i + 1] == e; }
        }
      }
      assert forall i :: 0 <= i < |users| && users[i].socket != s ==> users[i] in r by {
        forall i | 0 <= i < |users| && users[i].socket != s
          ensures users[i] in r
        {
          if i < k { assert r[i] == users[i]; } else { assert r[i - 1] == users[i]; }
        }
      }
      r
  }

  /** The key that `RemoveSocket(users, s)` deletes, if any. */
  function DisconnectedUser(users: seq<Entry>, s: SocketId): Option<UserId>
  {
    var k := IndexOfSocket(users, s);
    if k < 0 then None else Some(users[k].user)
  }

  // ---------------------------------------------------------------------
  // Lookup

  /** In a well-formed registry the lookup of a key finds the value stored under it. */
  lemma LookupFindsEntry(users: seq<Entry>, i: int)
    requires DistinctUsers(users)
    requires 0 <= i < |users|
    ensures Lookup(users, users[i].user) == Some(users[i].socket)
  {
    var k := IndexOfUser(users, users[i].user);
    assert k == i;
  }

  /** In a well-formed registry, `MapsTo` and `Lookup` agree. */
  lemma LookupIffMapsTo(users: seq<Entry>, u: UserId, s: SocketId)
    requires DistinctUsers(users)
    ensures Lookup(users, u) == Some(s) <==> MapsTo(users, u, s)
  {
    if MapsTo(users, u, s) {
      var i :| 0 <= i < |users| && users[i] == Entry(u, s);
      LookupFindsEntry(users, i);
    }
  }

  // ---------------------------------------------------------------------
  // join: users[userId] = socket.id

  /** After a join, the key resolves to the joining socket, whatever it held before. */
  lemma JoinLastWins(users: seq<Entry>, u: UserId, s: SocketId)
    ensures Lookup(Assign(users, u, s), u) == Some(s)
  {
    var r := Assign(users, u, s);
    var k := IndexOfUser(users, u);
    var k' := IndexOfUser(r, u);
    if k < 0 {
      assert r[|users|].user == u;
      assert k' == |users|;
    } else {
      assert r[k].user == u;
      assert forall j :: 0 <= j < k ==> r[j] == users[j];
      assert k' == k;
    }
  }

  /** A join changes the value of no other key. */
  lemma JoinKeepsOthers(users: seq<Entry>, u: UserId, s: SocketId, v: UserId)
    requires v != u
    ensures Lookup(Assign(users, u, s), v) == Lookup(users, v)
  {
    var r := Assign(users, u, s);
    var k := IndexOfUser(users, v);
    var k' := IndexOfUser(r, v);
    assert forall j :: 0 <= j < |users| && r[j].user == v ==> r[j] == users[j];
    if k < 0 {
      assert k' < 0;
    } else {
      assert r[k] == users[k];
      assert k' == k;
    }
  }

  /**
   * A join keeps the iteration order: an existing key stays where it was and
   * only its value changes; a new key goes last.
   */
  lemma JoinKeepsOrder(users: seq<Entry>, u: UserId, s: SocketId)
    requires DistinctUsers(users)
    ensures |Assign(users, u, s)| == if HasUser(users, u) then |users| else |users| + 1
    ensures forall i :: 0 <= i < |users| ==>
      Assign(users, u, s)[i] == if users[i].user == u then Entry(u, s) else users[i]
    ensures !HasUser(users, u) ==> Assign(users, u, s)[|users|] == Entry(u, s)
  {
    var k := IndexOfUser(users, u);
    if k >= 0 {
      assert HasUser(users, u);
      forall i | 0 <= i < |users| && users[i].user == u
        ensures i == k
      {
      }
    } else {
      assert !HasUser(users, u);
    }
  }

  /** A join keeps keys unique. */
  lemma JoinKeepsDistinct(users: seq<Entry>, u: UserId, s: SocketId)
    requires DistinctUsers(users)
    ensures DistinctUsers(Assign(users, u, s))
  {
    JoinKeepsOrder(users, u, s);
  }

  /** Two joins under one key in a row leave the same registry as the second alone. */
  lemma JoinTwice(users: seq<Entry>, u: UserId, s1: SocketId, s2: SocketId)
    requires DistinctUsers(users)
    ensures Assign(Assign(users, u, s1), u, s2) == Assign(users, u, s2)
  {
    var r1 := Assign(users, u, s1);
    JoinKeepsOrder(users, u, s1);
    JoinKeepsDistinct(users, u, s1);
    JoinKeepsOrder(r1, u, s2);
    JoinKeepsOrder(users, u, s2);
    if !HasUser(users, u) {
      assert HasUser(r1, u) by { assert r1[|users|].user == u; }
    } else {
      assert HasUser(r1, u) by {
        var i :| 0 <= i < |users| && users[i].user == u;
        assert r1[i].user == u;
      }
    }
  }

  // ---------------------------------------------------------------------
  // disconnect: for (userId in users) if (users[userId] === socket.id) { delete; break }

  /**
   * A disconnect removes at most one key: nothing when no key holds the
   * socket, otherwise exactly the first one that does, with every other key
   * kept in order.
   */
  lemma DisconnectRemovesFirstMatch(users: seq<Entry>, s: SocketId)
    ensures NoEntryFor(users, s) ==> RemoveSocket(users, s) == users
    ensures !NoEntryFor(users, s) ==>
      exists k :: 0 <= k < |users| && users[k].socket == s
        && (forall j :: 0 <= j < k ==> users[j].socket != s)
        && RemoveSocket(users, s) == users[..k] + users[k + 1..]
  {
    var k := IndexOfSocket(users, s);
    if NoEntryFor(users, s) {
      assert k < 0;
    } else {
      assert 0 <= k;
    }
  }

  /** The key a disconnect deletes is one that resolved to the closing socket. */
  lemma DisconnectedUserHeldSocket(users: seq<Entry>, s: SocketId)
    requires DistinctUsers(users)
    ensures DisconnectedUser(users, s).Some? <==> !NoEntryFor(users, s)
    ensures DisconnectedUser(users, s).Some? ==>
      Lookup(users, DisconnectedUser(users, s).value) == Some(s)
  {
    var k := IndexOfSocket(users, s);
    if 0 <= k {
      LookupFindsEntry(users, k);
    }
  }

  /** Deleting the property at position `k` keeps every other property, in order. */
  lemma RemoveAtEntries(users: seq<Entry>, k: int)
    requires 0 <= k < |users|
    ensures |users[..k] + users[k + 1..]| == |users| - 1
    ensures forall i :: 0 <= i < k ==> (users[..k] + users[k + 1..])[i] == users[i]
    ensures forall i :: k < i < |users| ==> (users[..k] + users[k + 1..])[i - 1] == users[i]
  {
  }

  /** Deleting one property of a well-formed registry keeps keys unique. */
  lemma RemoveAtKeepsDistinct(users: seq<Entry>, k: int)
    requires DistinctUsers(users)
    requires 0 <= k < |users|
    ensures DistinctUsers(users[..k] + users[k + 1..])
  {
    var r := users[..k] + users[k + 1..];
    RemoveAtEntries(users, k);
    forall i, j | 0 <= i < j < |r|
      ensures r[i].user != r[j].user
    {
      var i' := if i < k then i else i + 1;
      var j' := if j < k then j else j + 1;
      assert r[i] == users[i'] && r[j] == users[j'];
    }
  }

  /** Deleting the property at `k` makes its key resolve to nothing and leaves every other key alone. */
  lemma RemoveAtLookup(users: seq<Entry>, k: int, v: UserId)
    requires DistinctUsers(users)
    requires 0 <= k < |users|
    ensures Lookup(users[..k] + users[k + 1..], v) ==
      if users[k].user == v then None else Lookup(users, v)
  {
    var r := users[..k] + users[k + 1..];
    RemoveAtEntries(users, k);
    RemoveAtKeepsDistinct(users, k);
    if HasUser(r, v) {
      var i :| 0 <= i < |r| && r[i].user == v;
      var i' := if i < k then i else i + 1;
      assert r[i] == users[i'];
      LookupFindsEntry(r, i);
      LookupFindsEntry(users, i');
      assert i' != k ==> users[k].user != v;
    } else if HasUser(users, v) {
      var i :| 0 <= i < |users| && users[i].user == v;
      assert i == k;
    }
  }

  /**
   * After a disconnect, the deleted key resolves to nothing, and every other
   * key resolves as before.
   */
  lemma DisconnectLookup(users: seq<Entry>, s: SocketId, v: UserId)
    requires DistinctUsers(users)
    ensures Lookup(RemoveSocket(users, s), v) ==
      if DisconnectedUser(users, s) == Some(v) then None else Lookup(users, v)
  {
    var k := IndexOfSocket(users, s);
    if k >= 0 {
      RemoveAtLookup(users, k, v);
    }
  }

  /** A disconnect keeps keys unique. */
  lemma DisconnectKeepsDistinct(users: seq<Entry>, s: SocketId)
    requires DistinctUsers(users)
    ensures DistinctUsers(RemoveSocket(users, s))
  {
    var k := IndexOfSocket(users, s);
    if k >= 0 {
      RemoveAtKeepsDistinct(users, k);
    }
  }

  /**
   * One socket that joined under two keys: a disconnect deletes only the
   * first of them, and the later one still resolves to the closed socket.
   */
  lemma DisconnectLeavesLaterAlias(users: seq<Entry>, s: SocketId, i: int, j: int)
    requires DistinctUsers(users)
    requires 0 <= i < j < |users|
    requires users[i].socket == s && users[j].socket == s
    requires forall m :: 0 <= m < i ==> users[m].socket != s
    ensures Lookup(RemoveSocket(users, s), users[i].user) == None
    ensures Lookup(RemoveSocket(users, s), users[j].user) == Some(s)
  {
    var k := IndexOfSocket(users, s);
    assert k == i;
    DisconnectLookup(users, s, users[i].user);
    DisconnectLookup(users, s, users[j].user);
    LookupFindsEntry(users, j);
  }

  /**
   * A user joins from socket s1, re-joins from s2, and then s1 closes: the
   * user still resolves to s2, and the registry is what the second join alone
   * would have made of it, minus at most the first key still holding s1.
   */
  lemma RejoinSurvivesStaleDisconnect(users: seq<Entry>, u: UserId, s1: SocketId, s2: SocketId)
    requires DistinctUsers(users)
    requires s1 != s2
    ensures Lookup(RemoveSocket(Assign(Assign(users, u, s1), u, s2), s1), u) == Some(s2)
    ensures NoEntryFor(users, s1) ==>
      RemoveSocket(Assign(Assign(users, u, s1), u, s2), s1) == Assign(users, u, s2)
  {
    JoinTwice(users, u, s1, s2);
    var r := Assign(users, u, s2);
    JoinKeepsDistinct(users, u, s2);
    JoinLastWins(users, u, s2);
    DisconnectLookup(r, s1, u);
    DisconnectedUserHeldSocket(r, s1);
    if NoEntryFor(users, s1) {
      JoinKeepsOrder(users, u, s2);
      assert NoEntryFor(r, s1);
      DisconnectRemovesFirstMatch(r, s1);
    }
  }
}
