/**
 * The Socket.IO relay of the backend: the four handlers registered on every
 * connection (`join`, `chat`, `typing`, `disconnect`) acting on the shared
 * `users` registry.  Each handler runs to completion before another starts,
 * so each is one method.  `io.to(id).emit(event, payload)` is modelled as
 * appending one record to `sent`, the server's outbound log.
 */
module Relay {

  import opened Presence

  /** A `chat` message as the client sends it; `extra` holds any other fields. */
  datatype Message = Message(from: UserId, to: UserId, text: string, extra: map<string, string>)

  /** A `typing` event as the client sends it. */
  datatype TypingEvent = TypingEvent(from: UserId, to: UserId, typing: bool)

  /** What the server sends: the chat message verbatim, or `{ from, typing }`. */
  datatype Payload =
    | ChatPayload(message: Message)
    | TypingPayload(from: UserId, typing: bool)

  /** One call of `io.to(socket).emit(event, payload)`. */
  datatype Emit = Emit(socket: SocketId, event: string, payload: Payload)

  /**
   * The socket an event for `to` is sent to: `users[to]` when it is truthy.
   * An absent key (`undefined`) and an empty socket id both fail the test.
   */
  function Recipient(users: seq<Entry>, to: UserId): (r: Option<SocketId>)
    requires DistinctUsers(users)
    ensures r.Some? <==> exists i :: 0 <= i < |users| && users[i].user == to && users[i].socket != ""
    ensures r.Some? ==> r.value != "" && MapsTo(users, to, r.value)
  {
    match Lookup(users, to)
    case None => None
    case Some(s) =>
      if s == "" then
        assert forall i :: 0 <= i < |users| && users[i].user == to ==> users[i].socket == "" by {
          LookupIffMapsTo(users, to, s);
          forall i | 0 <= i < |users| && users[i].user == to
            ensures users[i].socket == ""
          {
            LookupFindsEntry(users, i);
          }
        }
        None
      else Some(s)
  }

  /**
   * The emits of the `chat` handler: one, to the recipient's socket, carrying
   * the message unchanged, when the recipient is online; none otherwise.
   */
  function ChatEmits(users: seq<Entry>, m: Message): (r: seq<Emit>)
    requires DistinctUsers(users)
    ensures |r| <= 1
    ensures |r| == 1 <==> exists i :: 0 <= i < |users| && users[i].user == m.to && users[i].socket != ""
    ensures forall e :: e in r ==>
      e.event == "chat" && e.payload == ChatPayload(m) && e.socket != "" && MapsTo(users, m.to, e.socket)
  {
    match Recipient(users, m.to)
    case None => []
    case Some(s) => [Emit(s, "chat", ChatPayload(m))]
  }

  /**
   * The emits of the `typing` handler: as for `chat`, but the payload is only
   * the sender and the flag; the recipient field is not forwarded.
   */
  function TypingEmits(users: seq<Entry>, t: TypingEvent): (r: seq<Emit>)
    requires DistinctUsers(users)
    ensures |r| <= 1
    ensures |r| == 1 <==> exists i :: 0 <= i < |users| && users[i].user == t.to && users[i].socket != ""
    ensures forall e :: e in r ==>
      e.event == "typing" && e.payload == TypingPayload(t.from, t.typing)
      && e.socket != "" && MapsTo(users, t.to, e.socket)
  {
    match Recipient(users, t.to)
    case None => []
    case Some(s) => [Emit(s, "typing", TypingPayload(t.from, t.typing))]
  }

  /** The relay's state: the `users` registry and everything emitted so far. */
  class Server {
    var users: seq<Entry>
    var sent: seq<Emit>

    ghost predicate Valid()
      reads this
    {
      DistinctUsers(users)
    }

    /** `let users = {}`: nobody is online and nothing has been sent. */
    constructor ()
      ensures Valid()
      ensures users == [] && sent == []
    {
      users := [];
      sent := [];
    }

    /** `join`: `users[userId] = socket.id`, with no check on `userId`. */
    method Join(socket: SocketId, userId: UserId)
      requires Valid()
      modifies this
      ensures Valid()
      ensures users == Assign(old(users), userId, socket)
      ensures Lookup(users, userId) == Some(socket)
      ensures forall v :: v != userId ==> Lookup(users, v) == Lookup(old(users), v)
      ensures sent == old(sent)
    {
      JoinKeepsDistinct(users, userId, socket);
      JoinLastWins(users, userId, socket);
      forall v | v != userId
        ensures Lookup(Assign(users, userId, socket), v) == Lookup(users, v)
      {
        JoinKeepsOthers(users, userId, socket, v);
      }
      users := Assign(users, userId, socket);
    }

    /** `chat`: forward the message verbatim to `users[m.to]` if it is set. */
    method Chat(m: Message)
      requires Valid()
      modifies this
      ensures Valid()
      ensures users == old(users)
      ensures sent == old(sent) + ChatEmits(old(users), m)
    {
      var recipient := Lookup(users, m.to);
      if recipient.Some? && recipient.value != "" {
        sent := sent + [Emit(recipient.value, "chat", ChatPayload(m))];
      }
    }

    /** `typing`: forward `{ from, typing }` to `users[t.to]` if it is set. */
    method Typing(t: TypingEvent)
      requires Valid()
      modifies this
      ensures Valid()
      ensures users == old(users)
      ensures sent == old(sent) + TypingEmits(old(users), t)
    {
      var recipient := Lookup(users, t.to);
      if recipient.Some? && recipient.value != "" {
        sent := sent + [Emit(recipient.value, "typing", TypingPayload(t.from, t.typing))];
      }
    }

    /**
     * `disconnect`: walk the keys in order, delete the first whose value is
     * the closing socket's id, and stop there.
     */
    method Disconnect(socket: SocketId)
      requires Valid()
      modifies this
      ensures Valid()
      ensures users == RemoveSocket(old(users), socket)
      ensures sent == old(sent)
    {
      var i := 0;
      while i < |users|
        invariant 0 <= i <= |users|
        invariant users == old(users) && sent == old(sent)
        invariant forall j :: 0 <= j < i ==> users[j].socket != socket
      {
        if users[i].socket == socket {
          users := users[..i] + users[i + 1..];
          break;
        }
        i := i + 1;
      }
      DisconnectKeepsDistinct(old(users), socket);
    }
  }

  /**
   * Two users online; the first sends to the second.  Exactly that message
   * reaches the second user's socket, and nothing else is sent.
   */
  method DirectMessage(a: UserId, ha: SocketId, b: UserId, hb: SocketId, text: string)
    returns (delivered: seq<Emit>)
    requires hb != ""
    ensures delivered == [Emit(hb, "chat", ChatPayload(Message(a, b, text, map[])))]
  {
    var server := new Server();
    server.Join(ha, a);
    server.Join(hb, b);
    server.Chat(Message(a, b, text, map[]));
    delivered := server.sent;
  }

  /** A message to a user who never joined, or whose socket has closed, goes nowhere. */
  method OfflineRecipient(u: UserId, h: SocketId, m: Message) returns (delivered: seq<Emit>)
    requires m.to == u
    ensures delivered == []
  {
    var server := new Server();
    server.Chat(m);
    server.Join(h, u);
    server.Disconnect(h);
    server.Chat(m);
    delivered := server.sent;
  }

  /**
   * A user joins from h1, re-joins from h2, then h1 closes: a message to the
   * user still reaches h2, and only h2.
   */
  method Reconnect(u: UserId, h1: SocketId, h2: SocketId, m: Message) returns (delivered: seq<Emit>)
    requires h1 != h2 && h2 != ""
    requires m.to == u
    ensures delivered == [Emit(h2, "chat", ChatPayload(m))]
  {
    var server := new Server();
    server.Join(h1, u);
    server.Join(h2, u);
    server.Disconnect(h1);
    server.Chat(m);
    delivered := server.sent;
  }

  /** Two typing signals from one sender reach the recipient in the order sent. */
  method TypingInOrder(a: UserId, b: UserId, hb: SocketId) returns (delivered: seq<Emit>)
    requires hb != ""
    ensures delivered == [Emit(hb, "typing", TypingPayload(a, true)), Emit(hb, "typing", TypingPayload(a, false))]
  {
    var server := new Server();
    server.Join(hb, b);
    server.Typing(TypingEvent(a, b, true));
    server.Typing(TypingEvent(a, b, false));
    delivered := server.sent;
  }
}
