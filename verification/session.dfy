/**
  The two sides together: what the server does with what a browser page
  emits, and a four-step walk-through of a small room.
 */
module Session {
  import opened ChatTypes
  import opened JsString
  import opened History
  import opened Server
  import Client
  import Registry

  /** A page's emit as the server's handler receives it. */
  function ToInbound(e: Client.Emit): Inbound
  {
    match e
    case EmitJoin(n) => Join(n)
    case EmitMessage(t) => Send(t)
  }

  /** The server trusts the name it is sent; names from the chat pages are
      still never blank or padded, because `joinChat` trims and checks them
      before emitting. */
  lemma PageJoinRegistersTrimmedName(ret: Retention, s: State, c: Client.ClientState, conn: ConnId, freshId: string, now: Instant)
    requires Valid(ret, s)
    requires !AllWhitespace(c.username) && c.hasSocket && c.isConnected
    ensures var o := Step(ret, s, Arrival(conn, ToInbound(Client.JoinChat(c).1.value), freshId, now));
      var u := Registry.Get(o.state.users, conn);
      && u.Some? && u.value.username == Trim(c.username)
      && u.value.username != [] && IsTrimmed(u.value.username)
  {
  }

  const Alice := User("c1", "alice")
  const Bob := User("c2", "bob")

  /** Alice's message in the walk-through below. */
  function Hi(id: string, now: Instant): Message
  {
    Message(id, "alice", "hi", now, "c1")
  }

  /** The room walk-through, first step: alice joins on c1 and is sent the
      empty history; everyone learns that alice is the only user. */
  lemma WalkAliceJoins()
    ensures OnJoin(Initial, "c1", "alice")
      == Outcome(State([Alice], []), [Unicast("c1", MessageHistory([])), Broadcast(UserJoined(Alice, [Alice]))])
  {
    assert !Registry.Has([], "c1");
  }

  /** Second step: alice says "hi"; it is stored under her registered name
      and broadcast. */
  lemma WalkAliceSaysHi(id: string, now: Instant)
    ensures OnMessage(KeepLast(ServerCap), State([Alice], []), "c1", "hi", id, now)
      == Outcome(State([Alice], [Hi(id, now)]), [Broadcast(NewMessage(Hi(id, now)))])
  {
    assert Registry.Get([Alice], "c1") == Some(Alice);
    assert [] + [Hi(id, now)] == [Hi(id, now)];
  }

  /** Third step: bob joins on c2, is sent a history holding alice's one
      message, and the join broadcast lists alice then bob. */
  lemma WalkBobJoins(id: string, now: Instant)
    ensures OnJoin(State([Alice], [Hi(id, now)]), "c2", "bob")
      == Outcome(State([Alice, Bob], [Hi(id, now)]),
                 [Unicast("c2", MessageHistory([Hi(id, now)])), Broadcast(UserJoined(Bob, [Alice, Bob]))])
  {
    assert !Registry.Has([Alice], "c2") by {
      assert Alice.id != "c2";
    }
    assert Registry.Set([Alice], Bob) == [Alice] + [Bob] == [Alice, Bob];
  }

  /** Last step: c1 disconnects, and the leave broadcast for alice lists
      only bob. */
  lemma WalkAliceLeaves(id: string, now: Instant)
    ensures OnDisconnect(State([Alice, Bob], [Hi(id, now)]), "c1")
      == Outcome(State([Bob], [Hi(id, now)]), [Broadcast(UserLeft(Alice, [Bob]))])
  {
    assert Registry.Wellformed([Alice, Bob]);
    Registry.DeleteClosesGap([Alice, Bob], 0);
    assert [Alice, Bob][..0] + [Alice, Bob][1..] == [Bob];
  }

  /** A second `join` from the same socket is not rejected: it overwrites
      the entry in place, so the registry still holds one entry for the
      socket, now with the new name, and everyone is told again. */
  lemma RejoinOverwrites(name1: string, name2: string)
    ensures var s1 := OnJoin(Initial, "c1", name1);
      var s2 := OnJoin(s1.state, "c1", name2);
      && s2.state.users == [User("c1", name2)]
      && s2.out[1] == Broadcast(UserJoined(User("c1", name2), [User("c1", name2)]))
  {
    var s1 := OnJoin(Initial, "c1", name1);
    assert s1.state.users == [User("c1", name1)];
    assert Registry.Has(s1.state.users, "c1");
  }

  /** Two sockets may register the same name; nothing makes names unique. */
  lemma SharedNamesAllowed(name: string)
    ensures var s1 := OnJoin(Initial, "c1", name);
      var s2 := OnJoin(s1.state, "c2", name);
      s2.state.users == [User("c1", name), User("c2", name)]
  {
    var s1 := OnJoin(Initial, "c1", name);
    assert s1.state.users == [User("c1", name)];
    assert !Registry.Has(s1.state.users, "c2");
  }

}
