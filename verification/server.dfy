/**
  The server side of the chat room: the `join`, `message` and `disconnect`
  handlers that every server variant registers inside
  `io.on("connection", socket => ...)`, over the shared `users` registry and
  `messages` history.

  Node runs each handler to completion before the next event is taken, so a
  handler is one atomic step from a state to a state plus the events it
  emitted. `socket.emit` becomes a `Unicast` to the handler's own connection
  and `io.emit` a `Broadcast`; delivery is not modelled. The message id
  (`Date.now()` plus a random suffix) and the timestamp (`new Date()`) are
  inputs of the step.
 */
module Server {
  import opened ChatTypes
  import Registry
  import opened History

  datatype State = State(users: Registry.Users, messages: seq<Message>)

  /** Both collections start empty when the module is loaded. */
  const Initial: State := State([], [])

  /** What every reachable state satisfies under retention `ret`. */
  predicate Valid(ret: Retention, s: State)
  {
    Registry.Wellformed(s.users) && Fits(ret, s.messages)
  }

  /** The three events a connected socket can deliver to the handlers. */
  datatype Inbound = Join(username: string) | Send(text: string) | Disconnect

  datatype Outbound = Unicast(to: ConnId, event: Event) | Broadcast(event: Event)

  /** One handler run: the state it leaves and what it emitted, in order. */
  datatype Outcome = Outcome(state: State, out: seq<Outbound>)

  /** One event as it arrives: the socket it came from, the event, and the
      id and clock reading a `message` handler would draw. */
  datatype Arrival = Arrival(conn: ConnId, event: Inbound, freshId: string, now: Instant)

  /** The chat messages broadcast by `out`, in emission order. */
  function Posted(out: seq<Outbound>): seq<Message>
  {
    if |out| == 0 then [] else PostOf(out[0]) + Posted(out[1..])
  }

  function PostOf(e: Outbound): seq<Message>
  {
    match e
    case Broadcast(NewMessage(m)) => [m]
    case _ => []
  }

  lemma {:induction false} PostedAppend(a: seq<Outbound>, b: seq<Outbound>)
    ensures Posted(a + b) == Posted(a) + Posted(b)
    decreases |a|
  {
    if |a| > 0 {
      assert (a + b)[0] == a[0] && (a + b)[1..] == a[1..] + b;
      PostedAppend(a[1..], b);
    } else {
      assert a + b == b;
    }
  }

  /** `join`: store `{ id: socket.id, username }` under the socket id, with
      the name exactly as received, overwriting an earlier join from the same
      socket; send the unchanged history to the joiner, then tell everyone,
      with a snapshot of the registry that already holds the joiner. */
  function OnJoin(s: State, conn: ConnId, username: string): (o: Outcome)
    requires Registry.Wellformed(s.users)
    ensures Registry.Wellformed(o.state.users)
    ensures o.state.messages == s.messages
    ensures Registry.Get(o.state.users, conn) == Some(User(conn, username))
    ensures forall id :: id != conn ==> Registry.Get(o.state.users, id) == Registry.Get(s.users, id)
    ensures !Registry.Has(s.users, conn) ==> o.state.users == s.users + [User(conn, username)]
    ensures Registry.Has(s.users, conn) ==>
      && |o.state.users| == |s.users|
      && forall i :: 0 <= i < |s.users| ==> o.state.users[i] == if s.users[i].id == conn then User(conn, username) else s.users[i]
    ensures |o.out| == 2
    ensures o.out[0] == Unicast(conn, MessageHistory(s.messages))
    ensures o.out[1].Broadcast? && o.out[1].event.UserJoined?
    ensures o.out[1].event.user == User(conn, username)
    ensures o.out[1].event.users == o.state.users && o.out[1].event.user in o.state.users
    ensures Posted(o.out) == []
  {
    var user := User(conn, username);
    var users := Registry.Set(s.users, user);
    var out := [Unicast(conn, MessageHistory(s.messages)), Broadcast(UserJoined(user, users))];
    assert !Registry.Has(s.users, conn) ==> users == s.users + [user] by {
      if !Registry.Has(s.users, conn) {
        assert users == users[..|s.users|] + [users[|s.users|]];
      }
    }
    assert Posted(out[1..]) == [] by { assert out[1..][1..] == []; }
    Outcome(State(users, s.messages), out)
  }

  /** `message`: dropped unless the socket has joined; otherwise the message
      takes its author's registered name and the socket id, keeps the text
      verbatim (empty text included), is appended to the history under the
      retention rule, and that same message is broadcast. */
  function OnMessage(ret: Retention, s: State, conn: ConnId, text: string, freshId: string, now: Instant): (o: Outcome)
    requires Fits(ret, s.messages)
    ensures !Registry.Has(s.users, conn) ==> o == Outcome(s, [])
    ensures o.state.users == s.users
    ensures Fits(ret, o.state.messages)
    ensures o.state.messages == Retain(ret, s.messages + Posted(o.out))
    ensures Registry.Has(s.users, conn) ==>
      var m := Message(freshId, Registry.Get(s.users, conn).value.username, text, now, conn);
      o.out == [Broadcast(NewMessage(m))] && Posted(o.out) == [m]
  {
    match Registry.Get(s.users, conn)
    case None =>
      RetainFitting(ret, s.messages);
      assert s.messages + [] == s.messages;
      Outcome(s, [])
    case Some(user) =>
      var m := Message(freshId, user.username, text, now, conn);
      var out := [Broadcast(NewMessage(m))];
      assert Posted(out) == [m];
      Outcome(State(s.users, Retain(ret, s.messages + [m])), out)
  }

  /** An accepted message ends up as the newest history entry, the history is
      the newest part of the old history followed by it, and it grows by one
      until the cap is reached (for ever, when nothing is evicted). */
  lemma AcceptedMessageIsNewest(ret: Retention, s: State, conn: ConnId, text: string, freshId: string, now: Instant)
    requires Fits(ret, s.messages) && Registry.Has(s.users, conn)
    ensures var o := OnMessage(ret, s, conn, text, freshId, now);
      var h := o.state.messages;
      var m := Posted(o.out)[0];
      && m.username == Registry.Get(s.users, conn).value.username && m.text == text && m.userId == conn
      && |h| > 0 && h[|h| - 1] == m
      && h == (s.messages + [m])[|s.messages| + 1 - |h|..]
      && (ret.KeepAll? ==> h == s.messages + [m])
      && (ret.KeepLast? ==> |h| == if |s.messages| < ret.limit then |s.messages| + 1 else ret.limit)
  {
  }

  /** `disconnect`: nothing unless the socket had joined; otherwise remove
      only its entry and tell everyone who left, with a snapshot of the users
      who remain. */
  function OnDisconnect(s: State, conn: ConnId): (o: Outcome)
    requires Registry.Wellformed(s.users)
    ensures !Registry.Has(s.users, conn) ==> o == Outcome(s, [])
    ensures Registry.Wellformed(o.state.users)
    ensures o.state.messages == s.messages
    ensures !Registry.Has(o.state.users, conn)
    ensures forall k :: 0 <= k < |s.users| && s.users[k].id == conn ==>
      && o.state.users == s.users[..k] + s.users[k + 1..]
      && o.out == [Broadcast(UserLeft(s.users[k], o.state.users))]
    ensures Posted(o.out) == []
  {
    match Registry.Get(s.users, conn)
    case None =>
      Outcome(s, [])
    case Some(user) =>
      var users := Registry.Delete(s.users, conn);
      Registry.DeleteMembers(s.users, conn);
      forall k | 0 <= k < |s.users| && s.users[k].id == conn
        ensures users == s.users[..k] + s.users[k + 1..] && user == s.users[k]
      {
        Registry.DeleteClosesGap(s.users, k);
      }
      Outcome(State(users, s.messages), [Broadcast(UserLeft(user, users))])
  }

  /** Dispatch one arrival to its handler. */
  function Step(ret: Retention, s: State, a: Arrival): (o: Outcome)
    requires Valid(ret, s)
    ensures Valid(ret, o.state)
  {
    match a.event
    case Join(name) => OnJoin(s, a.conn, name)
    case Send(text) => OnMessage(ret, s, a.conn, text, a.freshId, a.now)
    case Disconnect => OnDisconnect(s, a.conn)
  }

  /** Whatever the arrival, the history afterwards is the retained old
      history followed by the messages the step broadcast. */
  lemma StepHistory(ret: Retention, s: State, a: Arrival)
    requires Valid(ret, s)
    ensures var o := Step(ret, s, a); o.state.messages == Retain(ret, s.messages + Posted(o.out))
  {
    match a.event
    case Join(name) =>
      RetainFitting(ret, s.messages);
      assert s.messages + [] == s.messages;
    case Send(_) =>
    case Disconnect =>
      RetainFitting(ret, s.messages);
      assert s.messages + [] == s.messages;
  }

  /** Handle a sequence of arrivals one after another, collecting everything
      emitted in order. */
  function Run(ret: Retention, s: State, trace: seq<Arrival>): (o: Outcome)
    requires Valid(ret, s)
    ensures Valid(ret, o.state)
    decreases |trace|
  {
    if |trace| == 0 then Outcome(s, [])
    else
      var before := Run(ret, s, trace[..|trace| - 1]);
      var last := Step(ret, before.state, trace[|trace| - 1]);
      Outcome(last.state, before.out + last.out)
  }

  /** Running `t` and then one more arrival is one step after running `t`. */
  lemma RunSnoc(ret: Retention, s: State, t: seq<Arrival>, a: Arrival)
    requires Valid(ret, s)
    ensures var p := Run(ret, s, t); var q := Step(ret, p.state, a);
      Run(ret, s, t + [a]) == Outcome(q.state, p.out + q.out)
  {
    assert (t + [a])[..|t|] == t;
  }

  /** Over any run, the history is what the retention rule keeps of the old
      history followed by every message broadcast during the run, in order:
      trimming after each append equals trimming once at the end. */
  lemma {:induction false} RunHistory(ret: Retention, s: State, t: seq<Arrival>)
    requires Valid(ret, s)
    ensures var o := Run(ret, s, t); o.state.messages == Retain(ret, s.messages + Posted(o.out))
    decreases |t|
  {
    if |t| == 0 {
      RetainFitting(ret, s.messages);
      assert s.messages + [] == s.messages;
    } else {
      var before := Run(ret, s, t[..|t| - 1]);
      var last := Step(ret, before.state, t[|t| - 1]);
      RunHistory(ret, s, t[..|t| - 1]);
      StepHistory(ret, before.state, t[|t| - 1]);
      PostedAppend(before.out, last.out);
      RetainCompose(ret, s.messages, before.state.messages, last.state.messages, Posted(before.out), Posted(last.out));
    }
  }

  /** Two trims in a row are one trim of everything appended. */
  lemma RetainCompose(ret: Retention, h0: seq<Message>, h1: seq<Message>, h2: seq<Message>, p1: seq<Message>, p2: seq<Message>)
    requires h1 == Retain(ret, h0 + p1) && h2 == Retain(ret, h1 + p2)
    ensures h2 == Retain(ret, h0 + (p1 + p2))
  {
    RetainAppend(ret, h0 + p1, p2);
    assert h0 + p1 + p2 == h0 + (p1 + p2);
    calc {
      h2;
      Retain(ret, Retain(ret, h0 + p1) + p2);
      Retain(ret, h0 + p1 + p2);
      Retain(ret, h0 + (p1 + p2));
    }
  }

  /** From a fresh server, the history is always the newest messages ever
      broadcast, oldest first, and never more than the cap allows. */
  lemma HistoryIsNewestBroadcasts(ret: Retention, t: seq<Arrival>)
    ensures var o := Run(ret, Initial, t);
      && o.state.messages == Retain(ret, Posted(o.out))
      && (ret.KeepLast? ==> |o.state.messages| <= ret.limit)
      && (ret.KeepAll? ==> o.state.messages == Posted(o.out))
  {
    RunHistory(ret, Initial, t);
    assert Initial.messages + Posted(Run(ret, Initial, t).out) == Posted(Run(ret, Initial, t).out);
  }

  /** A joiner is sent the newest broadcast messages so far, then everyone is
      told of the join with a registry snapshot that includes the joiner. */
  lemma JoinerReceivesNewestHistory(ret: Retention, t: seq<Arrival>, conn: ConnId, name: string, freshId: string, now: Instant)
    ensures var before := Run(ret, Initial, t);
      var after := Run(ret, Initial, t + [Arrival(conn, Join(name), freshId, now)]);
      && |after.out| == |before.out| + 2
      && after.out[|before.out|] == Unicast(conn, MessageHistory(Retain(ret, Posted(before.out))))
      && after.out[|before.out| + 1] == Broadcast(UserJoined(User(conn, name), after.state.users))
      && User(conn, name) in after.state.users
  {
    RunSnoc(ret, Initial, t, Arrival(conn, Join(name), freshId, now));
    HistoryIsNewestBroadcasts(ret, t);
  }

}
