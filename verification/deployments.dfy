/**
  The six server programs that host the chat handlers. They differ in
  transport set-up (ports, CORS origins, lazy start inside a Next.js route)
  and in one point of chat behaviour: app/api/socketio/route.ts never trims
  its history, while the other five keep the newest 100 messages. The message
  id scheme also differs (a timestamp alone versus a timestamp with a random
  suffix), but ids are inputs of the model either way.
 */
module Deployments {
  import opened ChatTypes
  import opened History
  import opened Server

  datatype Deployment =
    | RenderServer       // scripts/render-server.js
    | SocketServer       // scripts/socket-server.js
    | NextSocketRoute    // app/api/socket/route.ts
    | ProductionServer   // scripts/production-server.js
    | NextSocketApi      // app/api/socket/io.ts
    | NextSocketioRoute  // app/api/socketio/route.ts

  /** The history rule of each program: only app/api/socketio/route.ts
      keeps everything; the others keep the newest 100. */
  function RetentionOf(d: Deployment): (r: Retention)
    ensures r.KeepAll? <==> d == NextSocketioRoute
    ensures r.KeepLast? ==> r.limit == 100
  {
    if d == NextSocketioRoute then KeepAll else KeepLast(ServerCap)
  }

  /** In the five trimming servers, whatever happens, the history holds at
      most 100 messages, and those are the newest ones broadcast, oldest
      first. */
  lemma CappedHistory(d: Deployment, t: seq<Arrival>)
    requires d != NextSocketioRoute
    ensures var o := Run(RetentionOf(d), Initial, t);
      var all := Posted(o.out);
      && |o.state.messages| == (if |all| <= 100 then |all| else 100)
      && o.state.messages == all[|all| - |o.state.messages|..]
  {
    var ret := KeepLast(ServerCap);
    assert RetentionOf(d) == ret;
    HistoryIsNewestBroadcasts(ret, t);
  }

  /** app/api/socketio/route.ts evicts nothing: its history is every message
      ever broadcast, in order, so it grows without bound. */
  lemma UncappedHistory(t: seq<Arrival>)
    ensures var o := Run(RetentionOf(NextSocketioRoute), Initial, t);
      o.state.messages == Posted(o.out)
  {
    HistoryIsNewestBroadcasts(KeepAll, t);
  }

  /** Each accepted message in app/api/socketio/route.ts lengthens the
      history by exactly one. */
  lemma UncappedGrowsByOne(t: seq<Arrival>, conn: ConnId, text: string, freshId: string, now: Instant)
    requires Registry.Has(Run(KeepAll, Initial, t).state.users, conn)
    ensures var before := Run(KeepAll, Initial, t).state.messages;
      var after := Run(KeepAll, Initial, t + [Arrival(conn, Send(text), freshId, now)]).state.messages;
      |after| == |before| + 1 && after[..|before|] == before
  {
    RunSnoc(KeepAll, Initial, t, Arrival(conn, Send(text), freshId, now));
  }

}
