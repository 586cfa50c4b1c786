/**
  The browser side: the socket event handlers and the join/send actions of
  the two chat pages, app/page.tsx (`Home`) and app/chat-room.tsx
  (`ChatRoom`), as a pure reducer over the React state they keep.

  A handler closure sees the `username` of the render that registered it:
  in app/chat-room.tsx that is the first render, where the name field is
  still empty; in app/page.tsx it is the render that last ran
  `connectToServer` (at mount, or from the "Retry Connection" button, which
  is shown only before the page has joined). That value is
  the `captured` argument. Notice ids and clock readings are inputs, and
  `new Date(message.timestamp)` is the identity on the model's instants.
 */
module Client {
  import opened ChatTypes
  import opened JsString

  datatype Page = Home | ChatRoom

  datatype ClientState = ClientState(
    messages: seq<Message>,
    users: seq<User>,
    hasJoined: bool,
    /** The name field. */
    username: string,
    /** The message field (`newMessage`). */
    draft: string,
    /** A socket object exists (`socket` is not null). */
    hasSocket: bool,
    isConnected: bool)

  /** What the client sends to the server. */
  datatype Emit = EmitJoin(name: string) | EmitMessage(text: string)

  /** The payload string of an emit. */
  function Payload(e: Emit): string
  {
    match e
    case EmitJoin(n) => n
    case EmitMessage(t) => t
  }

  /** A client-made join/leave notice. */
  function Notice(id: string, text: string, now: Instant): Message
  {
    Message(id, "System", text, now, "system")
  }

  /** Only the message list and the user list are touched by socket events. */
  predicate SameLocalFields(a: ClientState, b: ClientState)
  {
    a.hasJoined == b.hasJoined && a.username == b.username && a.draft == b.draft
    && a.hasSocket == b.hasSocket && a.isConnected == b.isConnected
  }

  /** The handlers registered with `newSocket.on(...)`. `messageHistory`
      replaces the list; `message` appends one entry; `userJoined` and
      `userLeft` replace the user list and append a "System" notice, the
      former only when the joined name differs from the captured one;
      `users` replaces the user list in app/page.tsx and has no listener in
      app/chat-room.tsx. */
  function Receive(page: Page, s: ClientState, captured: string, ev: Event, noticeId: string, now: Instant): (r: ClientState)
    ensures SameLocalFields(r, s)
    ensures ev.MessageHistory? ==> r.messages == ev.history && r.users == s.users
    ensures ev.NewMessage? ==>
      && |r.messages| == |s.messages| + 1 && r.messages[..|s.messages|] == s.messages
      && r.messages[|s.messages|] == ev.message && r.users == s.users
    ensures ev.UserJoined? ==>
      && r.users == ev.users
      && r.messages == if ev.user.username != captured
        then s.messages + [Notice(noticeId, ev.user.username + " joined the chat", now)]
        else s.messages
    ensures ev.UserLeft? ==>
      && r.users == ev.users
      && r.messages == s.messages + [Notice(noticeId, ev.user.username + " left the chat", now)]
    ensures ev.UserList? ==>
      && r.messages == s.messages
      && r.users == if page == Home then ev.users else s.users
  {
    match ev
    case MessageHistory(h) => s.(messages := h)
    case NewMessage(m) => s.(messages := s.messages + [m])
    case UserJoined(u, us) =>
      if u.username != captured
      then s.(users := us, messages := s.messages + [Notice(noticeId, u.username + " joined the chat", now)])
      else s.(users := us)
    case UserLeft(u, us) =>
      s.(users := us, messages := s.messages + [Notice(noticeId, u.username + " left the chat", now)])
    case UserList(us) =>
      if page == Home then s.(users := us) else s
  }

  /** `joinChat`: emit the trimmed name and mark the client as joined, but
      only when the trimmed name is non-empty, a socket exists and it is
      connected; otherwise nothing happens. */
  function JoinChat(s: ClientState): (r: (ClientState, Option<Emit>))
    ensures r.1.Some? <==> !AllWhitespace(s.username) && s.hasSocket && s.isConnected
    ensures r.1.Some? ==>
      && r.1.value == EmitJoin(Trim(s.username))
      && r.0 == s.(hasJoined := true)
    ensures r.1.None? ==> r.0 == s
  {
    var name := Trim(s.username);
    if name != [] && s.hasSocket && s.isConnected
    then (s.(hasJoined := true), Some(EmitJoin(name)))
    else (s, None)
  }

  /** `sendMessage`: emit the trimmed draft and clear the field, but only
      when the trimmed draft is non-empty, the client has joined and the
      socket exists and is connected; otherwise nothing happens. */
  function SendMessage(s: ClientState): (r: (ClientState, Option<Emit>))
    ensures r.1.Some? <==> !AllWhitespace(s.draft) && s.hasSocket && s.hasJoined && s.isConnected
    ensures r.1.Some? ==>
      && r.1.value == EmitMessage(Trim(s.draft))
      && r.0 == s.(draft := "")
    ensures r.1.None? ==> r.0 == s
  {
    var text := Trim(s.draft);
    if text != [] && s.hasSocket && s.hasJoined && s.isConnected
    then (s.(draft := ""), Some(EmitMessage(text)))
    else (s, None)
  }

  /** `handleKeyPress`: Enter sends once joined and joins before that; any
      other key does nothing. */
  function KeyPress(s: ClientState, key: string): (r: (ClientState, Option<Emit>))
    ensures key != "Enter" ==> r == (s, None)
    ensures key == "Enter" && s.hasJoined ==> r == SendMessage(s)
    ensures key == "Enter" && !s.hasJoined ==> r == JoinChat(s)
  {
    if key == "Enter" then (if s.hasJoined then SendMessage(s) else JoinChat(s))
    else (s, None)
  }

  /** What the guards let through: a non-empty string with no whitespace
      at either end. */
  predicate Proper(e: Emit)
  {
    Payload(e) != [] && IsTrimmed(Payload(e))
  }

  /** Everything that happens to a page: a socket event (with the closure's
      captured name and the id and clock for a notice), typing in either
      field, a key press, a button click, or the socket's connect/disconnect
      handlers flipping `isConnected`. */
  datatype Input =
    | Received(ev: Event, captured: string, noticeId: string, now: Instant)
    | TypeName(name: string)
    | TypeDraft(text: string)
    | Press(key: string)
    | ClickJoin
    | ClickSend
    | Connection(up: bool)

  /** One input. Socket events and typing never emit; socket events touch
      only the message and user lists; typing and connection changes touch
      only their own field; only the key and button inputs can emit. */
  function Apply(page: Page, s: ClientState, i: Input): (r: (ClientState, Option<Emit>))
    ensures r.1.Some? ==> i.Press? || i.ClickJoin? || i.ClickSend?
    ensures i.Received? ==> SameLocalFields(r.0, s)
    ensures i.TypeName? ==> r.0 == s.(username := i.name)
    ensures i.TypeDraft? ==> r.0 == s.(draft := i.text)
    ensures i.Connection? ==> r.0 == s.(isConnected := i.up)
  {
    match i
    case Received(ev, c, id, now) => (Receive(page, s, c, ev, id, now), None)
    case TypeName(n) => (s.(username := n), None)
    case TypeDraft(t) => (s.(draft := t), None)
    case Press(k) => KeyPress(s, k)
    case ClickJoin => JoinChat(s)
    case ClickSend => SendMessage(s)
    case Connection(up) => (s.(isConnected := up), None)
  }

  /** Feed a sequence of inputs to a page, collecting the emits in order. */
  function Drive(page: Page, s: ClientState, inputs: seq<Input>): (r: (ClientState, seq<Emit>))
    ensures |r.1| <= |inputs|
    decreases |inputs|
  {
    if |inputs| == 0 then (s, [])
    else
      var (s1, e) := Apply(page, s, inputs[0]);
      var (s2, es) := Drive(page, s1, inputs[1..]);
      (s2, (if e.Some? then [e.value] else []) + es)
  }

  /** One input: the join flag is never cleared; it is set only together
      with an emitted join; an unjoined page emits nothing else; and anything
      emitted passed the guards, so it is proper. */
  lemma ApplyStep(page: Page, s: ClientState, i: Input)
    ensures var (r, e) := Apply(page, s, i);
      && (s.hasJoined ==> r.hasJoined)
      && (!s.hasJoined ==> (r.hasJoined <==> e.Some?) && (e.Some? ==> e.value.EmitJoin?))
      && (e.Some? ==> Proper(e.value))
  {
    match i
    case Received(ev, c, id, now) =>
    case TypeName(n) =>
    case TypeDraft(t) =>
    case Press(k) =>
    case ClickJoin =>
    case ClickSend =>
    case Connection(up) =>
  }

  /** Over any sequence of inputs to a page that has not joined yet: it is
      joined at the end exactly when it emitted a join, and no message is
      emitted before the first join. */
  lemma {:induction false} DriveProtocol(page: Page, s: ClientState, inputs: seq<Input>)
    requires !s.hasJoined
    ensures var (r, es) := Drive(page, s, inputs);
      && (r.hasJoined <==> exists k :: 0 <= k < |es| && es[k].EmitJoin?)
      && (forall k :: 0 <= k < |es| && es[k].EmitMessage? ==> exists j :: 0 <= j < k && es[j].EmitJoin?)
    decreases |inputs|
  {
    if |inputs| > 0 {
      var (s1, e) := Apply(page, s, inputs[0]);
      var (s2, es) := Drive(page, s1, inputs[1..]);
      var head := if e.Some? then [e.value] else [];
      var all := head + es;
      assert Drive(page, s, inputs) == (s2, all);
      ApplyStep(page, s, inputs[0]);
      if s1.hasJoined {
        DriveJoined(page, s1, inputs[1..]);
        assert all[0] == e.value && all[0].EmitJoin?;
        forall k | 0 <= k < |all| && all[k].EmitMessage?
          ensures exists j :: 0 <= j < k && all[j].EmitJoin?
        {
          assert 0 < k;
        }
      } else {
        assert all == es;
        DriveProtocol(page, s1, inputs[1..]);
      }
    }
  }

  /** Once joined, a page stays joined. */
  lemma {:induction false} DriveJoined(page: Page, s: ClientState, inputs: seq<Input>)
    requires s.hasJoined
    ensures Drive(page, s, inputs).0.hasJoined
    decreases |inputs|
  {
    if |inputs| > 0 {
      var s1 := Apply(page, s, inputs[0]).0;
      assert Drive(page, s, inputs).0 == Drive(page, s1, inputs[1..]).0;
      ApplyStep(page, s, inputs[0]);
      DriveJoined(page, s1, inputs[1..]);
    }
  }

  /** Whatever the inputs, every string a page emits passed the guards: it
      is non-empty and has no whitespace at either end. */
  lemma {:induction false} DriveProper(page: Page, s: ClientState, inputs: seq<Input>)
    ensures forall e | e in Drive(page, s, inputs).1 :: Proper(e)
    decreases |inputs|
  {
    if |inputs| > 0 {
      var (s1, e) := Apply(page, s, inputs[0]);
      var es := Drive(page, s1, inputs[1..]).1;
      var head := if e.Some? then [e.value] else [];
      assert Drive(page, s, inputs).1 == head + es;
      ApplyStep(page, s, inputs[0]);
      DriveProper(page, s1, inputs[1..]);
    }
  }

  /** A page that receives the joiner's `messageHistory` and then only
      `message` broadcasts shows the history followed by those messages, in
      order. */
  lemma HistoryThenMessages(page: Page, s: ClientState, h: seq<Message>, ms: seq<Message>, captured: string, noticeId: string, now: Instant)
    ensures var s1 := Receive(page, s, captured, MessageHistory(h), noticeId, now);
      ReceiveAll(page, s1, captured, ms, noticeId, now).messages == h + ms
  {
    var s1 := Receive(page, s, captured, MessageHistory(h), noticeId, now);
    ReceiveAllAppends(page, s1, captured, ms, noticeId, now);
  }

  /** Apply `message` events for `ms`, one after another. */
  function ReceiveAll(page: Page, s: ClientState, captured: string, ms: seq<Message>, noticeId: string, now: Instant): ClientState
    decreases |ms|
  {
    if |ms| == 0 then s
    else ReceiveAll(page, Receive(page, s, captured, NewMessage(ms[0]), noticeId, now), captured, ms[1..], noticeId, now)
  }

  lemma {:induction false} ReceiveAllAppends(page: Page, s: ClientState, captured: string, ms: seq<Message>, noticeId: string, now: Instant)
    ensures ReceiveAll(page, s, captured, ms, noticeId, now).messages == s.messages + ms
    ensures ReceiveAll(page, s, captured, ms, noticeId, now).users == s.users
    decreases |ms|
  {
    if |ms| == 0 {
      assert s.messages + ms == s.messages;
    } else {
      var s1 := Receive(page, s, captured, NewMessage(ms[0]), noticeId, now);
      ReceiveAllAppends(page, s1, captured, ms[1..], noticeId, now);
      assert s1.messages == s.messages + [ms[0]];
      assert s.messages + [ms[0]] + ms[1..] == s.messages + ms;
    }
  }

  /** With the name captured at mount in app/chat-room.tsx (the empty
      string), every `userJoined` for a non-empty name adds a notice,
      the page's own join included. */
  lemma MountCaptureNeverSuppresses(s: ClientState, u: User, us: seq<User>, noticeId: string, now: Instant)
    requires u.username != []
    ensures Receive(ChatRoom, s, "", UserJoined(u, us), noticeId, now).messages
      == s.messages + [Notice(noticeId, u.username + " joined the chat", now)]
  {
  }

}
