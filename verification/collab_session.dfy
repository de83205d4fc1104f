/** The collaboration server's per-connection event handlers, as one
    deterministic state machine: `Step(registry, state, event)` gives the
    next state and the messages emitted, or reports that the handler threw.

    Real time is replaced by explicit `TimerFire` events, and the assistant
    gateway's answer arrives as a `BotReply` event carrying either the reply
    text or a failure. The room registry and the continue-vote tracker live
    in modules this model does not see; they are an abstract state `R` with
    the operations collected in `Registry`. */
module CollabSession {
  import opened Wrappers

  type SocketId = nat
  type TimerId = nat
  type RequestId = nat

  /** A chat line, `{username, content}`. */
  datatype Message = Message(username: string, content: string)

  /** One entry of a room's assistant history. On a successful reply the
      handler pushes the reply's bare text and then the user's message
      object, so the history holds two kinds of entries. */
  datatype BotEntry = ReplyText(text: string) | UserLine(msg: Message)

  /** What an emitted event carries. */
  datatype Payload =
    | ChatHistory(history: seq<Message>)
    | StartTimer
    | ChatMessage(msg: Message)
    | BotChatMessage(msg: Message)
    | UserLeft

  /** Who receives an emitted event: `socket.emit` reaches one socket,
      `io.to(room).emit` every socket in the room (the sender included) and
      `socket.to(room).emit` every socket in the room but the sender. */
  datatype Emit =
    | ToSocket(socket: SocketId, payload: Payload)
    | ToRoom(room: string, payload: Payload)
    | ToRoomExcept(room: string, except: SocketId, payload: Payload)

  /** A connection and the `username` / `roomId` its events have bound. */
  datatype Socket = Socket(connected: bool, username: Option<string>, roomId: Option<string>)

  /** An armed grace-period timer and the socket whose fields its callback
      reads when it fires. */
  datatype Timer = Timer(socket: SocketId, username: string, roomId: string)

  /** An assistant request awaiting the gateway, with the room and the user
      message captured before the `await`. */
  datatype BotRequest = BotRequest(roomId: string, userMessage: Message)

  /** The operations of the unseen room registry and vote tracker, over
      their abstract state `R`. `removeUser` also reports whether the room
      is now empty; `continueVote` may emit anything. */
  datatype Registry<!R> = Registry(
    addUser: (R, string, Option<string>) -> R,
    removeUser: (R, string, string) -> (R, bool),
    userCount: (R, string) -> int,
    cleanup: (R, string) -> R,
    continueVote: (R, string, Option<string>) -> (R, seq<Emit>))

  /** The coordinator's state. `disconnectTimeouts` is the source's map from
      username to the latest timer armed for it; `armed` holds every timer
      that is armed and has neither fired nor been cleared, whether or not
      the map still names it. */
  datatype State<R> = State(
    sockets: map<SocketId, Socket>,
    disconnectTimeouts: map<string, TimerId>,
    armed: map<TimerId, Timer>,
    nextTimer: TimerId,
    pending: map<RequestId, BotRequest>,
    nextRequest: RequestId,
    chatHistories: map<string, seq<Message>>,
    botChatHistories: map<string, seq<BotEntry>>,
    rooms: R)

  datatype Event =
    | Connect(socket: SocketId)
    | AddUser(socket: SocketId, username: string)
    | JoinRoom(socket: SocketId, roomId: string)
    | SendChat(socket: SocketId, content: string)
    | SendBotChat(socket: SocketId, content: string)
      /** The gateway's answer to a pending request: the reply text, or
          `None` when the call failed. */
    | BotReply(request: RequestId, reply: Option<string>)
    | Disconnect(socket: SocketId)
    | Reconnect(socket: SocketId)
    | TimerFire(timer: TimerId)
    | ContinueSession(socket: SocketId, roomId: string)

  /** The outcome of one event: the next state and what was emitted, or an
      exception escaping the handler (which ends the server process). */
  datatype Reaction<R> = Next(st: State<R>, out: seq<Emit>) | Threw(reason: string)

  const GracePeriodMs := 10000
  const BotName := "Chatbot"
  const ErrorBotName := "Bot (SocketHandler)"
  const Apology := "Sorry, I encountered an error while processing your message."

  /** JavaScript truthiness of a bound field: present and not the empty string. */
  predicate Truthy(o: Option<string>) {
    o.Some? && o.value != ""
  }

  /** Events only arrive on an open connection. */
  predicate Live<R>(st: State<R>, sid: SocketId) {
    sid in st.sockets && st.sockets[sid].connected
  }

  function Init<R>(rooms: R): State<R> {
    State(map[], map[], map[], 0, map[], 0, map[], map[], rooms)
  }

  // ---------------------------------------------------------------------
  // handlers

  /** `connection`: a fresh socket with nothing bound. */
  function OnConnect<R>(st: State<R>, sid: SocketId): (r: State<R>)
    requires sid !in st.sockets
    ensures Live(r, sid) && r.sockets[sid].username.None? && r.sockets[sid].roomId.None?
    ensures forall s | s in st.sockets :: s in r.sockets && r.sockets[s] == st.sockets[s]
    ensures r.sockets.Keys == st.sockets.Keys + {sid}
    ensures r.(sockets := st.sockets) == st
  {
    st.(sockets := st.sockets[sid := Socket(true, None, None)])
  }

  /** `add-user`: binds the username to the socket and, when a disconnect
      timer is recorded for that username, clears that timer and deletes
      the entry. */
  function OnAddUser<R>(st: State<R>, sid: SocketId, username: string): (r: State<R>)
    requires Live(st, sid)
    ensures Live(r, sid) && r.sockets[sid].username == Some(username)
    ensures r.sockets[sid].roomId == st.sockets[sid].roomId
    ensures forall s | s in st.sockets && s != sid :: s in r.sockets && r.sockets[s] == st.sockets[s]
    ensures r.sockets.Keys == st.sockets.Keys
    ensures username !in r.disconnectTimeouts
    ensures forall u | u in st.disconnectTimeouts && u != username ::
      u in r.disconnectTimeouts && r.disconnectTimeouts[u] == st.disconnectTimeouts[u]
    ensures r.disconnectTimeouts.Keys == st.disconnectTimeouts.Keys - {username}
    ensures username in st.disconnectTimeouts ==> st.disconnectTimeouts[username] !in r.armed
    ensures forall t | t in st.armed && (username !in st.disconnectTimeouts || t != st.disconnectTimeouts[username]) ::
      t in r.armed && r.armed[t] == st.armed[t]
    ensures r.armed.Keys <= st.armed.Keys
    ensures r.chatHistories == st.chatHistories && r.botChatHistories == st.botChatHistories
    ensures r.rooms == st.rooms && r.pending == st.pending
    ensures r.(sockets := st.sockets, armed := st.armed, disconnectTimeouts := st.disconnectTimeouts) == st
  {
    var sock := st.sockets[sid];
    var st1 := st.(sockets := st.sockets[sid := sock.(username := Some(username))]);
    if username in st.disconnectTimeouts then
      st1.(armed := st.armed - {st.disconnectTimeouts[username]},
           disconnectTimeouts := st.disconnectTimeouts - {username})
    else
      st1
  }

  /** `join-room`: records the room on the socket, adds the socket's user to
      the registry, creates empty human and assistant histories only when
      the room has none, sends the joining socket the room's chat history,
      and broadcasts `start-timer` when the registry then counts exactly two
      users in the room. */
  function OnJoinRoom<R>(reg: Registry<R>, st: State<R>, sid: SocketId, room: string): (r: (State<R>, seq<Emit>))
    requires Live(st, sid)
    ensures var (st', out) := r;
      && Live(st', sid)
      && st'.sockets[sid].roomId == Some(room)
      && st'.sockets[sid].username == st.sockets[sid].username
      && (forall s | s in st.sockets && s != sid :: s in st'.sockets && st'.sockets[s] == st.sockets[s])
      && st'.sockets.Keys == st.sockets.Keys
      && st'.rooms == reg.addUser(st.rooms, room, st.sockets[sid].username)
    // a join never resets an existing history and creates missing ones empty
    ensures var st' := r.0;
      && st'.chatHistories.Keys == st.chatHistories.Keys + {room}
      && st'.botChatHistories.Keys == st.botChatHistories.Keys + {room}
      && (forall x | x in st.chatHistories :: st'.chatHistories[x] == st.chatHistories[x])
      && (forall x | x in st.botChatHistories :: st'.botChatHistories[x] == st.botChatHistories[x])
      && (room !in st.chatHistories ==> st'.chatHistories[room] == [])
      && (room !in st.botChatHistories ==> st'.botChatHistories[room] == [])
    // the joining socket gets exactly the room's history; start-timer iff the count is two
    ensures var (st', out) := r;
      && 1 <= |out| <= 2
      && out[0] == ToSocket(sid, ChatHistory(st'.chatHistories[room]))
      && (|out| == 2 <==> reg.userCount(st'.rooms, room) == 2)
      && (|out| == 2 ==> out[1] == ToRoom(room, StartTimer))
    ensures var st' := r.0;
      st'.(sockets := st.sockets, rooms := st.rooms, chatHistories := st.chatHistories,
           botChatHistories := st.botChatHistories) == st
  {
    var sock := st.sockets[sid];
    var rooms := reg.addUser(st.rooms, room, sock.username);
    var chat := if room in st.chatHistories then st.chatHistories else st.chatHistories[room := []];
    var bot := if room in st.botChatHistories then st.botChatHistories else st.botChatHistories[room := []];
    var st' := st.(sockets := st.sockets[sid := sock.(roomId := Some(room))],
                   rooms := rooms, chatHistories := chat, botChatHistories := bot);
    var start := if reg.userCount(rooms, room) == 2 then [ToRoom(room, StartTimer)] else [];
    (st', [ToSocket(sid, ChatHistory(chat[room]))] + start)
  }

  /** `chat-message`: ignored unless the socket has both a room and a
      username; otherwise `{username, content}` is appended to the room's
      history and emitted to the whole room, sender included. A room whose
      history was deleted makes the handler throw. */
  function OnChatMessage<R>(st: State<R>, sid: SocketId, content: string): (r: Reaction<R>)
    requires Live(st, sid)
    ensures var sock := st.sockets[sid];
      !(Truthy(sock.roomId) && Truthy(sock.username)) ==> r == Next(st, [])
    ensures var sock := st.sockets[sid];
      Truthy(sock.roomId) && Truthy(sock.username) && sock.roomId.value !in st.chatHistories ==> r.Threw?
    ensures var sock := st.sockets[sid];
      Truthy(sock.roomId) && Truthy(sock.username) && sock.roomId.value in st.chatHistories ==>
        var room := sock.roomId.value;
        var msg := Message(sock.username.value, content);
        && r.Next?
        && r.out == [ToRoom(room, ChatMessage(msg))]
        && room in r.st.chatHistories
        && r.st.chatHistories[room] == st.chatHistories[room] + [msg]
        && r.st.chatHistories.Keys == st.chatHistories.Keys
        && (forall x | x in st.chatHistories && x != room :: r.st.chatHistories[x] == st.chatHistories[x])
        && r.st.(chatHistories := st.chatHistories) == st
  {
    var sock := st.sockets[sid];
    if !Truthy(sock.roomId) || !Truthy(sock.username) then Next(st, [])
    else
      var room := sock.roomId.value;
      var msg := Message(sock.username.value, content);
      if room !in st.chatHistories then Threw("TypeError: chat history of the room is undefined")
      else
        Next(st.(chatHistories := st.chatHistories[room := st.chatHistories[room] + [msg]]),
             [ToRoom(room, ChatMessage(msg))])
  }

  /** `bot-chat-message`, up to the `await`: ignored unless the socket has
      both a room and a username; otherwise the request is recorded as
      pending with the room and the user message. Nothing is emitted yet. */
  function OnBotChat<R>(st: State<R>, sid: SocketId, content: string): (r: State<R>)
    requires Live(st, sid)
    ensures var sock := st.sockets[sid];
      !(Truthy(sock.roomId) && Truthy(sock.username)) ==> r == st
    ensures var sock := st.sockets[sid];
      Truthy(sock.roomId) && Truthy(sock.username) ==>
        && st.nextRequest in r.pending
        && r.pending[st.nextRequest] == BotRequest(sock.roomId.value, Message(sock.username.value, content))
        && r.nextRequest > st.nextRequest
        && (forall q | q in st.pending && q != st.nextRequest :: q in r.pending && r.pending[q] == st.pending[q])
    ensures r.(pending := st.pending, nextRequest := st.nextRequest) == st
  {
    var sock := st.sockets[sid];
    if !Truthy(sock.roomId) || !Truthy(sock.username) then st
    else
      var req := BotRequest(sock.roomId.value, Message(sock.username.value, content));
      st.(pending := st.pending[st.nextRequest := req], nextRequest := st.nextRequest + 1)
  }

  /** `bot-chat-message`, after the `await`. A gateway failure emits exactly
      one apology to the room and leaves the assistant history alone. A reply
      appends the reply text and then the user's message to the room's
      assistant history and emits the reply once. If the history was deleted
      meanwhile, the push throws inside the `try` and the apology is emitted
      instead. */
  function OnBotReply<R>(st: State<R>, req: RequestId, reply: Option<string>): (r: (State<R>, seq<Emit>))
    ensures req !in st.pending ==> r == (st, [])
    ensures req in st.pending ==>
      var p := st.pending[req];
      var (st', out) := r;
      && |out| == 1
      && st'.pending == st.pending - {req}
      && (reply.None? || p.roomId !in st.botChatHistories ==>
            && out[0] == ToRoom(p.roomId, BotChatMessage(Message(ErrorBotName, Apology)))
            && st'.botChatHistories == st.botChatHistories)
      && (reply.Some? && p.roomId in st.botChatHistories ==>
            && out[0] == ToRoom(p.roomId, BotChatMessage(Message(BotName, reply.value)))
            && p.roomId in st'.botChatHistories
            && st'.botChatHistories[p.roomId]
               == st.botChatHistories[p.roomId] + [ReplyText(reply.value), UserLine(p.userMessage)]
            && st'.botChatHistories.Keys == st.botChatHistories.Keys
            && (forall x | x in st.botChatHistories && x != p.roomId ::
                  st'.botChatHistories[x] == st.botChatHistories[x]))
    ensures r.0.(pending := st.pending, botChatHistories := st.botChatHistories) == st
  {
    if req !in st.pending then (st, [])
    else
      var p := st.pending[req];
      var st1 := st.(pending := st.pending - {req});
      var apology := [ToRoom(p.roomId, BotChatMessage(Message(ErrorBotName, Apology)))];
      match reply
      case None => (st1, apology)
      case Some(text) =>
        if p.roomId !in st.botChatHistories then (st1, apology)
        else
          var h := st.botChatHistories[p.roomId] + [ReplyText(text), UserLine(p.userMessage)];
          (st1.(botChatHistories := st.botChatHistories[p.roomId := h]),
           [ToRoom(p.roomId, BotChatMessage(Message(BotName, text)))])
  }

  /** `disconnect`: the socket closes; a grace timer is armed, and recorded
      as the username's latest timer, only when both username and room are
      bound. An entry already recorded for the username is overwritten
      without clearing its timer, which stays armed. Membership and
      histories are untouched. */
  function OnDisconnect<R>(st: State<R>, sid: SocketId): (r: State<R>)
    requires Live(st, sid)
    ensures sid in r.sockets && !r.sockets[sid].connected
    ensures r.sockets[sid].username == st.sockets[sid].username
    ensures r.sockets[sid].roomId == st.sockets[sid].roomId
    ensures forall s | s in st.sockets && s != sid :: s in r.sockets && r.sockets[s] == st.sockets[s]
    ensures r.sockets.Keys == st.sockets.Keys
    ensures var sock := st.sockets[sid];
      Truthy(sock.username) && Truthy(sock.roomId) ==>
        && r.armed == st.armed[st.nextTimer := Timer(sid, sock.username.value, sock.roomId.value)]
        && r.disconnectTimeouts == st.disconnectTimeouts[sock.username.value := st.nextTimer]
        && r.nextTimer == st.nextTimer + 1
    ensures var sock := st.sockets[sid];
      !(Truthy(sock.username) && Truthy(sock.roomId)) ==>
        r.armed == st.armed && r.disconnectTimeouts == st.disconnectTimeouts && r.nextTimer == st.nextTimer
    ensures r.rooms == st.rooms
    ensures r.chatHistories == st.chatHistories && r.botChatHistories == st.botChatHistories
    ensures r.pending == st.pending
    ensures r.(sockets := st.sockets, armed := st.armed, disconnectTimeouts := st.disconnectTimeouts,
               nextTimer := st.nextTimer) == st
  {
    var sock := st.sockets[sid];
    var st1 := st.(sockets := st.sockets[sid := sock.(connected := false)]);
    if Truthy(sock.username) && Truthy(sock.roomId) then
      var t := Timer(sid, sock.username.value, sock.roomId.value);
      st1.(armed := st.armed[st.nextTimer := t],
           disconnectTimeouts := st.disconnectTimeouts[sock.username.value := st.nextTimer],
           nextTimer := st.nextTimer + 1)
    else
      st1
  }

  /** `reconnect`: clears the timer recorded for the socket's username but
      leaves the map entry in place. */
  function OnReconnect<R>(st: State<R>, sid: SocketId): (r: State<R>)
    requires Live(st, sid)
    ensures var u := st.sockets[sid].username;
      u.Some? && u.value in st.disconnectTimeouts ==>
        r.armed == st.armed - {st.disconnectTimeouts[u.value]}
    ensures var u := st.sockets[sid].username;
      !(u.Some? && u.value in st.disconnectTimeouts) ==> r.armed == st.armed
    ensures r.(armed := st.armed) == st
  {
    var u := st.sockets[sid].username;
    if u.Some? && u.value in st.disconnectTimeouts then
      st.(armed := st.armed - {st.disconnectTimeouts[u.value]})
    else
      st
  }

  /** A grace timer fires: the other sockets of the room are told the user
      left, the user is removed from the registry, and the username's map
      entry is deleted even when a newer timer owns it. Both histories are
      deleted, and the registry cleaned up, exactly when the removal reports
      the room empty. A cleared or already fired timer does nothing. */
  function OnTimerFire<R>(reg: Registry<R>, st: State<R>, id: TimerId): (r: (State<R>, seq<Emit>))
    ensures id !in st.armed ==> r == (st, [])
    ensures id in st.armed ==>
      var t := st.armed[id];
      var (removed, empty) := reg.removeUser(st.rooms, t.roomId, t.username);
      var (st', out) := r;
      && out == [ToRoomExcept(t.roomId, t.socket, UserLeft)]
      && st'.armed == st.armed - {id}
      && st'.disconnectTimeouts == st.disconnectTimeouts - {t.username}
      && (empty ==>
            && st'.rooms == reg.cleanup(removed, t.roomId)
            && st'.chatHistories == st.chatHistories - {t.roomId}
            && st'.botChatHistories == st.botChatHistories - {t.roomId})
      && (!empty ==>
            && st'.rooms == removed
            && st'.chatHistories == st.chatHistories
            && st'.botChatHistories == st.botChatHistories)
    ensures r.0.sockets == st.sockets && r.0.pending == st.pending
    ensures r.0.(armed := st.armed, disconnectTimeouts := st.disconnectTimeouts, rooms := st.rooms,
                 chatHistories := st.chatHistories, botChatHistories := st.botChatHistories) == st
  {
    if id !in st.armed then (st, [])
    else
      var t := st.armed[id];
      var (removed, empty) := reg.removeUser(st.rooms, t.roomId, t.username);
      var st1 := st.(armed := st.armed - {id},
                     disconnectTimeouts := st.disconnectTimeouts - {t.username},
                     rooms := removed);
      var st2 := if empty then
                   st1.(rooms := reg.cleanup(removed, t.roomId),
                        chatHistories := st.chatHistories - {t.roomId},
                        botChatHistories := st.botChatHistories - {t.roomId})
                 else st1;
      (st2, [ToRoomExcept(t.roomId, t.socket, UserLeft)])
  }

  /** `continue-session`: hands the vote to the vote tracker and emits what
      it emits; nothing else changes. */
  function OnContinueSession<R>(reg: Registry<R>, st: State<R>, sid: SocketId, room: string): (r: (State<R>, seq<Emit>))
    requires Live(st, sid)
    ensures r == (st.(rooms := reg.continueVote(st.rooms, room, st.sockets[sid].username).0),
                  reg.continueVote(st.rooms, room, st.sockets[sid].username).1)
  {
    var (rooms, out) := reg.continueVote(st.rooms, room, st.sockets[sid].username);
    (st.(rooms := rooms), out)
  }

  // ---------------------------------------------------------------------
  // the state machine

  function Step<R>(reg: Registry<R>, st: State<R>, ev: Event): Reaction<R> {
    match ev
    case Connect(sid) =>
      if sid in st.sockets then Next(st, []) else Next(OnConnect(st, sid), [])
    case AddUser(sid, u) =>
      if !Live(st, sid) then Next(st, []) else Next(OnAddUser(st, sid, u), [])
    case JoinRoom(sid, room) =>
      if !Live(st, sid) then Next(st, []) else var (st', out) := OnJoinRoom(reg, st, sid, room); Next(st', out)
    case SendChat(sid, content) =>
      if !Live(st, sid) then Next(st, []) else OnChatMessage(st, sid, content)
    case SendBotChat(sid, content) =>
      if !Live(st, sid) then Next(st, []) else Next(OnBotChat(st, sid, content), [])
    case BotReply(req, reply) =>
      var (st', out) := OnBotReply(st, req, reply); Next(st', out)
    case Disconnect(sid) =>
      if !Live(st, sid) then Next(st, []) else Next(OnDisconnect(st, sid), [])
    case Reconnect(sid) =>
      if !Live(st, sid) then Next(st, []) else Next(OnReconnect(st, sid), [])
    case TimerFire(id) =>
      var (st', out) := OnTimerFire(reg, st, id); Next(st', out)
    case ContinueSession(sid, room) =>
      if !Live(st, sid) then Next(st, []) else var (st', out) := OnContinueSession(reg, st, sid, room); Next(st', out)
  }

  /** Runs a sequence of events, concatenating what they emit; a handler
      that throws ends the run. */
  function Run<R>(reg: Registry<R>, st: State<R>, evs: seq<Event>): Reaction<R>
    decreases |evs|
  {
    if evs == [] then Next(st, [])
    else
      match Step(reg, st, evs[0])
      case Threw(m) => Threw(m)
      case Next(st1, out1) =>
        match Run(reg, st1, evs[1..])
        case Threw(m) => Threw(m)
        case Next(st2, out2) => Next(st2, out1 + out2)
  }

  // ---------------------------------------------------------------------
  // invariant

  /** What every reachable state satisfies: timer and request ids are fresh
      below their counters, the human and assistant histories exist for the
      same rooms, and every armed timer belongs to a closed socket whose
      (no longer changing) username and room are the ones the timer will
      read when it fires. */
  ghost predicate Inv<R>(st: State<R>) {
    && (forall t | t in st.armed :: t < st.nextTimer)
    && (forall u | u in st.disconnectTimeouts :: st.disconnectTimeouts[u] < st.nextTimer)
    && (forall q | q in st.pending :: q < st.nextRequest)
    && st.chatHistories.Keys == st.botChatHistories.Keys
    && (forall t | t in st.armed ::
          var tm := st.armed[t];
          && tm.socket in st.sockets
          && !st.sockets[tm.socket].connected
          && st.sockets[tm.socket].username == Some(tm.username)
          && st.sockets[tm.socket].roomId == Some(tm.roomId)
          && tm.username != "" && tm.roomId != "")
  }

  lemma InitInv<R>(rooms: R)
    ensures Inv(Init(rooms))
  {
  }

  /** Every event keeps the invariant. */
  lemma StepInv<R>(reg: Registry<R>, st: State<R>, ev: Event)
    requires Inv(st)
    ensures Step(reg, st, ev).Next? ==> Inv(Step(reg, st, ev).st)
  {
    if ev.Connect? || ev.AddUser? || ev.JoinRoom? {
      BindingStepInv(reg, st, ev);
    } else if ev.SendChat? || ev.SendBotChat? || ev.BotReply? {
      ChatStepInv(reg, st, ev);
    } else {
      TimerStepInv(reg, st, ev);
    }
  }

  /** Connecting and binding a username or room keep the invariant. */
  lemma BindingStepInv<R>(reg: Registry<R>, st: State<R>, ev: Event)
    requires Inv(st) && (ev.Connect? || ev.AddUser? || ev.JoinRoom?)
    ensures Step(reg, st, ev).Next? ==> Inv(Step(reg, st, ev).st)
  {
    match ev
    case Connect(sid) =>
    case AddUser(sid, u) =>
      if Live(st, sid) { AddUserInv(st, sid, u); }
    case JoinRoom(sid, room) =>
      if Live(st, sid) { JoinRoomInv(reg, st, sid, room); }
  }

  /** The chat messages and the assistant's replies keep the invariant. */
  lemma ChatStepInv<R>(reg: Registry<R>, st: State<R>, ev: Event)
    requires Inv(st) && (ev.SendChat? || ev.SendBotChat? || ev.BotReply?)
    ensures Step(reg, st, ev).Next? ==> Inv(Step(reg, st, ev).st)
  {
  }

  /** Disconnects, reconnects, timers and continuing a session keep the
      invariant. */
  lemma TimerStepInv<R>(reg: Registry<R>, st: State<R>, ev: Event)
    requires Inv(st) && (ev.Disconnect? || ev.Reconnect? || ev.TimerFire? || ev.ContinueSession?)
    ensures Step(reg, st, ev).Next? ==> Inv(Step(reg, st, ev).st)
  {
    match ev
    case Disconnect(sid) =>
      if Live(st, sid) { DisconnectInv(st, sid); }
    case Reconnect(sid) =>
    case TimerFire(id) =>
      TimerFireInv(reg, st, id);
    case ContinueSession(sid, room) =>
  }

  lemma AddUserInv<R>(st: State<R>, sid: SocketId, u: string)
    requires Inv(st) && Live(st, sid)
    ensures Inv(OnAddUser(st, sid, u))
  {
    var r := OnAddUser(st, sid, u);
    forall t | t in r.armed
      ensures r.armed[t].socket in r.sockets && r.sockets[r.armed[t].socket] == st.sockets[r.armed[t].socket]
    {
      assert st.armed[t] == r.armed[t];
      assert r.armed[t].socket != sid;
    }
  }

  lemma JoinRoomInv<R>(reg: Registry<R>, st: State<R>, sid: SocketId, room: string)
    requires Inv(st) && Live(st, sid)
    ensures Inv(OnJoinRoom(reg, st, sid, room).0)
  {
    var r := OnJoinRoom(reg, st, sid, room).0;
    forall t | t in r.armed
      ensures r.armed[t].socket in r.sockets && r.sockets[r.armed[t].socket] == st.sockets[r.armed[t].socket]
    {
      assert r.armed[t].socket != sid;
    }
  }

  lemma DisconnectInv<R>(st: State<R>, sid: SocketId)
    requires Inv(st) && Live(st, sid)
    ensures Inv(OnDisconnect(st, sid))
  {
    DisconnectKeepsTimers(st, sid);
  }

  /** After a disconnect every armed timer still belongs to a closed socket
      bound to the timer's username and room. */
  lemma DisconnectKeepsTimers<R>(st: State<R>, sid: SocketId)
    requires Inv(st) && Live(st, sid)
    ensures var r := OnDisconnect(st, sid);
      forall t | t in r.armed ::
        && r.armed[t].socket in r.sockets
        && !r.sockets[r.armed[t].socket].connected
        && r.sockets[r.armed[t].socket].username == Some(r.armed[t].username)
        && r.sockets[r.armed[t].socket].roomId == Some(r.armed[t].roomId)
        && r.armed[t].username != "" && r.armed[t].roomId != ""
  {
    var r := OnDisconnect(st, sid);
    forall t | t in r.armed
      ensures r.armed[t].socket in r.sockets && !r.sockets[r.armed[t].socket].connected
      ensures r.sockets[r.armed[t].socket].username == Some(r.armed[t].username)
      ensures r.sockets[r.armed[t].socket].roomId == Some(r.armed[t].roomId)
      ensures r.armed[t].username != "" && r.armed[t].roomId != ""
    {
      if t in st.armed {
        assert r.armed[t] == st.armed[t];
        assert st.armed[t].socket != sid;
      }
    }
  }

  lemma TimerFireInv<R>(reg: Registry<R>, st: State<R>, id: TimerId)
    requires Inv(st)
    ensures Inv(OnTimerFire(reg, st, id).0)
  {
  }

  /** Every run from a state satisfying the invariant ends in one. */
  lemma {:induction false} RunInv<R>(reg: Registry<R>, st: State<R>, evs: seq<Event>)
    requires Inv(st)
    ensures Run(reg, st, evs).Next? ==> Inv(Run(reg, st, evs).st)
    decreases |evs|
  {
    if evs != [] {
      StepInv(reg, st, evs[0]);
      var s := Step(reg, st, evs[0]);
      if s.Next? {
        RunInv(reg, s.st, evs[1..]);
      }
    }
  }

  /** A run of one event is that event's step. */
  lemma RunOne<R>(reg: Registry<R>, st: State<R>, e: Event)
    requires Step(reg, st, e).Next?
    ensures Run(reg, st, [e]) == Step(reg, st, e)
  {
    assert [e][1..] == [];
  }

  /** A run of `e` followed by `rest`, when `e` steps without throwing. */
  lemma RunCons<R>(reg: Registry<R>, st: State<R>, e: Event, rest: seq<Event>)
    requires Step(reg, st, e).Next? && Run(reg, Step(reg, st, e).st, rest).Next?
    ensures var s := Step(reg, st, e); var r := Run(reg, s.st, rest);
      Run(reg, st, [e] + rest) == Next(r.st, s.out + r.out)
  {
    assert ([e] + rest)[0] == e;
    assert ([e] + rest)[1..] == rest;
  }

  // ---------------------------------------------------------------------
  // consequences of the timer bookkeeping as written

  /** Two disconnects and an `add-user` step through their handlers. */
  lemma DisconnectTwiceThenAdd<R>(reg: Registry<R>, st: State<R>, a: SocketId, b: SocketId, c: SocketId, user: string)
    requires Live(st, a) && Live(st, b) && Live(st, c) && a != b && c != a && c != b
    ensures var s1 := OnDisconnect(st, a);
      Live(s1, b) && var s2 := OnDisconnect(s1, b);
      Live(s2, c) &&
      Run(reg, st, [Disconnect(a), Disconnect(b), AddUser(c, user)]) == Next(OnAddUser(s2, c, user), [])
  {
    var s1 := OnDisconnect(st, a);
    var s2 := OnDisconnect(s1, b);
    var s3 := OnAddUser(s2, c, user);
    assert Step(reg, s2, AddUser(c, user)) == Next(s3, []);
    RunOne(reg, s2, AddUser(c, user));
    assert Step(reg, s1, Disconnect(b)) == Next(s2, []);
    RunCons(reg, s1, Disconnect(b), [AddUser(c, user)]);
    assert Step(reg, st, Disconnect(a)) == Next(s1, []);
    RunCons(reg, st, Disconnect(a), [Disconnect(b), AddUser(c, user)]);
    assert [Disconnect(a)] + [Disconnect(b), AddUser(c, user)] == [Disconnect(a), Disconnect(b), AddUser(c, user)];
    assert [Disconnect(b)] + [AddUser(c, user)] == [Disconnect(b), AddUser(c, user)];
  }

  /** Two sockets bound to the same username and room disconnect one after
      the other: the second arm overwrites the map entry, so an `add-user`
      for that username afterwards clears only the newer timer and the older
      one stays armed, still due to remove the user. */
  lemma RearmLeavesOlderTimerArmed<R>(reg: Registry<R>, st: State<R>, a: SocketId, b: SocketId, c: SocketId,
                                      user: string, room: string)
    requires Inv(st)
    requires a != b && Live(st, a) && Live(st, b) && Live(st, c) && c != a && c != b
    requires user != "" && room != ""
    requires st.sockets[a].username == Some(user) && st.sockets[a].roomId == Some(room)
    requires st.sockets[b].username == Some(user) && st.sockets[b].roomId == Some(room)
    ensures var r := Run(reg, st, [Disconnect(a), Disconnect(b), AddUser(c, user)]);
      && r.Next?
      && st.nextTimer in r.st.armed
      && r.st.armed[st.nextTimer] == Timer(a, user, room)
      && st.nextTimer + 1 !in r.st.armed
      && user !in r.st.disconnectTimeouts
  {
    DisconnectTwiceThenAdd(reg, st, a, b, c, user);
    DisconnectTwiceArms(st, a, b, user, room);
  }

  /** After the two disconnects both timers are armed and the entry names
      the second. */
  lemma DisconnectTwiceArms<R>(st: State<R>, a: SocketId, b: SocketId, user: string, room: string)
    requires Inv(st)
    requires a != b && Live(st, a) && Live(st, b)
    requires user != "" && room != ""
    requires st.sockets[a].username == Some(user) && st.sockets[a].roomId == Some(room)
    requires st.sockets[b].username == Some(user) && st.sockets[b].roomId == Some(room)
    ensures var s1 := OnDisconnect(st, a);
      Live(s1, b) && var s2 := OnDisconnect(s1, b);
      && s2.armed == st.armed[st.nextTimer := Timer(a, user, room)][st.nextTimer + 1 := Timer(b, user, room)]
      && s2.disconnectTimeouts == st.disconnectTimeouts[user := st.nextTimer + 1]
  {
  }

  /** When a timer fires while a newer timer owns its username's entry, the
      entry is deleted all the same, so the newer timer stays armed and an
      `add-user` for that username can no longer clear it. */
  lemma FireForgetsNewerTimer<R>(reg: Registry<R>, st: State<R>, older: TimerId, c: SocketId)
    requires Inv(st)
    requires older in st.armed && Live(st, c)
    requires var u := st.armed[older].username;
      u in st.disconnectTimeouts && st.disconnectTimeouts[u] != older && st.disconnectTimeouts[u] in st.armed
    ensures var u := st.armed[older].username;
      var newer := st.disconnectTimeouts[u];
      var r := Run(reg, st, [TimerFire(older), AddUser(c, u)]);
      && r.Next?
      && newer in r.st.armed
      && r.st.armed[newer] == st.armed[newer]
  {
    var u := st.armed[older].username;
    var (s1, o1) := OnTimerFire(reg, st, older);
    assert Step(reg, st, TimerFire(older)) == Next(s1, o1);
    assert Live(s1, c);
    assert u !in s1.disconnectTimeouts;
    var s2 := OnAddUser(s1, c, u);
    assert Step(reg, s1, AddUser(c, u)) == Next(s2, []);
    RunOne(reg, s1, AddUser(c, u));
    RunCons(reg, st, TimerFire(older), [AddUser(c, u)]);
    assert [TimerFire(older)] + [AddUser(c, u)] == [TimerFire(older), AddUser(c, u)];
  }
}
