/** Clients and server together: any number of clients, a queue each way, messages under way while
    users press keys. The server has no check of its own, so it depends on what clients send when. */
module ChatSystem {
  import opened Wire
  import opened ChatRooms
  import opened ChatHistory
  import opened ChatClients

  /** `up` holds what each client sent and the server has not served; `log` everything the server
      sent, of which each client has received `received` texts. */
  datatype System = System(chat: Chat, clients: map<Socket, Client>, up: map<Socket, seq<Bytes>>,
                           log: seq<Outgoing>, received: map<Socket, nat>)
  const QUIET := System(OPENING, map[], map[], [], map[])

  datatype Step = Introduce(s: Socket, name: Bytes) | Type(s: Socket, key: Key) | Serve(s: Socket) | Deliver(s: Socket)

  function ClientOf(y: System, s: Socket): Client { if s in y.clients then y.clients[s] else STARTED }
  function UpOf(y: System, s: Socket): seq<Bytes> { if s in y.up then y.up[s] else [] }
  function ReceivedBy(y: System, s: Socket): nat { if s in y.received then y.received[s] else 0 }

  /** The texts for one socket. */
  function Addressed(out: seq<Outgoing>, s: Socket): seq<Bytes> {
    if out == [] then []
    else (if out[0].to == s then [out[0].text] else []) + Addressed(out[1..], s)
  }

  /** What the server sent to s and s has not received. */
  function DownOf(y: System, s: Socket): seq<Bytes> {
    var all, n := Addressed(y.log, s), ReceivedBy(y, s);
    if n <= |all| then all[n..] else []
  }

  /** The client of s changes to c and sends these texts. */
  function Sent(y: System, s: Socket, c: Client, texts: seq<Bytes>): System {
    y.(clients := y.clients[s := c], up := y.up[s := UpOf(y, s) + texts])
  }

  /** A queue that is empty has nothing to serve or deliver. */
  function Do(y: System, step: Step): System {
    match step
    case Introduce(s, name) => Sent(y, s, ClientOf(y, s), [Ascii("$NAME$") + name])
    case Type(s, key) =>
      var p := Press(ClientOf(y, s), key);
      Sent(y, s, p.client, p.sent)
    case Serve(s) =>
      if UpOf(y, s) == [] then y
      else
        var command := Parse(UpOf(y, s)[0]);
        y.(chat := Handle(y.chat, s, command), log := y.log + Sends(y.chat, s, command),
           up := y.up[s := UpOf(y, s)[1..]])
    case Deliver(s) =>
      if DownOf(y, s) == [] then y
      else
        y.(clients := y.clients[s := ChatClients.Received(ClientOf(y, s), DownOf(y, s)[0])],
           received := y.received[s := ReceivedBy(y, s) + 1])
  }

  function Run(y: System, steps: seq<Step>): System
    decreases |steps|
  {
    if steps == [] then y else Run(Do(y, steps[0]), steps[1..])
  }

  // ----- the messages that matter -----

  /** The commands under way that enter or leave a room or need one. */
  function Commands(texts: seq<Bytes>): seq<Command> {
    if texts == [] then []
    else
      var c := Parse(texts[0]);
      (if c.Join? || c.Say? || c.Exit? then [c] else []) + Commands(texts[1..])
  }

  datatype Signal = Ready | Left

  /** The texts under way that change a client: $READY$ and $LEFT$. */
  function Signals(texts: seq<Bytes>): seq<Signal> {
    if texts == [] then []
    else (if IsReady(texts[0]) then [Ready] else if IsLeft(texts[0]) then [Left] else []) + Signals(texts[1..])
  }

  /** The client has asked to leave and has not been told that it left. */
  ghost predicate Waits(y: System, s: Socket) {
    Exit in Commands(UpOf(y, s)) || Left in Signals(DownOf(y, s))
  }

  /** A user is patient who neither chats nor leaves again while the client waits for $LEFT$. */
  ghost predicate Patient(y: System, step: Step) {
    step.Type? && (step.key.KeyTab? || step.key.KeyE?) && Press(ClientOf(y, step.s), step.key).sent != [] ==>
      !Waits(y, step.s)
  }

  ghost predicate AllPatient(y: System, steps: seq<Step>)
    decreases |steps|
  {
    steps == [] || (Patient(y, steps[0]) && AllPatient(Do(y, steps[0]), steps[1..]))
  }

  // ----- client, queues and server in step -----

  /** Chat messages, then at most one exit. */
  ghost predicate Talk(up: seq<Command>) {
    up == [] || up == [Exit] || (up[0].Say? && Talk(up[1..]))
  }

  /** Where one client and the server can be, with what is under way between them. */
  ghost predicate InStep(c: Client, inRoom: bool, up: seq<Command>, down: seq<Signal>) {
    || (!c.joinedRoom && !c.chatReady && !inRoom && up == [] && down == [])
    || (c.joinedRoom && !c.chatReady && !inRoom && |up| > 0 && up[0].Join? && up[1..] in {[], [Exit]} && down == [])
    || (c.joinedRoom && !c.chatReady && inRoom && up in {[], [Exit]} && down == [Ready])
    || (c.joinedRoom && !c.chatReady && !inRoom && up == [] && down == [Ready, Left])
    || (c.joinedRoom && c.chatReady && inRoom && Talk(up) && down == [])
    || (c.joinedRoom && c.chatReady && !inRoom && up == [] && down == [Left])
  }

  ghost predicate SocketOk(y: System, s: Socket) {
    InStep(ClientOf(y, s), s in y.chat.clientRooms, Commands(UpOf(y, s)), Signals(DownOf(y, s)))
  }

  ghost predicate Inv(y: System) {
    Consistent(y.chat) && (forall s :: SocketOk(y, s)) && (forall s :: ReceivedBy(y, s) <= |Addressed(y.log, s)|)
  }

  // ----- the queues -----

  lemma {:induction false} CommandsAppend(a: seq<Bytes>, b: seq<Bytes>)
    ensures Commands(a + b) == Commands(a) + Commands(b)
    decreases |a|
  {
    if a == [] {
      assert a + b == b;
    } else {
      assert (a + b)[0] == a[0] && (a + b)[1..] == a[1..] + b;
      hide Parse;
      CommandsAppend(a[1..], b);
    }
  }

  lemma {:induction false} SignalsAppend(a: seq<Bytes>, b: seq<Bytes>)
    ensures Signals(a + b) == Signals(a) + Signals(b)
    decreases |a|
  {
    if a == [] {
      assert a + b == b;
    } else {
      assert (a + b)[0] == a[0] && (a + b)[1..] == a[1..] + b;
      hide IsReady, IsLeft;
      SignalsAppend(a[1..], b);
    }
  }

  lemma {:induction false} AddressedAppend(a: seq<Outgoing>, b: seq<Outgoing>, s: Socket)
    ensures Addressed(a + b, s) == Addressed(a, s) + Addressed(b, s)
    decreases |a|
  {
    if a == [] {
      assert a + b == b;
    } else {
      assert (a + b)[0] == a[0] && (a + b)[1..] == a[1..] + b;
      AddressedAppend(a[1..], b, s);
    }
  }

  /** Texts that tell a client nothing about itself. */
  lemma {:induction false} NewsHasNoSignals(out: seq<Outgoing>, s: Socket)
    requires forall i :: 0 <= i < |out| && out[i].to == s ==> !IsReady(out[i].text) && !IsLeft(out[i].text)
    ensures Signals(Addressed(out, s)) == []
    decreases |out|
  {
    if out != [] {
      hide IsReady, IsLeft;
      NewsHasNoSignals(out[1..], s);
      if out[0].to == s {
        assert !IsReady(out[0].text) && !IsLeft(out[0].text);
        assert Addressed(out, s)[1..] == Addressed(out[1..], s);
      } else {
        assert Addressed(out, s) == Addressed(out[1..], s);
      }
    }
  }

  /** The signals a command causes for its sender. */
  function Replies(command: Command): seq<Signal> {
    match command
    case Join(_) => [Ready]
    case Exit => [Left]
    case _ => []
  }

  lemma FirstAndNews(first: Outgoing, rest: seq<Outgoing>, x: Socket)
    requires forall i :: 0 <= i < |rest| ==> !IsReady(rest[i].text) && !IsLeft(rest[i].text)
    ensures Signals(Addressed([first] + rest, x)) == if first.to == x then Signals([first.text]) else []
  {
    AddressedAppend([first], rest, x);
    NewsHasNoSignals(rest, x);
    assert [first][1..] == [];
    SignalsAppend(Addressed([first], x), Addressed(rest, x));
    hide IsReady, IsLeft;
  }

  lemma {:induction false} OthersHear(clients: seq<Socket>, s: Socket, text: Bytes)
    ensures forall i :: 0 <= i < |ToOthers(clients, s, text)| ==> ToOthers(clients, s, text)[i].text == text
    decreases |clients|
  {
    if clients != [] { OthersHear(clients[1..], s, text); }
  }

  /** Of all that the server sends for a message only the sender's confirmation changes a client. */
  lemma {:induction false} SignalsSent(c: Chat, s: Socket, command: Command, x: Socket)
    ensures Signals(Addressed(Sends(c, s, command), x)) == if x == s then Replies(command) else []
  {
    hide IsReady, IsLeft, ReadyText, JoinedText, LeftText, ReplyText, OwnText, Without, Ascii;
    var name, room := NameOf(c, s), RoomOf(c, s);
    NewsUnderstood(STARTED, name, if command.Say? then command.text else []);
    match command {
      case Join(r) =>
        var rest := ToOthers(MembersOf(c, r) + [s], s, JoinedText(name));
        OthersHear(MembersOf(c, r) + [s], s, JoinedText(name));
        ReadyUnderstood(STARTED, name, r);
        FirstAndNews(Outgoing(s, ReadyText(name, r)), rest, x);
        OneSignal(ReadyText(name, r));
      case Exit =>
        LeftUnderstood(STARTED);
        FirstAndNews(Outgoing(s, Ascii("$LEFT$")), ToAll(Without(MembersOf(c, room), s), LeftText(name)), x);
        OneSignal(Ascii("$LEFT$"));
      case Say(text) =>
        OwnWordsUnderstood(STARTED, text);
        NewsHasNoSignals(Sends(c, s, command), x);
      case _ =>
    }
  }

  lemma OneSignal(text: Bytes)
    ensures Signals([text]) == if IsReady(text) then [Ready] else if IsLeft(text) then [Left] else []
  {
    assert [text][1..] == [];
  }

  // ----- what each step does to one client's side -----

  lemma DownAfterServe(y: System, s: Socket, x: Socket)
    requires UpOf(y, s) != [] && ReceivedBy(y, x) <= |Addressed(y.log, x)|
    ensures var y', command := Do(y, Serve(s)), Parse(UpOf(y, s)[0]);
      && Signals(DownOf(y', x)) == Signals(DownOf(y, x)) + (if x == s then Replies(command) else [])
      && ReceivedBy(y', x) <= |Addressed(y'.log, x)|
  {
    var out := Sends(y.chat, s, Parse(UpOf(y, s)[0]));
    AddressedAppend(y.log, out, x);
    var all, n := Addressed(y.log, x), ReceivedBy(y, x);
    assert (all + Addressed(out, x))[n..] == all[n..] + Addressed(out, x);
    SignalsAppend(all[n..], Addressed(out, x));
    SignalsSent(y.chat, s, Parse(UpOf(y, s)[0]), x);
    hide Signals, Sends, Handle, Parse, Addressed;
  }

  lemma CommandsNext(texts: seq<Bytes>)
    requires texts != []
    ensures var c := Parse(texts[0]);
      Commands(texts) == (if c.Join? || c.Say? || c.Exit? then [c] else []) + Commands(texts[1..])
  {
  }

  lemma SignalsNext(texts: seq<Bytes>)
    requires texts != []
    ensures Signals(texts) ==
      (if IsReady(texts[0]) then [Ready] else if IsLeft(texts[0]) then [Left] else []) + Signals(texts[1..])
  {
  }

  lemma ServedInStep(c: Client, inRoom: bool, command: Command, rest: seq<Command>, down: seq<Signal>)
    requires var session := command.Join? || command.Say? || command.Exit?;
      InStep(c, inRoom, (if session then [command] else []) + rest, down)
    ensures command.Join? ==> !inRoom
    ensures command.Say? ==> inRoom
    ensures
      InStep(c, if command.Join? then true else if command.Exit? then false else inRoom, rest, down + Replies(command))
  {
    if command.Join? || command.Say? || command.Exit? {
      var up := [command] + rest;
      assert up[0] == command && up[1..] == rest;
      assert down + [] == down && [] + Replies(command) == Replies(command) && [Ready] + [Left] == [Ready, Left];
    } else {
      assert [] + rest == rest && down + [] == down;
    }
  }

  /** A served message is one its sender may send, and leaves every client in step. */
  lemma ServeDisciplined(y: System, s: Socket)
    requires UpOf(y, s) != [] && SocketOk(y, s)
    ensures Disciplined(y.chat, s, Parse(UpOf(y, s)[0]))
  {
    CommandsNext(UpOf(y, s));
    ServedInStep(ClientOf(y, s), s in y.chat.clientRooms, Parse(UpOf(y, s)[0]), Commands(UpOf(y, s)[1..]),
                 Signals(DownOf(y, s)));
    hide InStep, Commands, Signals, Parse;
  }

  lemma ServeKeeps(y: System, s: Socket, x: Socket)
    requires UpOf(y, s) != [] && SocketOk(y, s) && SocketOk(y, x) && ReceivedBy(y, x) <= |Addressed(y.log, x)|
    ensures SocketOk(Do(y, Serve(s)), x)
  {
    ServeDisciplined(y, s);
    DownAfterServe(y, s, x);
    RoomAfter(y.chat, Event(s, Parse(UpOf(y, s)[0])), x);
    if x == s {
      CommandsNext(UpOf(y, s));
      ServedInStep(ClientOf(y, s), s in y.chat.clientRooms, Parse(UpOf(y, s)[0]), Commands(UpOf(y, s)[1..]),
                   Signals(DownOf(y, s)));
    } else {
      assert Signals(DownOf(y, x)) + [] == Signals(DownOf(y, x));
    }
    hide InStep, Commands, Signals, Parse, Handle, Sends, Disciplined, DownOf;
  }

  lemma {:induction false} ServeInv(y: System, s: Socket)
    requires Inv(y)
    ensures Inv(Do(y, Serve(s)))
    ensures UpOf(y, s) != [] ==> Disciplined(y.chat, s, Parse(UpOf(y, s)[0]))
  {
    if UpOf(y, s) != [] {
      assert SocketOk(y, s);
      ServeDisciplined(y, s);
      HandleKeepsConsistent(y.chat, s, Parse(UpOf(y, s)[0]));
      var y' := Do(y, Serve(s));
      hide SocketOk, Consistent, Disciplined, Parse, Sends, Handle, Addressed;
      forall x ensures SocketOk(y', x) && ReceivedBy(y', x) <= |Addressed(y'.log, x)| {
        assert SocketOk(y, x);
        ServeKeeps(y, s, x);
        DownAfterServe(y, s, x);
      }
    }
  }

  lemma DeliveredInStep(c: Client, inRoom: bool, up: seq<Command>, text: Bytes, down: seq<Signal>)
    requires
      InStep(c, inRoom, up, (if IsReady(text) then [Ready] else if IsLeft(text) then [Left] else []) + down)
    ensures InStep(ChatClients.Received(c, text), inRoom, up, down)
  {
    if IsReady(text) || IsLeft(text) {
      var all := [if IsReady(text) then Ready else Left] + down;
      assert all[0] == (if IsReady(text) then Ready else Left) && all[1..] == down;
      assert [Ready, Left][1..] == [Left] && [Ready][1..] == [] && [Left][1..] == [];
    } else {
      assert [] + down == down;
    }
    hide IsReady, IsLeft;
  }

  lemma SameSide(y: System, y': System, x: Socket)
    requires SocketOk(y, x) && ClientOf(y', x) == ClientOf(y, x) && UpOf(y', x) == UpOf(y, x)
    requires DownOf(y', x) == DownOf(y, x) && (x in y'.chat.clientRooms <==> x in y.chat.clientRooms)
    ensures SocketOk(y', x)
  {
    hide InStep, Commands, Signals, DownOf;
  }

  lemma DeliverElsewhere(y: System, s: Socket, x: Socket)
    requires x != s
    ensures var y' := Do(y, Deliver(s));
      && ClientOf(y', x) == ClientOf(y, x) && UpOf(y', x) == UpOf(y, x) && DownOf(y', x) == DownOf(y, x)
      && y'.chat == y.chat && y'.log == y.log && ReceivedBy(y', x) == ReceivedBy(y, x)
  {
    hide Addressed, ChatClients.Received;
  }

  lemma DeliverOne(y: System, s: Socket)
    requires ReceivedBy(y, s) <= |Addressed(y.log, s)| && DownOf(y, s) != []
    ensures var y', text := Do(y, Deliver(s)), DownOf(y, s)[0];
      && y'.chat == y.chat && UpOf(y', s) == UpOf(y, s) && ReceivedBy(y', s) <= |Addressed(y'.log, s)|
      && DownOf(y', s) == DownOf(y, s)[1..] && ClientOf(y', s) == ChatClients.Received(ClientOf(y, s), text)
      && Patient(y, Deliver(s))
  {
    var all, n := Addressed(y.log, s), ReceivedBy(y, s);
    assert all[n..][1..] == all[n + 1..];
    hide Addressed, ChatClients.Received;
  }

  lemma DeliverHere(y: System, s: Socket)
    requires SocketOk(y, s) && ReceivedBy(y, s) <= |Addressed(y.log, s)| && DownOf(y, s) != []
    ensures var y' := Do(y, Deliver(s));
      && SocketOk(y', s) && ReceivedBy(y', s) <= |Addressed(y'.log, s)| && y'.chat == y.chat && y'.log == y.log
  {
    DeliverOne(y, s);
    SignalsNext(DownOf(y, s));
    DeliveredInStep(ClientOf(y, s), s in y.chat.clientRooms, Commands(UpOf(y, s)), DownOf(y, s)[0],
                    Signals(DownOf(y, s)[1..]));
    hide InStep, Signals, Commands, DownOf, ChatClients.Received;
  }

  lemma {:induction false} DeliverInv(y: System, s: Socket)
    requires Inv(y)
    ensures Inv(Do(y, Deliver(s)))
  {
    hide SocketOk, Consistent, Addressed, DownOf, ReceivedBy, UpOf, ClientOf;
    if DownOf(y, s) != [] {
      assert SocketOk(y, s);
      DeliverHere(y, s);
      var y' := Do(y, Deliver(s));
      forall x ensures SocketOk(y', x) && ReceivedBy(y', x) <= |Addressed(y'.log, x)| {
        if x != s {
          assert SocketOk(y, x);
          DeliverElsewhere(y, s, x);
          SameSide(y, y', x);
        }
      }
    }
  }

  lemma {:induction false} TalkMore(up: seq<Command>, command: Command)
    requires Talk(up) && Exit !in up && (command.Say? || command.Exit?)
    ensures Talk(up + [command])
    decreases |up|
  {
    if up == [] {
      assert up + [command] == [command] && [command][1..] == [];
    } else {
      assert up[0] in up;
      assert (up + [command])[0] == up[0] && (up + [command])[1..] == up[1..] + [command];
      TalkMore(up[1..], command);
    }
  }

  lemma KeySent(c: Client, key: Key)
    ensures Press(c, key).sent == [] ==> Commands(Press(c, key).sent) == []
    ensures Press(c, key).sent != [] ==> !key.Escape? && Commands(Press(c, key).sent) == [CommandOf(key)]
  {
    if Press(c, key).sent != [] {
      KeysAreCommands(c, key);
      hide Parse, Ascii;
      CommandsNext(Press(c, key).sent);
      assert Press(c, key).sent[1..] == [];
    }
  }

  /** What a key stands for. */
  function CommandOf(key: Key): Command {
    match key
    case KeyJ(room) => Join(room)
    case KeyTab(text) => Say(text)
    case _ => Exit
  }

  lemma TypedInStep(c: Client, inRoom: bool, up: seq<Command>, down: seq<Signal>, key: Key)
    requires InStep(c, inRoom, up, down)
    requires (key.KeyTab? || key.KeyE?) && Press(c, key).sent != [] ==> Exit !in up && Left !in down
    ensures InStep(Press(c, key).client, inRoom, up + Commands(Press(c, key).sent), down)
  {
    KeySent(c, key);
    hide Ascii, Commands;
    if Press(c, key).sent == [] {
      assert up + [] == up;
    } else {
      var command := CommandOf(key);
      assert [Exit][0] == Exit && [Ready, Left][1] == Left && [Left][0] == Left;
      assert [] + [command] == [command] && (up + [command])[1..] == if up == [] then [] else up[1..] + [command];
      if Talk(up) && Exit !in up && !key.KeyJ? { TalkMore(up, command); }
    }
  }

  /** A message of s goes under way, or s changes: no other client notices. */
  lemma SentElsewhere(y: System, s: Socket, c: Client, texts: seq<Bytes>, x: Socket)
    ensures var y' := Sent(y, s, c, texts);
      && y'.chat == y.chat && y'.log == y.log && ReceivedBy(y', x) == ReceivedBy(y, x) && DownOf(y', x) == DownOf(y, x)
      && (x != s ==> ClientOf(y', x) == ClientOf(y, x) && UpOf(y', x) == UpOf(y, x))
      && ClientOf(y', s) == c && UpOf(y', s) == UpOf(y, s) + texts
  {
    hide Addressed;
  }

  lemma SentInv(y: System, s: Socket, c: Client, texts: seq<Bytes>)
    requires Inv(y)
    requires InStep(c, s in y.chat.clientRooms, Commands(UpOf(y, s) + texts), Signals(DownOf(y, s)))
    ensures Inv(Sent(y, s, c, texts))
  {
    hide InStep, Commands, Signals, Consistent, Addressed, DownOf, UpOf, ClientOf, ReceivedBy, Sent;
    var y' := Sent(y, s, c, texts);
    SentElsewhere(y, s, c, texts, s);
    forall x ensures SocketOk(y', x) && ReceivedBy(y', x) <= |Addressed(y'.log, x)| {
      SentElsewhere(y, s, c, texts, x);
      assert SocketOk(y, x);
    }
  }

  lemma TypeInv(y: System, s: Socket, key: Key)
    requires Inv(y) && Patient(y, Type(s, key))
    ensures Inv(Do(y, Type(s, key)))
  {
    hide InStep, Commands, Signals, DownOf, UpOf, ClientOf, Press, Inv;
    var p := Press(ClientOf(y, s), key);
    InvSocket(y, s);
    TypedInStep(ClientOf(y, s), s in y.chat.clientRooms, Commands(UpOf(y, s)), Signals(DownOf(y, s)), key);
    CommandsAppend(UpOf(y, s), p.sent);
    SentInv(y, s, p.client, p.sent);
  }

  lemma InvSocket(y: System, s: Socket)
    requires Inv(y)
    ensures InStep(ClientOf(y, s), s in y.chat.clientRooms, Commands(UpOf(y, s)), Signals(DownOf(y, s)))
  {
    assert SocketOk(y, s);
    hide InStep, Commands, Signals, DownOf, UpOf, ClientOf;
  }

  lemma NameIsNoCommand(name: Bytes)
    ensures Commands([Ascii("$NAME$") + name]) == []
  {
    CommandBytes();
    ServerUnderstands(name);
    hide Parse, Ascii;
    var sent: Bytes := Ascii("$NAME$") + name;
    assert [sent][1..] == [];
    CommandsNext([sent]);
  }

  lemma IntroduceInv(y: System, s: Socket, name: Bytes)
    requires Inv(y)
    ensures Inv(Do(y, Introduce(s, name)))
  {
    hide InStep, Commands, Signals, DownOf, Inv, Ascii, Parse;
    var sent := [Ascii("$NAME$") + name];
    InvSocket(y, s);
    NameIsNoCommand(name);
    CommandsAppend(UpOf(y, s), sent);
    assert Commands(UpOf(y, s)) + [] == Commands(UpOf(y, s));
    SentInv(y, s, ClientOf(y, s), sent);
  }

  lemma {:induction false} StepInv(y: System, step: Step)
    requires Inv(y) && Patient(y, step)
    ensures Inv(Do(y, step))
  {
    hide *;
    match step {
      case Introduce(s, name) => IntroduceInv(y, s, name);
      case Type(s, key) => TypeInv(y, s, key);
      case Serve(s) => ServeInv(y, s);
      case Deliver(s) => DeliverInv(y, s);
    }
  }

  lemma {:induction false} RunInv(y: System, steps: seq<Step>)
    requires Inv(y) && AllPatient(y, steps)
    ensures Inv(Run(y, steps))
    decreases |steps|
  {
    if steps != [] {
      hide Inv, Patient, Do;
      StepInv(y, steps[0]);
      RunInv(Do(y, steps[0]), steps[1..]);
    }
  }

  /** While users are patient the server's rooms and its notes on clients agree at all times, and
      every client's idea of where it is agrees with them once nothing is under way. */
  lemma {:induction false} PatienceIsEnough(steps: seq<Step>, s: Socket)
    requires AllPatient(QUIET, steps)
    ensures var y := Run(QUIET, steps);
      && Consistent(y.chat)
      && (UpOf(y, s) == [] && DownOf(y, s) == [] ==>
            var c := ClientOf(y, s);
            c.joinedRoom == c.chatReady == (s in y.chat.clientRooms))
  {
    assert Inv(QUIET);
    RunInv(QUIET, steps);
    AgreesWhenQuiet(Run(QUIET, steps), s);
    hide *;
  }

  lemma AgreesWhenQuiet(y: System, s: Socket)
    requires Inv(y)
    ensures Consistent(y.chat)
    ensures UpOf(y, s) == [] && DownOf(y, s) == [] ==>
      ClientOf(y, s).joinedRoom == ClientOf(y, s).chatReady == (s in y.chat.clientRooms)
  {
    assert SocketOk(y, s);
    hide Consistent, DownOf;
  }

  /** The messages the server served, in order. */
  ghost function Served(y: System, steps: seq<Step>): seq<Event>
    decreases |steps|
  {
    if steps == [] then []
    else if steps[0].Serve? && UpOf(y, steps[0].s) != [] then
      [Event(steps[0].s, Parse(UpOf(y, steps[0].s)[0]))] + Served(Do(y, steps[0]), steps[1..])
    else Served(Do(y, steps[0]), steps[1..])
  }

  lemma OneServed(c: Chat, e: Event, rest: seq<Event>)
    ensures After(c, [e] + rest) == After(Handle(c, e.from, e.command), rest)
    ensures AllDisciplined(c, [e] + rest) <==>
      Disciplined(c, e.from, e.command) && AllDisciplined(Handle(c, e.from, e.command), rest)
  {
    assert ([e] + rest)[1..] == rest;
    hide Handle, Disciplined;
  }

  /** With patient users the server serves a run that keeps to its rules, and nothing else happens to
      its rooms and names. */
  lemma {:induction false} ServedIsDisciplined(y: System, steps: seq<Step>)
    requires Inv(y) && AllPatient(y, steps)
    ensures AllDisciplined(y.chat, Served(y, steps))
    ensures Run(y, steps).chat == After(y.chat, Served(y, steps))
    decreases |steps|
  {
    if steps != [] {
      var step, rest := steps[0], steps[1..];
      StepInv(y, step);
      if step.Serve? { ServeInv(y, step.s); }
      hide Inv, Patient, Handle, Disciplined, Parse, Sends;
      ServedIsDisciplined(Do(y, step), rest);
      if step.Serve? && UpOf(y, step.s) != [] {
        OneServed(y.chat, Event(step.s, Parse(UpOf(y, step.s)[0])), Served(Do(y, step), rest));
      }
    }
  }

  // ----- and nothing less will do -----

  /** Whatever patient users do after this step, rooms and notes agree. */
  ghost predicate Harmless(y: System, step: Step) {
    forall steps :: AllPatient(Do(y, step), steps) ==> Consistent(Run(Do(y, step), steps).chat)
  }

  lemma {:induction false} RunAppend(y: System, a: seq<Step>, b: seq<Step>)
    ensures Run(y, a + b) == Run(Run(y, a), b)
    ensures AllPatient(y, a + b) <==> AllPatient(y, a) && AllPatient(Run(y, a), b)
    decreases |a|
  {
    if a == [] {
      assert a + b == b;
    } else {
      assert (a + b)[0] == a[0] && (a + b)[1..] == a[1..] + b;
      hide Do, Patient;
      RunAppend(Do(y, a[0]), a[1..], b);
    }
  }

  lemma OneStep(y: System, step: Step)
    ensures Run(y, [step]) == Do(y, step) && (AllPatient(y, [step]) <==> Patient(y, step))
  {
    assert [step][1..] == [];
    hide Do, Patient;
  }

  lemma ServeExtra(y: System, s: Socket, c: Client, msg: Bytes)
    requires UpOf(y, s) != []
    ensures Do(Sent(y, s, c, [msg]), Serve(s)) == Sent(Do(y, Serve(s)), s, c, [msg])
  {
    var up := UpOf(y, s);
    assert (up + [msg])[0] == up[0] && (up + [msg])[1..] == up[1..] + [msg];
    assert y.up[s := up + [msg]][s := up[1..] + [msg]] == y.up[s := up[1..]][s := up[1..] + [msg]];
    hide Handle, Sends, Parse;
  }

  lemma WaitsStill(y: System, s: Socket)
    requires Inv(y) && Waits(y, s) && UpOf(y, s) != []
    ensures Waits(Do(y, Serve(s)), s)
  {
    CommandsNext(UpOf(y, s));
    DownAfterServe(y, s, s);
    var command := Parse(UpOf(y, s)[0]);
    if command.Exit? { assert Replies(command)[0] == Left; }
    hide Commands, Signals, Parse, Handle, Sends, DownOf;
  }

  /** What is under way in front of the extra message is served first. */
  lemma {:induction false} ServeAll(y: System, s: Socket, c: Client, msg: Bytes) returns (steps: seq<Step>, z: System)
    requires Inv(y) && Waits(y, s)
    ensures AllPatient(Sent(y, s, c, [msg]), steps) && Run(Sent(y, s, c, [msg]), steps) == Sent(z, s, c, [msg])
    ensures Inv(z) && Waits(z, s) && UpOf(z, s) == []
    decreases |UpOf(y, s)|
  {
    if UpOf(y, s) == [] {
      steps, z := [], y;
    } else {
      ServeInv(y, s);
      WaitsStill(y, s);
      ServeExtra(y, s, c, msg);
      var y' := Do(y, Serve(s));
      assert |UpOf(y', s)| < |UpOf(y, s)|;
      hide Inv, Waits, Do, Sent, UpOf;
      var rest;
      rest, z := ServeAll(y', s, c, msg);
      steps := [Serve(s)] + rest;
      assert steps[1..] == rest;
    }
  }

  /** A client that waits with nothing under way to the server is out of its room. */
  lemma WaitsOutside(y: System, s: Socket)
    requires Inv(y) && Waits(y, s) && UpOf(y, s) == []
    ensures Consistent(y.chat) && s !in y.chat.clientRooms && ReceivedBy(y, s) <= |Addressed(y.log, s)|
    ensures Signals(DownOf(y, s)) == [Left] || Signals(DownOf(y, s)) == [Ready, Left]
  {
    assert SocketOk(y, s);
    hide Consistent, Signals, DownOf;
  }

  lemma ServeLast(y: System, s: Socket, c: Client, msg: Bytes)
    requires UpOf(y, s) == [] && ReceivedBy(y, s) <= |Addressed(y.log, s)|
    ensures var y', command := Do(Sent(y, s, c, [msg]), Serve(s)), Parse(msg);
      && y'.chat == Handle(y.chat, s, command) && ClientOf(y', s) == c && UpOf(y', s) == []
      && Signals(DownOf(y', s)) == Signals(DownOf(y, s)) + Replies(command)
      && ReceivedBy(y', s) <= |Addressed(y'.log, s)|
  {
    var x := Sent(y, s, c, [msg]);
    assert UpOf(x, s) == [msg] && DownOf(x, s) == DownOf(y, s);
    DownAfterServe(x, s, s);
    hide Signals, Parse, Handle, Sends, DownOf;
  }

  /** A chat message behind an exit is served outside every room. */
  lemma ChatBreaks(y: System, s: Socket, text: Bytes) returns (steps: seq<Step>)
    requires Inv(y) && Waits(y, s) && ClientOf(y, s).chatReady
    ensures var y' := Do(y, Type(s, KeyTab(text))); AllPatient(y', steps) && !Consistent(Run(y', steps).chat)
  {
    var p := Press(ClientOf(y, s), KeyTab(text));
    KeysAreCommands(ClientOf(y, s), KeyTab(text));
    var y', msg := Do(y, Type(s, KeyTab(text))), p.sent[0];
    assert p.sent == [msg] && y' == Sent(y, s, p.client, [msg]);
    hide *;
    var before, z := ServeAll(y, s, p.client, msg);
    WaitsOutside(z, s);
    ServeLast(z, s, p.client, msg);
    HandleKeepsConsistent(z.chat, s, Say(text));
    SayIsLate(z.chat, s, text);
    var x := Sent(z, s, p.client, [msg]);
    OneStep(x, Serve(s));
    ServeIsPatient(x, s);
    steps := before + [Serve(s)];
    RunAppend(y', before, [Serve(s)]);
  }

  lemma SayIsLate(c: Chat, s: Socket, text: Bytes)
    requires s !in c.clientRooms
    ensures !Disciplined(c, s, Say(text))
  {
  }

  lemma ServeIsPatient(y: System, s: Socket)
    ensures Patient(y, Serve(s))
  {
  }

  // ----- a second exit -----

  /** s has nothing under way to the server, Escape is not pressed, and `down` is on its way to it. */
  ghost predicate Resting(y: System, s: Socket, joined: bool, down: seq<Signal>) {
    && UpOf(y, s) == [] && ClientOf(y, s).joinedRoom == joined && !ClientOf(y, s).escapePressed
    && ReceivedBy(y, s) <= |Addressed(y.log, s)| && Signals(DownOf(y, s)) == down
  }

  ghost function BehindLeft(down: seq<Signal>): seq<Signal>
    requires Left in down
  {
    if down[0].Left? then down[1..] else BehindLeft(down[1..])
  }

  /** The client receives what is under way up to the next $LEFT$, and is out of its room by its own account. */
  lemma {:induction false} DeliverToLeft(y: System, s: Socket) returns (steps: seq<Step>)
    requires UpOf(y, s) == [] && !ClientOf(y, s).escapePressed && ReceivedBy(y, s) <= |Addressed(y.log, s)|
    requires Left in Signals(DownOf(y, s))
    ensures var z := Run(y, steps);
      AllPatient(y, steps) && z.chat == y.chat && Resting(z, s, false, BehindLeft(Signals(DownOf(y, s))))
    decreases |DownOf(y, s)|
  {
    var y', text := Do(y, Deliver(s)), DownOf(y, s)[0];
    DeliverOne(y, s);
    SignalsNext(DownOf(y, s));
    OneStep(y, Deliver(s));
    var first := if IsReady(text) then [Ready] else if IsLeft(text) then [Left] else [];
    assert first != [] ==> Signals(DownOf(y, s))[0] == first[0] && Signals(DownOf(y, s))[1..] == Signals(DownOf(y', s));
    assert first == [] ==> Signals(DownOf(y, s)) == Signals(DownOf(y', s));
    hide Do, Signals, Addressed, DownOf, UpOf, ClientOf, IsReady, IsLeft, Patient;
    if first == [Left] {
      steps := [Deliver(s)];
    } else {
      var rest := DeliverToLeft(y', s);
      steps := [Deliver(s)] + rest;
      assert steps[1..] == rest;
    }
  }

  /** Escape and J, served: the client joins again. */
  lemma Rejoin(y: System, s: Socket, down: seq<Signal>) returns (steps: seq<Step>)
    requires Resting(y, s, false, down)
    ensures AllPatient(y, steps) && Run(y, steps).chat == Handle(y.chat, s, Join([]))
    ensures Resting(Run(y, steps), s, true, down + [Ready])
  {
    var c := ClientOf(y, s);
    var c1 := c.(escapePressed := true);
    var p := Press(c1, KeyJ([]));
    KeysAreCommands(c1, KeyJ([]));
    var y1, msg := Do(y, Type(s, Escape)), p.sent[0];
    assert UpOf(y, s) + [] == [] && ClientOf(y1, s) == c1 && UpOf(y1, s) == [] && DownOf(y1, s) == DownOf(y, s);
    var y2 := Do(y1, Type(s, KeyJ([])));
    assert p.sent == [msg] && y2 == Sent(y1, s, p.client, [msg]);
    ServeLast(y1, s, p.client, msg);
    var y3 := Do(y2, Serve(s));
    steps := [Type(s, Escape), Type(s, KeyJ([])), Serve(s)];
    assert Patient(y, steps[0]) && Patient(y1, steps[1]) && Patient(y2, steps[2]);
    assert y1.chat == y.chat && p.client.joinedRoom && !p.client.escapePressed;
    hide Handle, Signals, DownOf, Press, Parse, Sends, Patient, Ascii, Addressed, Do;
    ThreeSteps(y, steps[0], steps[1], steps[2]);
  }

  lemma ThreeSteps(y: System, a: Step, b: Step, c: Step)
    ensures var y1 := Do(y, a); var y2 := Do(y1, b);
      && Run(y, [a, b, c]) == Do(y2, c)
      && (AllPatient(y, [a, b, c]) <==> Patient(y, a) && Patient(y1, b) && Patient(y2, c))
  {
    hide Do, Patient;
    var y1 := Do(y, a);
    assert [a, b, c][1..] == [b, c] && [b, c][1..] == [c];
    assert Run(y, [a, b, c]) == Run(y1, [b, c]) && Run(y1, [b, c]) == Run(Do(y1, b), [c]);
    OneStep(Do(y1, b), c);
  }

  /** From two $LEFT$ under way, the client gets to join twice: the second one ends its next stay in
      its own eyes alone. */
  lemma JoinsTwice(y: System, s: Socket, down: seq<Signal>) returns (steps: seq<Step>)
    requires Consistent(y.chat) && s !in y.chat.clientRooms
    requires UpOf(y, s) == [] && !ClientOf(y, s).escapePressed && ReceivedBy(y, s) <= |Addressed(y.log, s)|
    requires Signals(DownOf(y, s)) == down && down in {[Left, Left], [Ready, Left, Left]}
    ensures AllPatient(y, steps) && !Consistent(Run(y, steps).chat)
  {
    hide *;
    LeftsBehind();
    var a := DeliverToLeft(y, s);
    var z := Run(y, a);
    var b := Rejoin(z, s, [Left]);
    RunAppend(y, a, b);
    var z' := Run(z, b);
    HandleKeepsConsistent(y.chat, s, Join([]));
    FirstJoin(y.chat, s);
    RestingParts(z', s, true, [Left] + [Ready]);
    var d := DeliverToLeft(z', s);
    RunAppend(y, a + b, d);
    var w := Run(z', d);
    var e := Rejoin(w, s, [Ready]);
    RunAppend(y, a + b + d, e);
    HandleKeepsConsistent(w.chat, s, Join([]));
    steps := a + b + d + e;
  }

  lemma LeftsBehind()
    ensures Left in [Left, Left] && Left in [Ready, Left, Left] && Left in [Left] + [Ready]
    ensures BehindLeft([Left, Left]) == [Left] && BehindLeft([Ready, Left, Left]) == [Left]
    ensures BehindLeft([Left] + [Ready]) == [Ready]
  {
    assert [Ready, Left, Left][1..] == [Left, Left] && [Left, Left][1..] == [Left];
    assert ([Left] + [Ready])[1..] == [Ready];
    assert [Left, Left][0] == Left && [Ready, Left, Left][1] == Left && ([Left] + [Ready])[0] == Left;
  }

  lemma FirstJoin(c: Chat, s: Socket)
    ensures Disciplined(c, s, Join([])) <==> s !in c.clientRooms
    ensures s in Handle(c, s, Join([])).clientRooms
    ensures !Disciplined(Handle(c, s, Join([])), s, Join([]))
  {
  }

  lemma RestingParts(y: System, s: Socket, joined: bool, down: seq<Signal>)
    requires Resting(y, s, joined, down)
    ensures UpOf(y, s) == [] && !ClientOf(y, s).escapePressed && ReceivedBy(y, s) <= |Addressed(y.log, s)|
    ensures Signals(DownOf(y, s)) == down
  {
  }

  /** A second exit is served without harm, but the client is told twice that it left. */
  lemma ExitBreaks(y: System, s: Socket) returns (steps: seq<Step>)
    requires Inv(y) && Waits(y, s) && Press(ClientOf(y, s), KeyE).sent != []
    ensures var y' := Do(y, Type(s, KeyE)); AllPatient(y', steps) && !Consistent(Run(y', steps).chat)
  {
    var p := Press(ClientOf(y, s), KeyE);
    KeysAreCommands(ClientOf(y, s), KeyE);
    var y', msg := Do(y, Type(s, KeyE)), p.sent[0];
    assert p.sent == [msg] && y' == Sent(y, s, p.client, [msg]) && !p.client.escapePressed;
    hide *;
    var before, z := ServeAll(y, s, p.client, msg);
    WaitsOutside(z, s);
    ServeLast(z, s, p.client, msg);
    HandleKeepsConsistent(z.chat, s, Exit);
    SecondExit(z.chat, s);
    var x := Sent(z, s, p.client, [msg]);
    OneStep(x, Serve(s));
    ServeIsPatient(x, s);
    RunAppend(y', before, [Serve(s)]);
    var w := Run(y', before + [Serve(s)]);
    var after := JoinsTwice(w, s, Signals(DownOf(w, s)));
    RunAppend(y', before + [Serve(s)], after);
    steps := before + [Serve(s)] + after;
  }

  lemma SecondExit(c: Chat, s: Socket)
    requires s !in c.clientRooms
    ensures Disciplined(c, s, Exit) && s !in Handle(c, s, Exit).clientRooms
    ensures Replies(Exit) == [Left] && [Left] + [Left] == [Left, Left] && [Ready, Left] + [Left] == [Ready, Left, Left]
  {
    hide Without;
  }

  /** Of everything that can happen in a state that patient users lead to, a step is harmless - no
      continuation by patient users breaks the agreement of rooms and notes - exactly when it is
      no chat and no second exit of a user who waits to be told of the first. */
  lemma {:induction false} HarmlessIffPatient(past: seq<Step>, step: Step)
    requires AllPatient(QUIET, past)
    ensures Harmless(Run(QUIET, past), step) <==> Patient(Run(QUIET, past), step)
  {
    assert Inv(QUIET);
    RunInv(QUIET, past);
    var y := Run(QUIET, past);
    hide Inv, Run, Waits, Do, AllPatient, Press, Consistent;
    if Patient(y, step) {
      StepInv(y, step);
      forall steps | AllPatient(Do(y, step), steps) ensures Consistent(Run(Do(y, step), steps).chat) {
        RunInv(Do(y, step), steps);
        InvConsistent(Run(Do(y, step), steps));
      }
    } else if step.key.KeyE? {
      var steps := ExitBreaks(y, step.s);
    } else {
      TabReady(ClientOf(y, step.s), step.key.text);
      var steps := ChatBreaks(y, step.s, step.key.text);
    }
  }

  lemma TabReady(c: Client, text: Bytes)
    ensures Press(c, KeyTab(text)).sent != [] <==> c.chatReady
  {
  }

  lemma InvConsistent(y: System)
    requires Inv(y)
    ensures Consistent(y.chat)
  {
  }
}
