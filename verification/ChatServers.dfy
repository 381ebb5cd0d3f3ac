/** The server object: one shared buffer, the room maps, and what it sends. */
module ChatServers {
  import opened Sequences
  import opened Wire
  import opened ChatBuffer
  import opened ChatRooms

  /** One call of send: the first `packetSize` bytes of the buffer. */
  datatype Sent = Sent(to: Socket, bytes: Bytes)

  /** The receiver finds the text behind the header; four bytes more than that were sent. */
  ghost predicate Carries(sent: Sent, out: Outgoing) {
    && sent.to == out.to && |sent.bytes| == |out.text| + HEADER_FIELDS
    && sent.bytes[..|Frame(out.text)|] == Frame(out.text)
  }

  ghost predicate Delivers(sent: seq<Sent>, out: seq<Outgoing>) {
    |sent| == |out| && forall i :: 0 <= i < |sent| ==> Carries(sent[i], out[i])
  }

  /** Between the two logs exactly the texts of `out` were sent, in order. */
  ghost predicate LogGrew(before: seq<Sent>, after: seq<Sent>, out: seq<Outgoing>) {
    |before| <= |after| && after[..|before|] == before && Delivers(after[|before|..], out)
  }

  lemma LogGrewMore(l: seq<Sent>, l': seq<Sent>, l'': seq<Sent>, a: seq<Outgoing>, b: seq<Outgoing>)
    requires LogGrew(l, l', a) && LogGrew(l', l'', b)
    ensures LogGrew(l, l'', a + b)
  {
    assert l''[..|l'|] == l';
    assert l''[..|l|] == l'[..|l|];
    assert l''[|l|..] == l'[|l|..] + l''[|l'|..];
  }

  /** Every text fits the buffer ClearBuffer leaves, header and the four bytes included. */
  ghost predicate AllFit(out: seq<Outgoing>) {
    forall i :: 0 <= i < |out| ==> |out[i].text| + HEADER_FIELDS <= BUFFER_SIZE
  }

  /** A packet as a client sends it. */
  ghost predicate WellFormedPacket(packet: Bytes, msg: Bytes) {
    && |packet| == |msg| + HEADER_FIELDS <= BUFFER_SIZE
    && packet[..|Frame(msg)|] == Frame(msg)
  }

  /** Reading what was sent gives the text that was composed. */
  method Decode(sent: Bytes, ghost text: Bytes) returns (msg: Bytes)
    requires |text| < 0x1_0000 && |sent| == |text| + HEADER_FIELDS && sent[..|Frame(text)|] == Frame(text)
    ensures msg == text
  {
    var buffer := new Buffer(|sent|);
    buffer.Receive(sent);
    assert buffer.data == sent;
    var packetSize, messageType;
    packetSize, messageType, msg := buffer.ReadMessage(text);
  }

  /** The sockets a pass serves, in order, with what they ask for. */
  ghost function Turns(connections: seq<Socket>, ready: set<Socket>, texts: map<Socket, Bytes>): seq<Event> {
    if connections == [] then []
    else
      var s := connections[0];
      if s in ready && s in texts then [Event(s, Parse(texts[s]))] + Turns(connections[1..], ready - {s}, texts)
      else Turns(connections[1..], ready, texts)
  }

  ghost function AllSends(c: Chat, events: seq<Event>): seq<Outgoing>
    decreases |events|
  {
    if events == [] then []
    else
      Sends(c, events[0].from, events[0].command)
      + AllSends(Handle(c, events[0].from, events[0].command), events[1..])
  }

  ghost predicate RunFits(c: Chat, events: seq<Event>)
    decreases |events|
  {
    events == [] || (AllFit(Sends(c, events[0].from, events[0].command))
      && RunFits(Handle(c, events[0].from, events[0].command), events[1..]))
  }

  lemma TurnsNext(c: Chat, list: seq<Socket>, i: nat, ready: set<Socket>, texts: map<Socket, Bytes>)
    requires i < |list| && ready <= texts.Keys
    ensures var s, turns := list[i], Turns(list[i..], ready, texts);
      if s in ready then (
        var command, rest := Parse(texts[s]), Turns(list[i + 1..], ready - {s}, texts);
        && After(c, turns) == After(Handle(c, s, command), rest)
        && AllSends(c, turns) == Sends(c, s, command) + AllSends(Handle(c, s, command), rest)
        && (RunFits(c, turns) <==> AllFit(Sends(c, s, command)) && RunFits(Handle(c, s, command), rest)))
      else turns == Turns(list[i + 1..], ready, texts)
  {
    assert list[i..][1..] == list[i + 1..];
    if list[i] in ready {
      var rest := Turns(list[i + 1..], ready - {list[i]}, texts);
      var turns := [Event(list[i], Parse(texts[list[i]]))] + rest;
      hide Handle, Sends, AllFit, Parse;
      assert turns[1..] == rest;
    }
  }

  class Server {
    const buffer: Buffer
    var rooms: map<Bytes, seq<Socket>>
    var clientRooms: map<Socket, Bytes>
    var clientName: map<Socket, Bytes>
    var connections: seq<Socket>
    ghost var log: seq<Sent>

    function View(): Chat
      reads this
    {
      Chat(rooms, clientRooms, clientName)
    }

    /** Between messages the buffer is empty, both indices at its start. */
    ghost predicate Ready()
      reads this, buffer
    {
      |buffer.data| == BUFFER_SIZE && buffer.writeIndex == 0 && buffer.readIndex == 0
    }

    constructor ()
      ensures View() == OPENING && Ready() && log == [] && connections == [] && fresh(buffer)
    {
      buffer := new Buffer(BUFFER_SIZE);
      rooms, clientRooms, clientName, connections, log := map[], map[], map[], [], [];
    }

    method AddNewClientToList(connection: Socket)
      modifies this`connections
      ensures connections == old(connections) + [connection]
    {
      connections := connections + [connection];
    }

    method RemoveClientFromList(connection: Socket)
      modifies this`connections
      ensures connections == Without(old(connections), connection)
    {
      connections := Without(connections, connection);
    }

    /** Writes at the start of the buffer and sends as many bytes as the packet states. */
    method SendMessageToClient(text: Bytes, to: Socket)
      requires buffer.writeIndex == 0 && |text| + HEADER_FIELDS <= |buffer.data|
      modifies this`log, buffer`data, buffer`writeIndex
      ensures LogGrew(old(log), log, [Outgoing(to, text)]) && |buffer.data| == |old(buffer.data)|
    {
      var packetSize := buffer.WriteMessage(text);
      var sent := Sent(to, buffer.data[..packetSize]);
      assert sent.bytes[..|Frame(text)|] == Frame(text);
      assert (log + [sent])[|log|..] == [sent];
      log := log + [sent];
    }

    /** One turn of a sending loop: the buffer is cleared behind the message. */
    method SendAndClear(text: Bytes, to: Socket)
      requires buffer.writeIndex == 0 && |text| + HEADER_FIELDS <= |buffer.data|
      modifies this`log, buffer
      ensures Ready() && LogGrew(old(log), log, [Outgoing(to, text)])
    {
      SendMessageToClient(text, to);
      buffer.ClearBuffer();
    }

    /** The loop that tells everyone in the list but one. */
    method SendToOthers(clients: seq<Socket>, socket: Socket, fullMessage: Bytes)
      requires Ready() && AllFit(ToOthers(clients, socket, fullMessage))
      modifies this`log, buffer
      ensures Ready() && LogGrew(old(log), log, ToOthers(clients, socket, fullMessage))
    {
      ghost var out, done: seq<Outgoing> := ToOthers(clients, socket, fullMessage), [];
      assert clients[0..] == clients && done + out == out;
      for i := 0 to |clients|
        invariant Ready() && LogGrew(old(log), log, done) && done + ToOthers(clients[i..], socket, fullMessage) == out
      {
        ghost var rest := ToOthers(clients[i + 1..], socket, fullMessage);
        OthersNext(clients, i, socket, fullMessage);
        hide Delivers, ToOthers;
        if clients[i] != socket {
          ghost var l, one := log, [Outgoing(clients[i], fullMessage)];
          assert out == done + one + rest && out[|done|].text == fullMessage;
          SendAndClear(fullMessage, clients[i]);
          LogGrewMore(old(log), l, log, done, one);
          done := done + one;
        }
      }
      assert done + [] == done;
    }

    method SendToAll(clients: seq<Socket>, fullMessage: Bytes)
      requires Ready() && AllFit(ToAll(clients, fullMessage))
      modifies this`log, buffer
      ensures Ready() && LogGrew(old(log), log, ToAll(clients, fullMessage))
    {
      ghost var out := ToAll(clients, fullMessage);
      for i := 0 to |clients|
        invariant Ready() && LogGrew(old(log), log, out[..i])
      {
        ghost var l := log;
        hide Delivers;
        assert out[i] == Outgoing(clients[i], fullMessage) && out[..i + 1] == out[..i] + [out[i]];
        SendAndClear(fullMessage, clients[i]);
        LogGrewMore(old(log), l, log, out[..i], [out[i]]);
      }
      assert out[..|clients|] == out;
    }

    method BroadcastToAll(clientSocket: Socket, newClientJoined: bool, userRoom: Bytes)
      requires Ready() && AllFit(Broadcast(View(), clientSocket, newClientJoined, userRoom))
      modifies this`rooms, this`clientName, this`log, buffer
      ensures Ready() && View() == TouchRoom(TouchName(old(View()), clientSocket), userRoom)
      ensures LogGrew(old(log), log, Broadcast(old(View()), clientSocket, newClientJoined, userRoom))
    {
      var username, clients := NameOf(View(), clientSocket), MembersOf(View(), userRoom);
      clientName := clientName[clientSocket := username];
      rooms := rooms[userRoom := clients];
      hide JoinedText, LeftText, LogGrew, AllFit;
      if newClientJoined {
        SendToOthers(clients, clientSocket, JoinedText(username));
      } else {
        SendToAll(clients, LeftText(username));
      }
    }

    /** The loop of the chat case: the sender alone gets the YOU form. */
    method SendChat(clients: seq<Socket>, socket: Socket, username: Bytes, text: Bytes)
      requires |buffer.data| >= BUFFER_SIZE && buffer.writeIndex == 0
      requires AllFit(ChatTexts(clients, socket, username, text))
      modifies this`log, buffer
      ensures (|clients| > 0 ==> Ready()) && LogGrew(old(log), log, ChatTexts(clients, socket, username, text))
    {
      ghost var out := ChatTexts(clients, socket, username, text);
      for i := 0 to |clients|
        invariant |buffer.data| >= BUFFER_SIZE && buffer.writeIndex == 0 && (i > 0 ==> Ready())
        invariant LogGrew(old(log), log, out[..i])
      {
        ghost var l := log;
        var fullMessage := if clients[i] != socket then ReplyText(username, text) else OwnText(text);
        assert out[i] == Outgoing(clients[i], fullMessage) && out[..i + 1] == out[..i] + [out[i]];
        hide Delivers, ReplyText, OwnText;
        SendAndClear(fullMessage, clients[i]);
        LogGrewMore(old(log), l, log, out[..i], [out[i]]);
      }
      assert out[..|clients|] == out;
    }

    /** The client is put into the room, which is made if there is none of the name. */
    method EnterRoom(socket: Socket, roomName: Bytes)
      modifies this`rooms, this`clientRooms, this`clientName
      ensures View() == Joined(old(View()), socket, roomName)
    {
      if roomName !in rooms { rooms := rooms[roomName := []]; }
      rooms := rooms[roomName := rooms[roomName] + [socket]];
      clientRooms := clientRooms[socket := roomName];
      clientName := clientName[socket := NameOf(View(), socket)];
    }

    method HandleJoin(socket: Socket, roomName: Bytes)
      requires |buffer.data| >= BUFFER_SIZE && buffer.writeIndex == 0 && AllFit(Sends(View(), socket, Join(roomName)))
      modifies this`rooms, this`clientRooms, this`clientName, this`log, buffer
      ensures Ready() && View() == Handle(old(View()), socket, Join(roomName))
      ensures LogGrew(old(log), log, Sends(old(View()), socket, Join(roomName)))
    {
      ghost var c, l := View(), log;
      JoinSends(c, socket, roomName);
      hide AllFit, Sends;
      EnterRoom(socket, roomName);
      var username := NameOf(View(), socket);
      hide ReadyText, JoinedText, Delivers, ToOthers, AllFit, Broadcast;
      hide LogGrew, Sends, Joined, TouchRoom, TouchName, NameOf;
      SendMessageToClient(ReadyText(username, roomName), socket);
      buffer.ClearBuffer();
      ghost var l' := log;
      BroadcastToAll(socket, true, roomName);
      LogGrewMore(l, l', log, [Outgoing(socket, ReadyText(username, roomName))],
                  Broadcast(Joined(c, socket, roomName), socket, true, roomName));
    }

    method HandleChat(socket: Socket, text: Bytes)
      requires |buffer.data| >= BUFFER_SIZE && buffer.writeIndex == 0 && AllFit(Sends(View(), socket, Say(text)))
      modifies this`rooms, this`clientRooms, this`clientName, this`log, buffer
      ensures View() == Handle(old(View()), socket, Say(text))
      ensures LogGrew(old(log), log, Sends(old(View()), socket, Say(text)))
    {
      var username, userRoom := NameOf(View(), socket), RoomOf(View(), socket);
      var clients := MembersOf(View(), userRoom);
      clientName := clientName[socket := username];
      clientRooms := clientRooms[socket := userRoom];
      rooms := rooms[userRoom := clients];
      assert View() == Said(old(View()), socket);
      hide LogGrew, AllFit, ChatTexts;
      SendChat(clients, socket, username, text);
    }

    method HandleExit(socket: Socket)
      requires |buffer.data| >= BUFFER_SIZE && buffer.writeIndex == 0 && AllFit(Sends(View(), socket, Exit))
      modifies this`rooms, this`clientRooms, this`clientName, this`log, buffer
      ensures Ready() && View() == Handle(old(View()), socket, Exit)
      ensures LogGrew(old(log), log, Sends(old(View()), socket, Exit))
    {
      ghost var c, l := View(), log;
      ExitSends(c, socket);
      hide AllFit, Sends;
      var roomName := RoomOf(View(), socket);
      var username := NameOf(View(), socket);
      rooms := rooms[roomName := Without(MembersOf(View(), roomName), socket)];
      clientRooms := clientRooms - {socket};
      clientName := clientName[socket := username];
      assert View() == Exited(c, socket);
      hide Ascii, LeftText, Delivers, AllFit, Broadcast, LogGrew, Sends, Exited, TouchRoom, TouchName, NameOf;
      SendMessageToClient(Ascii("$LEFT$"), socket);
      buffer.ClearBuffer();
      ghost var l' := log;
      BroadcastToAll(socket, false, roomName);
      LogGrewMore(l, l', log, [Outgoing(socket, Ascii("$LEFT$"))],
                  Broadcast(Exited(c, socket), socket, false, roomName));
    }

    /** One ready socket: receive, take the packet apart, act on the text, clear the buffer. The
        buffer is doubled when the packet already fits it. */
    method HandleSocket(socket: Socket, packet: Bytes, ghost text: Bytes)
      requires Ready() && WellFormedPacket(packet, text) && AllFit(Sends(View(), socket, Parse(text)))
      modifies this`rooms, this`clientRooms, this`clientName, this`log, buffer
      ensures Ready() && View() == Handle(old(View()), socket, Parse(text))
      ensures LogGrew(old(log), log, Sends(old(View()), socket, Parse(text)))
    {
      var msg := ReceiveText(socket, packet, text);
      hide LogGrew, Delivers, AllFit, Handle, Sends, Ascii;
      match Parse(msg) {
        case Name(name) => SetName(socket, name);
        case Join(roomName) => HandleJoin(socket, roomName);
        case Say(said) => HandleChat(socket, said);
        case Exit => HandleExit(socket);
        case Other => NothingSent(View(), socket, log);
      }
      buffer.ClearBuffer();
    }

    method SetName(socket: Socket, name: Bytes)
      modifies this`clientName
      ensures View() == Handle(old(View()), socket, Name(name))
      ensures LogGrew(log, log, Sends(old(View()), socket, Name(name)))
    {
      clientName := clientName[socket := name];
    }

    method ReceiveText(socket: Socket, packet: Bytes, ghost text: Bytes) returns (msg: Bytes)
      requires Ready() && WellFormedPacket(packet, text)
      modifies buffer
      ensures msg == text && |buffer.data| >= BUFFER_SIZE && buffer.writeIndex == 0
    {
      buffer.Receive(packet);
      FrameParts(text);
      PacketInFront(buffer.data, packet, Frame(text));
      PrefixParts(buffer.data, Frame(text));
      hide OfU16, OfU32, Frame, Overwritten;
      assert |buffer.data| >= |Frame(text)| == HEADER_BYTES + |text| by { FrameSize(text); }
      var packetSize := buffer.ReadUInt32BE();
      var messageType := buffer.ReadUInt16BE();
      ghost var received := buffer.data;
      if |buffer.data| >= packetSize { buffer.Grow(BUFFER_SIZE * 2); }
      PrefixKept(buffer.data, received, Frame(text));
      PrefixParts(buffer.data, Frame(text));
      msg := [];
      if messageType == 1 {
        var messageLength := buffer.ReadUInt16BE();
        assert messageLength == |text| && buffer.readIndex == HEADER_BYTES;
        msg := buffer.ReadString(messageLength);
      }
    }

    /** One pass over the connected sockets: each one that has a packet waiting is served once. */
    method LoopThroughClientList(packets: map<Socket, Bytes>, ghost texts: map<Socket, Bytes>)
      requires Ready() && packets.Keys == texts.Keys
      requires forall s :: s in packets ==> WellFormedPacket(packets[s], texts[s])
      requires RunFits(View(), Turns(connections, packets.Keys, texts))
      modifies this`rooms, this`clientRooms, this`clientName, this`log, buffer
      ensures Ready() && View() == After(old(View()), Turns(connections, packets.Keys, texts))
      ensures LogGrew(old(log), log, AllSends(old(View()), Turns(connections, packets.Keys, texts)))
    {
      ghost var c, l, events, done: seq<Outgoing> := View(), log, Turns(connections, packets.Keys, texts), [];
      var ready, list := packets.Keys, connections;
      assert list[0..] == list && done + AllSends(c, events) == AllSends(c, events);
      for i := 0 to |list|
        invariant Ready() && ready <= packets.Keys && LogGrew(l, log, done)
        invariant RunFits(View(), Turns(list[i..], ready, texts))
        invariant After(View(), Turns(list[i..], ready, texts)) == After(c, events)
        invariant done + AllSends(View(), Turns(list[i..], ready, texts)) == AllSends(c, events)
      {
        var socket := list[i];
        TurnsNext(View(), list, i, ready, texts);
        hide Delivers, LogGrew, AllFit, Handle, Sends, Parse, RunFits, AllSends, After, Turns;
        if socket in ready {
          ghost var before, l', text := View(), log, texts[socket];
          HandleSocket(socket, packets[socket], text);
          LogGrewMore(l, l', log, done, Sends(before, socket, Parse(text)));
          AppendAssociates(done, Sends(before, socket, Parse(text)),
                           AllSends(View(), Turns(list[i + 1..], ready - {socket}, texts)));
          done := done + Sends(before, socket, Parse(text));
          ready := ready - {socket};
        }
      }
      assert Turns(list[|list|..], ready, texts) == [];
      assert done + [] == done;
    }
  }

  lemma NothingSent(c: Chat, s: Socket, log: seq<Sent>)
    ensures Handle(c, s, Other) == c && LogGrew(log, log, Sends(c, s, Other))
  {
  }

  lemma PrefixKept(d: Bytes, before: Bytes, frame: Bytes)
    requires |frame| <= |before| <= |d| && d[..|before|] == before && before[..|frame|] == frame
    ensures d[..|frame|] == frame
  {
    assert d[..|frame|] == d[..|before|][..|frame|];
  }

  lemma PacketInFront(d: Bytes, packet: Bytes, frame: Bytes)
    requires |frame| <= |packet| <= |d| && packet[..|frame|] == frame && d == Overwritten(d, 0, packet)
    ensures d[..|frame|] == frame
  {
    assert d[..|packet|] == packet;
    assert d[..|frame|] == d[..|packet|][..|frame|];
  }

  lemma ExitSends(c: Chat, s: Socket)
    ensures var c', room := Exited(c, s), RoomOf(c, s);
      && TouchRoom(TouchName(c', s), room) == c'
      && Sends(c, s, Exit) == [Outgoing(s, Ascii("$LEFT$"))] + Broadcast(c', s, false, room)
    ensures AllFit(Sends(c, s, Exit)) ==>
      |Ascii("$LEFT$")| + HEADER_FIELDS <= BUFFER_SIZE && AllFit(Broadcast(Exited(c, s), s, false, RoomOf(c, s)))
  {
    var out, rest := Sends(c, s, Exit), Broadcast(Exited(c, s), s, false, RoomOf(c, s));
    assert out[0] == Outgoing(s, Ascii("$LEFT$"));
    forall i | 0 <= i < |rest| ensures rest[i] == out[i + 1] {}
  }

  lemma OthersNext(clients: seq<Socket>, i: nat, socket: Socket, text: Bytes)
    requires i < |clients|
    ensures ToOthers(clients[i..], socket, text)
      == (if clients[i] != socket then [Outgoing(clients[i], text)] else []) + ToOthers(clients[i + 1..], socket, text)
    ensures ToOthers(clients[|clients|..], socket, text) == []
    ensures clients[i] == socket ==> ToOthers(clients[i..], socket, text) == ToOthers(clients[i + 1..], socket, text)
  {
    assert clients[i..][1..] == clients[i + 1..];
  }

  lemma JoinSends(c: Chat, s: Socket, room: Bytes)
    ensures var c' := Joined(c, s, room);
      && TouchRoom(TouchName(c', s), room) == c' && NameOf(c', s) == NameOf(c, s)
      && Sends(c, s, Join(room)) == [Outgoing(s, ReadyText(NameOf(c, s), room))] + Broadcast(c', s, true, room)
    ensures AllFit(Sends(c, s, Join(room))) ==>
      && |ReadyText(NameOf(c, s), room)| + HEADER_FIELDS <= BUFFER_SIZE
      && AllFit(Broadcast(Joined(c, s, room), s, true, room))
  {
    var out, rest := Sends(c, s, Join(room)), Broadcast(Joined(c, s, room), s, true, room);
    assert out[0] == Outgoing(s, ReadyText(NameOf(c, s), room));
    forall i | 0 <= i < |rest| ensures rest[i] == out[i + 1] {}
  }

  /** The texts BroadcastToAll sends. */
  function Broadcast(c: Chat, s: Socket, joined: bool, room: Bytes): seq<Outgoing> {
    if joined then ToOthers(MembersOf(c, room), s, JoinedText(NameOf(c, s)))
    else ToAll(MembersOf(c, room), LeftText(NameOf(c, s)))
  }
}
