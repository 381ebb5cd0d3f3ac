/** What the chat server does with each message: rooms, names and the texts it sends. */
module ChatRooms {
  import opened Wire

  type Socket = nat

  /** rooms[r] lists the sockets in room r; the C++ maps insert an empty value when asked for a
      missing key with []. */
  datatype Chat = Chat(rooms: map<Bytes, seq<Socket>>, clientRooms: map<Socket, Bytes>, clientName: map<Socket, Bytes>)

  datatype Outgoing = Outgoing(to: Socket, text: Bytes)

  function Ascii(s: string): Bytes {
    seq(|s|, i requires 0 <= i < |s| => s[i] as int % 256)
  }

  datatype Command = Name(name: Bytes) | Join(room: Bytes) | Say(text: Bytes) | Exit | Other

  /** The first six characters decide. */
  function Parse(msg: Bytes): Command {
    if |msg| < 6 then Other
    else if msg[..6] == Ascii("$NAME$") then Name(msg[6..])
    else if msg[..6] == Ascii("$JOIN$") then Join(msg[6..])
    else if msg[..6] == Ascii("$CHAT$") then Say(msg[6..])
    else if msg[..6] == Ascii("$EXIT$") then Exit
    else Other
  }

  function NameOf(c: Chat, s: Socket): Bytes { if s in c.clientName then c.clientName[s] else [] }
  function RoomOf(c: Chat, s: Socket): Bytes { if s in c.clientRooms then c.clientRooms[s] else [] }
  function MembersOf(c: Chat, room: Bytes): seq<Socket> { if room in c.rooms then c.rooms[room] else [] }

  /** The effect of reading clientName[s], clientRooms[s] or rooms[room] with []. */
  function TouchName(c: Chat, s: Socket): Chat { c.(clientName := c.clientName[s := NameOf(c, s)]) }
  function TouchRoom(c: Chat, room: Bytes): Chat { c.(rooms := c.rooms[room := MembersOf(c, room)]) }

  /** std::remove followed by erase. */
  function Without(clients: seq<Socket>, s: Socket): (r: seq<Socket>)
    ensures s !in r && forall x :: x in r <==> x in clients && x != s
  {
    if clients == [] then []
    else if clients[0] == s then Without(clients[1..], s)
    else [clients[0]] + Without(clients[1..], s)
  }

  // ----- the texts -----

  function ReadyText(name: Bytes, room: Bytes): Bytes {
    Ascii("$READY$[") + name + Ascii("] IS ADDED TO THE ROOM (") + room + Ascii(")")
  }

  function JoinedText(name: Bytes): Bytes { Ascii("$REPLY$**[") + name + Ascii("] HAS JOINED THE ROOM**") }
  function LeftText(name: Bytes): Bytes { Ascii("$REPLY$**[") + name + Ascii("] HAS LEFT THE ROOM**") }
  function ReplyText(name: Bytes, text: Bytes): Bytes { Ascii("$REPLY$") + name + Ascii(" : ") + text }
  function OwnText(text: Bytes): Bytes { Ascii("YOU : ") + text }

  function ToOthers(clients: seq<Socket>, s: Socket, text: Bytes): seq<Outgoing> {
    if clients == [] then []
    else (if clients[0] != s then [Outgoing(clients[0], text)] else []) + ToOthers(clients[1..], s, text)
  }

  function ToAll(clients: seq<Socket>, text: Bytes): seq<Outgoing> {
    seq(|clients|, i requires 0 <= i < |clients| => Outgoing(clients[i], text))
  }

  function ChatTexts(clients: seq<Socket>, s: Socket, name: Bytes, text: Bytes): seq<Outgoing> {
    seq(|clients|, i requires 0 <= i < |clients| =>
      Outgoing(clients[i], if clients[i] != s then ReplyText(name, text) else OwnText(text)))
  }

  // ----- one message -----

  function Joined(c: Chat, s: Socket, room: Bytes): Chat {
    var c1 := c.(rooms := c.rooms[room := MembersOf(c, room) + [s]], clientRooms := c.clientRooms[s := room]);
    TouchName(c1, s)
  }

  function Said(c: Chat, s: Socket): Chat {
    var c1 := TouchName(c, s);
    var c2 := c1.(clientRooms := c1.clientRooms[s := RoomOf(c1, s)]);
    TouchRoom(c2, RoomOf(c1, s))
  }

  function Exited(c: Chat, s: Socket): Chat {
    var room := RoomOf(c, s);
    TouchName(c.(rooms := c.rooms[room := Without(MembersOf(c, room), s)], clientRooms := c.clientRooms - {s}), s)
  }

  function Handle(c: Chat, s: Socket, command: Command): Chat {
    match command
    case Name(name) => c.(clientName := c.clientName[s := name])
    case Join(room) => Joined(c, s, room)
    case Say(text) => Said(c, s)
    case Exit => Exited(c, s)
    case Other => c
  }

  function Sends(c: Chat, s: Socket, command: Command): seq<Outgoing> {
    match command
    case Name(name) => []
    case Join(room) =>
      [Outgoing(s, ReadyText(NameOf(c, s), room))] + ToOthers(MembersOf(c, room) + [s], s, JoinedText(NameOf(c, s)))
    case Say(text) => ChatTexts(MembersOf(c, RoomOf(c, s)), s, NameOf(c, s), text)
    case Exit =>
      [Outgoing(s, Ascii("$LEFT$"))] + ToAll(Without(MembersOf(c, RoomOf(c, s)), s), LeftText(NameOf(c, s)))
    case Other => []
  }

  // ----- rooms and members agree -----

  ghost predicate NoDuplicates(clients: seq<Socket>) {
    forall i, j :: 0 <= i < j < |clients| ==> clients[i] != clients[j]
  }

  /** clientRooms maps s to r exactly when s is in room r, where it occurs once. */
  ghost predicate Consistent(c: Chat) {
    && (forall s, r :: (s in c.clientRooms && c.clientRooms[s] == r) <==> s in MembersOf(c, r))
    && (forall r :: r in c.rooms ==> NoDuplicates(c.rooms[r]))
  }

  /** What the server relies on: no second join, no chat outside a room. ChatSystem says when the
      client program keeps to it. */
  predicate Disciplined(c: Chat, s: Socket, command: Command) {
    match command
    case Join(_) => s !in c.clientRooms
    case Say(_) => s in c.clientRooms
    case _ => true
  }

  lemma {:induction false} WithoutKeepsDistinct(clients: seq<Socket>, s: Socket)
    requires NoDuplicates(clients)
    ensures NoDuplicates(Without(clients, s))
    decreases |clients|
  {
    if clients != [] {
      WithoutKeepsDistinct(clients[1..], s);
      assert clients[0] !in Without(clients[1..], s);
    }
  }

  lemma JoinKeeps(c: Chat, s: Socket, room: Bytes)
    requires Consistent(c)
    ensures Consistent(Joined(c, s, room)) <==> s !in c.clientRooms
  {
    var c', before, members := Joined(c, s, room), MembersOf(c, room), MembersOf(c, room) + [s];
    assert MembersOf(c', room) == members && s in members;
    if s in c.clientRooms {
      var r := c.clientRooms[s];
      assert s in MembersOf(c, r);
      if r == room {
        var i :| 0 <= i < |before| && before[i] == s;
        assert members[i] == members[|before|];
        assert !NoDuplicates(c'.rooms[room]);
      } else {
        assert s in MembersOf(c', r) && c'.clientRooms[s] != r;
      }
    } else {
      assert s !in before;
      assert NoDuplicates(members);
      forall x, r ensures (x in c'.clientRooms && c'.clientRooms[x] == r) <==> x in MembersOf(c', r) {
        assert (x in c.clientRooms && c.clientRooms[x] == r) <==> x in MembersOf(c, r);
      }
    }
  }

  lemma SayKeeps(c: Chat, s: Socket)
    requires Consistent(c)
    ensures Consistent(Said(c, s)) <==> s in c.clientRooms
  {
    var c' := Said(c, s);
    forall r ensures MembersOf(c', r) == MembersOf(c, r) {}
    if s in c.clientRooms {
      assert c'.clientRooms == c.clientRooms;
      forall x, r ensures (x in c'.clientRooms && c'.clientRooms[x] == r) <==> x in MembersOf(c', r) {
        assert (x in c.clientRooms && c.clientRooms[x] == r) <==> x in MembersOf(c, r);
      }
    } else {
      assert s in c'.clientRooms && c'.clientRooms[s] == [];
      assert s !in MembersOf(c, []);
    }
  }

  lemma ExitMembers(c: Chat, s: Socket)
    ensures Exited(c, s).clientRooms == c.clientRooms - {s}
    ensures forall r ::
      MembersOf(Exited(c, s), r) == if r == RoomOf(c, s) then Without(MembersOf(c, r), s) else MembersOf(c, r)
  {
    hide Without, NameOf;
  }

  lemma ExitAgrees(c: Chat, s: Socket, x: Socket, r: Bytes)
    requires forall y, q :: (y in c.clientRooms && c.clientRooms[y] == q) <==> y in MembersOf(c, q)
    ensures var c' := Exited(c, s); (x in c'.clientRooms && c'.clientRooms[x] == r) <==> x in MembersOf(c', r)
  {
    ExitMembers(c, s);
    hide Exited, MembersOf;
    assert (x in c.clientRooms && c.clientRooms[x] == r) <==> x in MembersOf(c, r);
  }

  lemma ExitDistinct(c: Chat, s: Socket)
    requires forall r :: r in c.rooms ==> NoDuplicates(c.rooms[r])
    ensures forall r :: r in Exited(c, s).rooms ==> NoDuplicates(Exited(c, s).rooms[r])
  {
    assert NoDuplicates([]);
    WithoutKeepsDistinct(MembersOf(c, RoomOf(c, s)), s);
    hide NoDuplicates, Without;
  }

  lemma ExitKeeps(c: Chat, s: Socket)
    requires Consistent(c)
    ensures Consistent(Exited(c, s))
  {
    ExitDistinct(c, s);
    hide Exited, MembersOf, NoDuplicates;
    forall x, r { ExitAgrees(c, s, x, r); }
  }

  /** From agreement a message leads to agreement exactly when its sender keeps to the rules. An
      exit is harmless even outside a room. */
  lemma {:induction false} HandleKeepsConsistent(c: Chat, s: Socket, command: Command)
    requires Consistent(c)
    ensures Consistent(Handle(c, s, command)) <==> Disciplined(c, s, command)
  {
    match command {
      case Join(room) => JoinKeeps(c, s, room);
      case Say(_) => SayKeeps(c, s);
      case Exit => ExitKeeps(c, s);
      case Name(name) =>
        var c' := Handle(c, s, command);
        forall r ensures MembersOf(c', r) == MembersOf(c, r) {}
      case Other =>
    }
    hide Joined, Said, Exited, Consistent;
  }

  datatype Event = Event(from: Socket, command: Command)

  function After(c: Chat, events: seq<Event>): Chat
    decreases |events|
  {
    if events == [] then c else After(Handle(c, events[0].from, events[0].command), events[1..])
  }

  ghost predicate AllDisciplined(c: Chat, events: seq<Event>)
    decreases |events|
  {
    events == [] || (Disciplined(c, events[0].from, events[0].command)
      && AllDisciplined(Handle(c, events[0].from, events[0].command), events[1..]))
  }

  const OPENING := Chat(map[], map[], map[])

  lemma {:induction false} AfterIsConsistent(c: Chat, events: seq<Event>)
    requires Consistent(c) && AllDisciplined(c, events)
    ensures Consistent(After(c, events))
    decreases |events|
  {
    if events != [] {
      HandleKeepsConsistent(c, events[0].from, events[0].command);
      hide Consistent, Handle;
      AfterIsConsistent(Handle(c, events[0].from, events[0].command), events[1..]);
    }
  }

  /** Over every run that keeps to the rules, from the first message on. */
  lemma {:induction false} EveryRunIsConsistent(events: seq<Event>)
    requires AllDisciplined(OPENING, events)
    ensures Consistent(After(OPENING, events))
  {
    AfterIsConsistent(OPENING, events);
  }

  // ----- who hears what -----

  function Recipients(outgoing: seq<Outgoing>): seq<Socket> {
    seq(|outgoing|, i requires 0 <= i < |outgoing| => outgoing[i].to)
  }

  lemma {:induction false} ToOthersIsWithout(clients: seq<Socket>, s: Socket, text: Bytes)
    ensures ToOthers(clients, s, text) == ToAll(Without(clients, s), text)
    decreases |clients|
  {
    if clients != [] {
      ToOthersIsWithout(clients[1..], s, text);
      var others := Without(clients[1..], s);
      assert ToAll([clients[0]] + others, text) == [Outgoing(clients[0], text)] + ToAll(others, text) by {
        hide Without;
      }
      hide ToAll;
    }
  }

  lemma {:induction false} WithoutNothing(clients: seq<Socket>, s: Socket)
    requires s !in clients
    ensures Without(clients, s) == clients && Without(clients + [s], s) == clients
    decreases |clients|
  {
    if clients == [] {
      assert clients + [s] == [s] && [s][1..] == [];
    } else {
      assert (clients + [s])[1..] == clients[1..] + [s];
      WithoutNothing(clients[1..], s);
    }
  }

  /** A chat text goes once to each member of the sender's room, in order, and to nobody else; the
      sender alone gets the YOU form. */
  lemma {:induction false} ChatReachesTheRoom(c: Chat, s: Socket, text: Bytes)
    requires Consistent(c) && s in c.clientRooms
    ensures var members, out := MembersOf(c, c.clientRooms[s]), Sends(c, s, Say(text));
      && Recipients(out) == members && NoDuplicates(members) && s in members
      && forall i :: 0 <= i < |out| ==>
           out[i].text == if out[i].to == s then OwnText(text) else ReplyText(NameOf(c, s), text)
  {
    var r := c.clientRooms[s];
    assert s in MembersOf(c, r);
  }

  /** Joining is confirmed to the newcomer and told once to each of those already there. */
  lemma {:induction false} JoinTellsTheOthers(c: Chat, s: Socket, room: Bytes)
    requires Consistent(c) && s !in c.clientRooms
    ensures var out, others := Sends(c, s, Join(room)), MembersOf(c, room);
      && out == [Outgoing(s, ReadyText(NameOf(c, s), room))] + ToAll(others, JoinedText(NameOf(c, s)))
      && Recipients(out) == [s] + others && NoDuplicates(Recipients(out))
  {
    var others := MembersOf(c, room);
    assert s !in others;
    WithoutNothing(others, s);
    ToOthersIsWithout(others + [s], s, JoinedText(NameOf(c, s)));
    var out := Sends(c, s, Join(room));
    assert Recipients(out) == [s] + others;
    assert NoDuplicates(others);
  }

  /** Leaving is confirmed to the one who leaves and told once to each of those who stay. */
  lemma {:induction false} ExitTellsTheOthers(c: Chat, s: Socket)
    requires Consistent(c) && s in c.clientRooms
    ensures var out, stay := Sends(c, s, Exit), MembersOf(Handle(c, s, Exit), c.clientRooms[s]);
      && out == [Outgoing(s, Ascii("$LEFT$"))] + ToAll(stay, LeftText(NameOf(c, s)))
      && Recipients(out) == [s] + stay && NoDuplicates(Recipients(out))
      && forall x :: x in stay <==> x in MembersOf(c, c.clientRooms[s]) && x != s
  {
    var r := c.clientRooms[s];
    var stay := Without(MembersOf(c, r), s);
    WithoutKeepsDistinct(MembersOf(c, r), s);
    assert MembersOf(Handle(c, s, Exit), r) == stay;
    assert Recipients(Sends(c, s, Exit)) == [s] + stay;
  }
}
