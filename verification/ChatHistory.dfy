/** The state of the chat server after any run, read off the messages received: the names last given,
    the rooms last joined, and the order in which members joined. */
module ChatHistory {
  import opened Wire
  import opened ChatRooms

  function Init(events: seq<Event>): seq<Event>
    requires events != []
  {
    events[..|events| - 1]
  }

  function Last(events: seq<Event>): Event
    requires events != []
  {
    events[|events| - 1]
  }

  // ----- a run by its last message -----

  lemma {:induction false} AfterLast(c: Chat, events: seq<Event>)
    requires events != []
    ensures After(c, events) == Handle(After(c, Init(events)), Last(events).from, Last(events).command)
    ensures AllDisciplined(c, events) <==>
      && AllDisciplined(c, Init(events))
      && Disciplined(After(c, Init(events)), Last(events).from, Last(events).command)
    decreases |events|
  {
    var c' := Handle(c, events[0].from, events[0].command);
    hide Handle, Disciplined;
    if |events| == 1 {
      assert events[1..] == [] && Init(events) == [];
    } else {
      AfterLast(c', events[1..]);
      assert Init(events)[1..] == Init(events[1..]) && Init(events)[0] == events[0];
    }
  }

  // ----- names -----

  /** The name a client gave last. */
  ghost function LastName(events: seq<Event>, s: Socket): Bytes
    decreases |events|
  {
    if events == [] then []
    else if Last(events).from == s && Last(events).command.Name? then Last(events).command.name
    else LastName(Init(events), s)
  }

  /** In every run, with whatever messages, the server knows each client by the name it gave last. */
  lemma {:induction false} NamesAreLast(events: seq<Event>, s: Socket)
    ensures NameOf(After(OPENING, events), s) == LastName(events, s)
    decreases |events|
  {
    if events != [] {
      AfterLast(OPENING, events);
      NamesAreLast(Init(events), s);
      NameKept(After(OPENING, Init(events)), Last(events), s);
      hide Handle, NameOf;
    }
  }

  lemma NameKept(c: Chat, e: Event, s: Socket)
    ensures NameOf(Handle(c, e.from, e.command), s)
      == if e.from == s && e.command.Name? then e.command.name else NameOf(c, s)
  {
    hide Without;
  }

  // ----- rooms -----

  /** When a client last joined or left, or -1. */
  ghost function LastMove(events: seq<Event>, s: Socket): (i: int)
    ensures -1 <= i < |events|
    ensures i >= 0 ==> events[i].from == s && (events[i].command.Join? || events[i].command.Exit?)
    ensures forall k :: i < k < |events| && events[k].from == s ==>
      !events[k].command.Join? && !events[k].command.Exit?
    decreases |events|
  {
    if events == [] then -1
    else if Last(events).from == s && (Last(events).command.Join? || Last(events).command.Exit?) then |events| - 1
    else LastMove(Init(events), s)
  }

  ghost predicate JoinedLast(events: seq<Event>, s: Socket, room: Bytes) {
    LastMove(events, s) >= 0 && events[LastMove(events, s)].command == Join(room)
  }

  lemma RoomAfter(c: Chat, e: Event, s: Socket)
    requires Disciplined(c, e.from, e.command)
    ensures var c' := Handle(c, e.from, e.command);
      if e.from == s && e.command.Join? then s in c'.clientRooms && c'.clientRooms[s] == e.command.room
      else if e.from == s && e.command.Exit? then s !in c'.clientRooms
      else s in c'.clientRooms <==> s in c.clientRooms
    ensures var c' := Handle(c, e.from, e.command);
      s in c.clientRooms && s in c'.clientRooms && !(e.from == s && e.command.Join?) ==>
        c'.clientRooms[s] == c.clientRooms[s]
  {
    hide Without;
  }

  /** In every run that keeps to the rules a client is in the room it joined last, unless it left. */
  lemma {:induction false} RoomsAreLast(events: seq<Event>, s: Socket, room: Bytes)
    requires AllDisciplined(OPENING, events)
    ensures JoinedLast(events, s, room) <==>
      var c := After(OPENING, events); s in c.clientRooms && c.clientRooms[s] == room
    decreases |events|
  {
    if events != [] {
      AfterLast(OPENING, events);
      RoomsAreLast(Init(events), s, room);
      RoomAfter(After(OPENING, Init(events)), Last(events), s);
      hide Handle, Disciplined;
    }
  }

  /** ... and is listed as a member of that room alone. */
  lemma {:induction false} MembersJoinedLast(events: seq<Event>, s: Socket, room: Bytes)
    requires AllDisciplined(OPENING, events)
    ensures s in MembersOf(After(OPENING, events), room) <==> JoinedLast(events, s, room)
  {
    RoomsAreLast(events, s, room);
    EveryRunIsConsistent(events);
    hide JoinedLast, After, AllDisciplined;
  }

  // ----- the order of members -----

  ghost predicate Ordered(events: seq<Event>, clients: seq<Socket>) {
    forall i, j :: 0 <= i < j < |clients| ==> LastMove(events, clients[i]) < LastMove(events, clients[j])
  }

  lemma {:induction false} WithoutOrdered(events: seq<Event>, clients: seq<Socket>, s: Socket)
    requires Ordered(events, clients)
    ensures Ordered(events, Without(clients, s))
    decreases |clients|
  {
    if clients != [] {
      WithoutOrdered(events, clients[1..], s);
      forall x | x in Without(clients[1..], s) ensures LastMove(events, clients[0]) < LastMove(events, x) {
        var k :| 0 <= k < |clients[1..]| && clients[1..][k] == x;
        assert clients[k + 1] == x;
      }
    }
  }

  lemma {:induction false} WithoutMissing(clients: seq<Socket>, s: Socket)
    requires s !in clients
    ensures Without(clients, s) == clients
  {
    WithoutNothing(clients, s);
  }

  lemma MembersAfter(c: Chat, e: Event, room: Bytes)
    requires Consistent(c) && Disciplined(c, e.from, e.command)
    ensures MembersOf(Handle(c, e.from, e.command), room) ==
      match e.command
      case Join(r) => if r == room then MembersOf(c, room) + [e.from] else MembersOf(c, room)
      case Exit => Without(MembersOf(c, room), e.from)
      case _ => MembersOf(c, room)
  {
    if e.command.Exit? {
      ExitMembers(c, e.from);
      if room != RoomOf(c, e.from) {
        assert e.from !in MembersOf(c, room);
        WithoutMissing(MembersOf(c, room), e.from);
      }
    }
    hide Without;
  }

  lemma OrderedLater(events: seq<Event>, clients: seq<Socket>)
    requires events != [] && Ordered(Init(events), clients)
    requires Last(events).from !in clients || !(Last(events).command.Join? || Last(events).command.Exit?)
    ensures Ordered(events, clients)
  {
    forall i | 0 <= i < |clients| ensures LastMove(events, clients[i]) == LastMove(Init(events), clients[i]) {}
  }

  lemma OrderStep(events: seq<Event>, members: seq<Socket>, room: Bytes)
    requires events != [] && Ordered(Init(events), members)
    requires Last(events).command.Join? ==> Last(events).from !in members
    ensures Ordered(events, match Last(events).command
                            case Join(r) => if r == room then members + [Last(events).from] else members
                            case Exit => Without(members, Last(events).from)
                            case _ => members)
  {
    var e := Last(events);
    match e.command {
      case Join(r) =>
        OrderedLater(events, members);
        assert LastMove(events, e.from) == |events| - 1;
        forall x | x in members ensures LastMove(events, x) < |events| - 1 {}
      case Exit =>
        WithoutOrdered(Init(events), members, e.from);
        OrderedLater(events, Without(members, e.from));
      case _ => OrderedLater(events, members);
    }
    hide LastMove, Init;
  }

  lemma NotYetMember(c: Chat, e: Event, room: Bytes)
    requires Consistent(c) && Disciplined(c, e.from, e.command) && e.command.Join?
    ensures e.from !in MembersOf(c, room)
  {
  }

  /** Members are listed in the order in which they joined. */
  lemma {:induction false} MembersInOrder(events: seq<Event>, room: Bytes)
    requires AllDisciplined(OPENING, events)
    ensures Ordered(events, MembersOf(After(OPENING, events), room))
    decreases |events|
  {
    if events == [] {
      assert MembersOf(OPENING, room) == [];
    } else {
      var e, c := Last(events), After(OPENING, Init(events));
      AfterLast(OPENING, events);
      MembersInOrder(Init(events), room);
      EveryRunIsConsistent(Init(events));
      MembersAfter(c, e, room);
      if e.command.Join? { NotYetMember(c, e, room); }
      hide *;
      OrderStep(events, MembersOf(c, room), room);
    }
  }
}
