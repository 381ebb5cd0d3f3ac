/** The client program: the keys it turns into messages, and what it makes of the server's texts. */
module ChatClients {
  import opened Wire
  import opened ChatRooms

  /** A key together with the line typed behind it. */
  datatype Key = Escape | KeyJ(room: Bytes) | KeyTab(text: Bytes) | KeyE

  datatype Client = Client(joinedRoom: bool, chatReady: bool, escapePressed: bool)
  const STARTED := Client(false, false, false)

  /** The client after a key, and the messages that go out: one or none. */
  datatype Pressed = Pressed(client: Client, sent: seq<Bytes>)

  function Press(c: Client, key: Key): (p: Pressed)
    ensures |p.sent| <= 1
  {
    match key
    case Escape => Pressed(c.(escapePressed := !c.escapePressed), [])
    case KeyJ(room) =>
      if !c.joinedRoom && c.escapePressed then
        Pressed(c.(escapePressed := false, joinedRoom := true), [Ascii("$JOIN$") + room])
      else Pressed(c, [])
    case KeyTab(text) => if c.chatReady then Pressed(c, [Ascii("$CHAT$") + text]) else Pressed(c, [])
    case KeyE =>
      if c.joinedRoom && c.escapePressed then Pressed(c.(escapePressed := false), [Ascii("$EXIT$")])
      else Pressed(c, [])
  }

  function FirstSeven(msg: Bytes): Bytes { if |msg| < 7 then msg else msg[..7] }

  predicate IsReady(msg: Bytes) { FirstSeven(msg) == Ascii("$READY$") }
  predicate IsLeft(msg: Bytes) { msg == Ascii("$LEFT$") }
  predicate IsReply(msg: Bytes) { FirstSeven(msg) == Ascii("$REPLY$") }

  function Received(c: Client, msg: Bytes): Client {
    if IsReady(msg) then c.(chatReady := true)
    else if IsLeft(msg) then c.(joinedRoom := false, chatReady := false)
    else c
  }

  /** The line printed for a message; leaving prints a fixed one. */
  function Shown(msg: Bytes): Bytes {
    if IsReady(msg) then msg[7..]
    else if IsLeft(msg) then Ascii("**YOU HAVE LEFT THE ROOM**")
    else if IsReply(msg) then msg[7..]
    else msg
  }

  class UserInterface {
    var joinedRoom: bool
    var chatReady: bool
    var escapePressed: bool

    function View(): Client
      reads this
    {
      Client(joinedRoom, chatReady, escapePressed)
    }

    constructor ()
      ensures View() == STARTED
    {
      joinedRoom, chatReady, escapePressed := false, false, false;
    }

    method CheckUserInput(key: Key) returns (sent: seq<Bytes>)
      modifies this
      ensures Pressed(View(), sent) == Press(old(View()), key)
    {
      sent := [];
      if key.Escape? {
        if !escapePressed { escapePressed := true; } else { escapePressed := false; }
      } else if !joinedRoom && escapePressed && key.KeyJ? {
        escapePressed := false;
        sent := [Ascii("$JOIN$") + key.room];
        joinedRoom := true;
      } else if chatReady && key.KeyTab? {
        sent := [Ascii("$CHAT$") + key.text];
      } else if joinedRoom && escapePressed && key.KeyE? {
        escapePressed := false;
        sent := [Ascii("$EXIT$")];
      }
    }

    method PrintReceivedMessage(msg: Bytes) returns (shown: Bytes)
      modifies this
      ensures View() == Received(old(View()), msg) && shown == Shown(msg)
    {
      var tempString := FirstSeven(msg);
      if tempString == Ascii("$READY$") {
        chatReady := true;
        shown := msg[7..];
      } else if msg == Ascii("$LEFT$") {
        joinedRoom := false;
        chatReady := false;
        shown := Ascii("**YOU HAVE LEFT THE ROOM**");
      } else if tempString == Ascii("$REPLY$") {
        shown := msg[7..];
      } else {
        shown := msg;
      }
    }
  }

  // ----- the six and seven characters in front -----

  /** The commands as bytes. */
  lemma CommandBytes()
    ensures Ascii("$NAME$") == [36, 78, 65, 77, 69, 36] && Ascii("$JOIN$") == [36, 74, 79, 73, 78, 36]
    ensures Ascii("$CHAT$") == [36, 67, 72, 65, 84, 36] && Ascii("$EXIT$") == [36, 69, 88, 73, 84, 36]
  {
  }

  lemma ReplyBytes()
    ensures Ascii("$READY$") == [36, 82, 69, 65, 68, 89, 36] && Ascii("$REPLY$") == [36, 82, 69, 80, 76, 89, 36]
    ensures Ascii("$LEFT$") == [36, 76, 69, 70, 84, 36]
  {
  }

  lemma Six(front: Bytes, rest: Bytes)
    requires |front| == 6
    ensures |front + rest| >= 6 && (front + rest)[..6] == front && (front + rest)[6..] == rest
  {
  }

  /** What the server makes of each message a client composes, and of everything else. */
  lemma {:induction false} ServerUnderstands(rest: Bytes)
    ensures Parse([36, 78, 65, 77, 69, 36] + rest) == Name(rest)
    ensures Parse([36, 74, 79, 73, 78, 36] + rest) == Join(rest)
    ensures Parse([36, 67, 72, 65, 84, 36] + rest) == Say(rest)
    ensures Parse([36, 69, 88, 73, 84, 36] + rest) == Exit
  {
    CommandBytes();
    Six(Ascii("$NAME$"), rest);
    Six(Ascii("$JOIN$"), rest);
    Six(Ascii("$CHAT$"), rest);
    Six(Ascii("$EXIT$"), rest);
    hide Ascii;
  }

  lemma {:induction false} OthersIgnored(msg: Bytes)
    requires |msg| < 6 || msg[..6] !in {[36, 78, 65, 77, 69, 36], [36, 74, 79, 73, 78, 36],
                                        [36, 67, 72, 65, 84, 36], [36, 69, 88, 73, 84, 36]}
    ensures Parse(msg) == Other
  {
    CommandBytes();
    hide Ascii;
  }

  /** A key that sends something sends the command it stands for. */
  lemma {:induction false} KeysAreCommands(c: Client, key: Key)
    requires Press(c, key).sent != []
    ensures Parse(Press(c, key).sent[0]) ==
      match key
      case KeyJ(room) => Join(room)
      case KeyTab(text) => Say(text)
      case _ => Exit
    ensures !key.Escape?
  {
    CommandBytes();
    ServerUnderstands(if key.KeyJ? then key.room else if key.KeyTab? then key.text else []);
    assert [36, 69, 88, 73, 84, 36] + [] == [36, 69, 88, 73, 84, 36];
    hide Ascii, Parse;
  }

  // ----- what a client makes of the texts -----

  lemma AsciiAppend(a: string, b: string)
    ensures Ascii(a + b) == Ascii(a) + Ascii(b)
  {
  }

  lemma Seven(front: Bytes, rest: Bytes)
    requires |front| == 7
    ensures FirstSeven(front + rest) == front && (front + rest)[7..] == rest && |front + rest| >= 7
  {
  }

  lemma ReadyIsShown(c: Client, rest: Bytes)
    ensures var msg := Ascii("$READY$") + rest; Received(c, msg) == c.(chatReady := true) && Shown(msg) == rest
    ensures IsReady(Ascii("$READY$") + rest)
  {
    ReplyBytes();
    Seven(Ascii("$READY$"), rest);
    hide Ascii;
  }

  lemma ReplyIsShown(c: Client, rest: Bytes)
    ensures var msg := Ascii("$REPLY$") + rest; Received(c, msg) == c && Shown(msg) == rest
    ensures !IsReady(Ascii("$REPLY$") + rest) && !IsLeft(Ascii("$REPLY$") + rest)
  {
    ReplyBytes();
    Seven(Ascii("$REPLY$"), rest);
    hide Ascii;
  }

  lemma Regrouped(front: Bytes, a: Bytes, b: Bytes, d: Bytes)
    ensures front + a + b + d == front + (a + b + d)
  {
  }

  /** A client that is told it is in lets its user chat; the line names the user and the room. */
  lemma {:induction false} ReadyUnderstood(c: Client, name: Bytes, room: Bytes)
    ensures Received(c, ReadyText(name, room)) == c.(chatReady := true) && IsReady(ReadyText(name, room))
    ensures Shown(ReadyText(name, room)) == Ascii("[") + name + Ascii("] IS ADDED TO THE ROOM (") + room + Ascii(")")
  {
    hide *;
    ReadyIsFront(name, room);
    ReadyIsShown(c, Ascii("[") + name + Ascii("] IS ADDED TO THE ROOM (") + room + Ascii(")"));
  }

  lemma ReadyIsFront(name: Bytes, room: Bytes)
    ensures ReadyText(name, room)
      == Ascii("$READY$") + (Ascii("[") + name + Ascii("] IS ADDED TO THE ROOM (") + room + Ascii(")"))
  {
    hide Ascii;
    AsciiAppend("$READY$", "[");
    assert "$READY$" + "[" == "$READY$[";
    var a, b := Ascii("["), Ascii("] IS ADDED TO THE ROOM (");
    Regrouped(Ascii("$READY$"), a, name, b);
    Regrouped(Ascii("$READY$"), a + name + b, room, Ascii(")"));
  }

  lemma NewsAreReplies(name: Bytes, text: Bytes)
    ensures JoinedText(name) == Ascii("$REPLY$") + (Ascii("**[") + name + Ascii("] HAS JOINED THE ROOM**"))
    ensures LeftText(name) == Ascii("$REPLY$") + (Ascii("**[") + name + Ascii("] HAS LEFT THE ROOM**"))
    ensures ReplyText(name, text) == Ascii("$REPLY$") + (name + Ascii(" : ") + text)
  {
    hide Ascii;
    AsciiAppend("$REPLY$", "**[");
    assert "$REPLY$" + "**[" == "$REPLY$**[";
    Regrouped(Ascii("$REPLY$"), Ascii("**["), name, Ascii("] HAS JOINED THE ROOM**"));
    Regrouped(Ascii("$REPLY$"), Ascii("**["), name, Ascii("] HAS LEFT THE ROOM**"));
    Regrouped(Ascii("$REPLY$"), name, Ascii(" : "), text);
  }

  /** The news of another client are shown and change nothing. */
  lemma {:induction false} NewsUnderstood(c: Client, name: Bytes, text: Bytes)
    ensures Received(c, JoinedText(name)) == c && !IsReady(JoinedText(name)) && !IsLeft(JoinedText(name))
    ensures Shown(JoinedText(name)) == Ascii("**[") + name + Ascii("] HAS JOINED THE ROOM**")
    ensures Received(c, LeftText(name)) == c && !IsReady(LeftText(name)) && !IsLeft(LeftText(name))
    ensures Shown(LeftText(name)) == Ascii("**[") + name + Ascii("] HAS LEFT THE ROOM**")
    ensures Received(c, ReplyText(name, text)) == c && !IsReady(ReplyText(name, text)) && !IsLeft(ReplyText(name, text))
    ensures Shown(ReplyText(name, text)) == name + Ascii(" : ") + text
  {
    hide *;
    NewsAreReplies(name, text);
    ReplyIsShown(c, Ascii("**[") + name + Ascii("] HAS JOINED THE ROOM**"));
    ReplyIsShown(c, Ascii("**[") + name + Ascii("] HAS LEFT THE ROOM**"));
    ReplyIsShown(c, name + Ascii(" : ") + text);
  }

  /** A client's own words come back with YOU in front, whatever they are. */
  lemma {:induction false} OwnWordsUnderstood(c: Client, text: Bytes)
    ensures Received(c, OwnText(text)) == c && Shown(OwnText(text)) == Ascii("YOU : ") + text
    ensures !IsReady(OwnText(text)) && !IsLeft(OwnText(text))
  {
    ReplyBytes();
    assert Ascii("YOU : ")[0] == 89 && OwnText(text)[0] == 89 && FirstSeven(OwnText(text))[0] == 89;
  }

  /** The confirmation of an exit ends chat and membership on the client's side. */
  lemma {:induction false} LeftUnderstood(c: Client)
    ensures var c' := Received(c, Ascii("$LEFT$")); !c'.joinedRoom && !c'.chatReady
    ensures IsLeft(Ascii("$LEFT$")) && !IsReady(Ascii("$LEFT$"))
  {
    ReplyBytes();
    hide Ascii;
  }
}
