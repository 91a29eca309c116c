/** The client's command line: a line typed by the user becomes a message for
    the server, "exit" or the end of input stops the client, and any other
    line is reported as invalid with nothing sent. A line is taken as the
    bytes of its characters. */
module ClientEngine {
  import opened Bytes
  import ServerMessage

  const SEMICOLON: byte := 0x3B
  /** "users" */
  const USERS: seq<byte> := [0x75, 0x73, 0x65, 0x72, 0x73]
  /** "all" */
  const ALL: seq<byte> := [0x61, 0x6C, 0x6C]
  /** "name" */
  const NAME: seq<byte> := [0x6E, 0x61, 0x6D, 0x65]
  /** "uni" */
  const UNI: seq<byte> := [0x75, 0x6E, 0x69]
  /** "exit" */
  const EXIT: seq<byte> := [0x65, 0x78, 0x69, 0x74]

  /** The line a user types for a message: "users", "all;<text>",
      "name;<name>" or "uni;<target>;<text>". */
  function Command(m: ServerMessage.Message): seq<byte>
  {
    match m
    case ListUsers => USERS
    case Broadcast(text) => ALL + [SEMICOLON] + text
    case Name(name) => NAME + [SEMICOLON] + name
    case Unicast(target, text) => UNI + [SEMICOLON] + target + [SEMICOLON] + text
  }

  /** A unicast target is cut at the first ';' after the command word, so it
      cannot hold one. */
  predicate Typeable(m: ServerMessage.Message)
  {
    m.Unicast? ==> SEMICOLON !in m.target
  }

  /** parse: the message a line asks for, None when it asks for none. A line
      parses exactly when it is the command of the message it yields. */
  function Parse(input: seq<byte>): (r: Option<ServerMessage.Message>)
    ensures r.Some? ==> Typeable(r.value) && Command(r.value) == input
    ensures SEMICOLON !in input ==> r == (if input == USERS then Some(ServerMessage.ListUsers) else None)
  {
    if input == USERS then Some(ServerMessage.ListUsers)
    else
      var delimiter := Find(input, 0, SEMICOLON);
      if delimiter == |input| then None
      else
        var word, rest := input[..delimiter], input[delimiter + 1..];
        CommandSplit(input, delimiter);
        if word == ALL then Some(ServerMessage.Broadcast(rest))
        else if word == NAME then Some(ServerMessage.Name(rest))
        else if word == UNI then
          var delimiter2 := Find(input, delimiter + 1, SEMICOLON);
          if delimiter2 == |input| then None
          else
            UnicastSplit(input, delimiter, delimiter2);
            Some(ServerMessage.Unicast(input[delimiter + 1..delimiter2], input[delimiter2 + 1..]))
        else None
  }

  /** What the client does with one line of input; None is the end of input. */
  datatype Action = Stop | Send(message: ServerMessage.Message) | Invalid

  /** The stdin branch of process: the end of input and "exit" stop the
      client, a line that parses is sent, anything else is reported. */
  function Handle(line: Option<seq<byte>>): (a: Action)
    ensures a == Stop <==> line.None? || line == Some(EXIT)
    ensures a.Send? ==> Typeable(a.message) && line == Some(Command(a.message))
    ensures a == Invalid <==> line.Some? && line.value != EXIT && Parse(line.value).None?
  {
    if line.None? || line.value == EXIT then Stop
    else match Parse(line.value)
      case Some(m) => Send(m)
      case None => Invalid
  }

  /** The messages sent for `lines`, read in order until "exit". */
  function Sends(lines: seq<seq<byte>>): seq<ServerMessage.Message>
  {
    if lines == [] || lines[0] == EXIT then []
    else
      (match Parse(lines[0]) case Some(m) => [m] case None => []) + Sends(lines[1..])
  }

  /** The stdin side of process over the lines the user types, the end of
      input after the last: each line is handled in turn until the client
      stops. Returns the messages sent and the number of lines reported as
      invalid. */
  method Process(lines: seq<seq<byte>>) returns (sent: seq<ServerMessage.Message>, invalid: nat)
    ensures sent == Sends(lines)
    ensures invalid == Rejected(lines)
  {
    sent, invalid := [], 0;
    var i := 0;
    while i <= |lines|
      invariant 0 <= i <= |lines|
      invariant Sends(lines) == sent + Sends(lines[i..])
      invariant Rejected(lines) == invalid + Rejected(lines[i..])
      decreases |lines| - i
    {
      var action := Handle(if i < |lines| then Some(lines[i]) else None);
      ProcessStep(lines, i, action);
      if action == Stop {
        return;
      }
      if action.Send? {
        sent := sent + [action.message];
      } else {
        invalid := invalid + 1;
      }
      i := i + 1;
    }
  }

  /** The number of lines reported as invalid for `lines`, read until "exit". */
  function Rejected(lines: seq<seq<byte>>): nat
  {
    if lines == [] || lines[0] == EXIT then 0
    else (if Parse(lines[0]).None? then 1 else 0) + Rejected(lines[1..])
  }

  // ---------------------------------------------------------------------------
  // Properties

  /** What handling line `i` adds to the messages sent and the lines
      rejected. */
  lemma ProcessStep(lines: seq<seq<byte>>, i: nat, action: Action)
    requires i <= |lines| && action == Handle(if i < |lines| then Some(lines[i]) else None)
    ensures action == Stop ==> Sends(lines[i..]) == [] && Rejected(lines[i..]) == 0
    ensures action.Send? ==>
      i < |lines| && Sends(lines[i..]) == [action.message] + Sends(lines[i + 1..])
      && Rejected(lines[i..]) == Rejected(lines[i + 1..])
    ensures action == Invalid ==>
      i < |lines| && Sends(lines[i..]) == Sends(lines[i + 1..])
      && Rejected(lines[i..]) == 1 + Rejected(lines[i + 1..])
  {
    if i < |lines| {
      assert lines[i..][0] == lines[i];
      assert lines[i..][1..] == lines[i + 1..];
    }
  }

  /** The command word is what precedes the first ';'. */
  lemma CommandSplit(input: seq<byte>, delimiter: nat)
    requires delimiter < |input| && input[delimiter] == SEMICOLON
    ensures input == input[..delimiter] + [SEMICOLON] + input[delimiter + 1..]
  {
  }

  lemma UnicastSplit(input: seq<byte>, delimiter: nat, delimiter2: nat)
    requires delimiter < delimiter2 < |input| && input[delimiter] == SEMICOLON && input[delimiter2] == SEMICOLON
    ensures input == input[..delimiter] + [SEMICOLON] + input[delimiter + 1..delimiter2] + [SEMICOLON] + input[delimiter2 + 1..]
  {
  }

  /** Every message the user can type is parsed back from its command. */
  lemma ParseCommand(m: ServerMessage.Message)
    requires Typeable(m)
    ensures Parse(Command(m)) == Some(m)
  {
    var line := Command(m);
    match m
    case ListUsers =>
    case Broadcast(text) =>
      FindIs(line, 0, SEMICOLON, 3);
      assert line[..3] == ALL && line[4..] == text;
    case Name(name) =>
      FindIs(line, 0, SEMICOLON, 4);
      assert line[..4] == NAME && line[5..] == name;
    case Unicast(target, text) =>
      ParseUnicastCommand(target, text);
  }

  /** A unicast command is cut at its two semicolons. */
  lemma ParseUnicastCommand(target: seq<byte>, text: seq<byte>)
    requires SEMICOLON !in target
    ensures Parse(Command(ServerMessage.Unicast(target, text))) == Some(ServerMessage.Unicast(target, text))
  {
    var line := Command(ServerMessage.Unicast(target, text));
    FindIs(line, 0, SEMICOLON, 3);
    assert line[..3] == UNI;
    var d2 := 4 + |target|;
    forall i | 4 <= i < d2
      ensures line[i] != SEMICOLON
    {
      assert line[i] == target[i - 4];
    }
    FindIs(line, 4, SEMICOLON, d2);
    assert line[4..d2] == target && line[d2 + 1..] == text;
  }

  /** Nothing typed after "exit" is sent. */
  lemma {:induction false} ExitStops(before: seq<seq<byte>>, after: seq<seq<byte>>)
    requires EXIT !in before
    ensures Sends(before + [EXIT] + after) == Sends(before)
    ensures Rejected(before + [EXIT] + after) == Rejected(before)
  {
    if before != [] {
      assert (before + [EXIT] + after)[1..] == before[1..] + [EXIT] + after;
      ExitStops(before[1..], after);
    }
  }

  /** Up to "exit", every line that is not sent is reported as invalid. */
  lemma {:induction false} EveryLineAnswered(lines: seq<seq<byte>>)
    requires EXIT !in lines
    ensures |Sends(lines)| + Rejected(lines) == |lines|
  {
    if lines != [] {
      EveryLineAnswered(lines[1..]);
    }
  }

  /** Every message sent is the command of one of the lines typed. */
  lemma {:induction false} SentWasTyped(lines: seq<seq<byte>>)
    ensures forall m :: m in Sends(lines) ==> Typeable(m) && Command(m) in lines
  {
    if lines != [] && lines[0] != EXIT {
      SentWasTyped(lines[1..]);
    }
  }
}
