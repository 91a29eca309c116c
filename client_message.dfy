/** The server-to-client codec: the three messages a server sends to a client
    (invalid_name, users_list, text), their byte layouts, the decoders that the
    client's frame reader runs over a frame, and the encoders. */
module ClientMessage {
  import opened Bytes

  // Marker bytes of this direction.
  const HEADING: byte := 0x01
  const END: byte := 0x04
  const INVALID_NAME: byte := 0x15
  const USERS_LIST: byte := 0x05
  const TEXT: byte := 0x9E
  const USER_SEP: byte := 0x1F
  const TEXT_START: byte := 0x02

  // The shortest frame each decoder looks at.
  const INVALID_NAME_MIN_SIZE: nat := 3
  const USERS_LIST_MIN_SIZE: nat := 3
  const TEXT_MIN_SIZE: nat := 4

  datatype Message =
    | InvalidName
    | UsersList(users: seq<seq<byte>>)
    | Text(sender: seq<byte>, body: seq<byte>)

  function Max(a: nat, b: nat): nat
  {
    if a < b then b else a
  }

  /** min_size: the largest of the three minimum sizes. */
  function MinSize(): (n: nat)
    ensures n >= INVALID_NAME_MIN_SIZE && n >= USERS_LIST_MIN_SIZE && n >= TEXT_MIN_SIZE
    ensures n == INVALID_NAME_MIN_SIZE || n == USERS_LIST_MIN_SIZE || n == TEXT_MIN_SIZE
  {
    Max(Max(INVALID_NAME_MIN_SIZE, USERS_LIST_MIN_SIZE), TEXT_MIN_SIZE)
  }

  // ---------------------------------------------------------------------------
  // Layouts

  /** The names of a users_list frame, each one followed by USER_SEP. */
  function UsersBody(users: seq<seq<byte>>): seq<byte>
  {
    if users == [] then [] else users[0] + [USER_SEP] + UsersBody(users[1..])
  }

  /** The sum of |u| + 1 over the names, as encode accumulates it. */
  function NamesSize(users: seq<seq<byte>>): nat
  {
    if users == [] then 0 else |users[0]| + 1 + NamesSize(users[1..])
  }

  /** The bytes that encode produces for a message. */
  function Wire(m: Message): seq<byte>
  {
    match m
    case InvalidName => [HEADING, INVALID_NAME, END]
    case UsersList(users) => [HEADING, USERS_LIST] + UsersBody(users) + [END]
    case Text(sender, body) => [HEADING, TEXT] + sender + [TEXT_START] + body + [END]
  }

  /** Nothing is escaped, so a payload holding the marker that ends its field
      cannot come back out of the decoder unchanged. */
  predicate Encodable(m: Message)
  {
    match m
    case InvalidName => true
    case UsersList(users) => forall i :: 0 <= i < |users| ==> USER_SEP !in users[i] && END !in users[i]
    case Text(sender, body) => TEXT_START !in sender && END !in body
  }

  // ---------------------------------------------------------------------------
  // Decoders. Each one starts at offset 0 of the range it is given and
  // returns where it left the cursor, also when it fails.

  /** invalid_name::decode. */
  function DecodeInvalidName(s: seq<byte>): (d: Decoded<Message>)
    ensures d.cursor <= |s|
    ensures |s| < INVALID_NAME_MIN_SIZE ==> d == Decoded(None, 0)
    ensures d.msg.Some? <==> |s| >= INVALID_NAME_MIN_SIZE && s[..3] == Wire(InvalidName)
    ensures d.msg.Some? ==> d == Decoded(Some(InvalidName), 3)
  {
    if |s| < INVALID_NAME_MIN_SIZE then Decoded(None, 0)
    else if s[0] != HEADING then Decoded(None, 0)
    else if s[1] != INVALID_NAME then Decoded(None, 1)
    else if s[2] != END then Decoded(None, 2)
    else Decoded(Some(InvalidName), 3)
  }

  /** find_separator of users_list::decode: the first USER_SEP from `from`,
      or, when there is none, the first END. */
  function FindSeparator(s: seq<byte>, from: nat): (r: nat)
    requires from <= |s|
    ensures from <= r <= |s|
    ensures r == |s| <==> USER_SEP !in s[from..] && END !in s[from..]
  {
    var j := Find(s, from, USER_SEP);
    NotInSlice(s, from, j, USER_SEP);
    if j == |s| then
      var k := Find(s, from, END);
      NotInSlice(s, from, k, END);
      k
    else
      assert s[from..][j - from] == USER_SEP;
      j
  }

  /** On a range whose only END is its last byte, as read hands over to the
      decoder, find_separator lands on the first USER_SEP or END. */
  lemma FindSeparatorAgrees(s: seq<byte>, from: nat)
    requires from <= |s|
    requires forall i :: from <= i < |s| - 1 ==> s[i] != END
    ensures FindSeparator(s, from) == FindEither(s, from, USER_SEP, END)
  {
    var e := FindEither(s, from, USER_SEP, END);
    if e < |s| && s[e] == USER_SEP {
      FindIs(s, from, USER_SEP, e);
    } else {
      FindIs(s, from, USER_SEP, |s|);
      FindIs(s, from, END, e);
    }
  }

  /** users_list::decode as written runs its loop body only when neither
      USER_SEP nor END follows the tag, and that body moves the cursor one past
      the end of the range before searching again. The code stays inside the
      range exactly when this holds. */
  predicate UsersListAsWrittenDefined(s: seq<byte>)
  {
    |s| < USERS_LIST_MIN_SIZE || s[0] != HEADING || s[1] != USERS_LIST
    || FindSeparator(s, 2) < |s|
  }

  /** users_list::decode as written. Whenever it is defined the loop body never
      runs, so the list stays empty and only the byte after the tag decides. */
  function DecodeUsersListAsWritten(s: seq<byte>): (d: Decoded<Message>)
    requires UsersListAsWrittenDefined(s)
    ensures d.cursor <= |s|
    ensures |s| < USERS_LIST_MIN_SIZE ==> d == Decoded(None, 0)
    ensures d.msg.Some? <==> |s| >= USERS_LIST_MIN_SIZE && s[..3] == Wire(UsersList([]))
    ensures d.msg.Some? ==> d == Decoded(Some(UsersList([])), 3)
  {
    if |s| < USERS_LIST_MIN_SIZE then Decoded(None, 0)
    else if s[0] != HEADING then Decoded(None, 0)
    else if s[1] != USERS_LIST then Decoded(None, 1)
    else if s[2] != END then Decoded(None, 2)
    else Decoded(Some(UsersList([])), 3)
  }

  /** The entries loop of users_list::decode in its intended form: from `at`,
      an entry runs up to the next USER_SEP and is collected; an END where the
      next entry would start closes the list. `users` holds what was collected
      so far. On failure the cursor is left where the unfinished entry starts. */
  function DecodeEntries(s: seq<byte>, at: nat, users: seq<seq<byte>>): (d: Decoded<Message>)
    requires at <= |s|
    ensures at <= d.cursor <= |s|
    ensures d.msg.Some? ==> d.msg.value.UsersList? && at < d.cursor && s[d.cursor - 1] == END
    decreases |s| - at
  {
    var j := FindEither(s, at, USER_SEP, END);
    if j == |s| then Decoded(None, at)
    else if s[j] == USER_SEP then DecodeEntries(s, j + 1, users + [s[at..j]])
    else if j == at then Decoded(Some(UsersList(users)), j + 1)
    else Decoded(None, at)
  }

  /** users_list::decode with its loop condition corrected. */
  function DecodeUsersList(s: seq<byte>): (d: Decoded<Message>)
    ensures d.cursor <= |s|
    ensures |s| < USERS_LIST_MIN_SIZE ==> d == Decoded(None, 0)
    ensures d.msg.Some? ==> d.msg.value.UsersList? && s[1] == USERS_LIST
  {
    if |s| < USERS_LIST_MIN_SIZE then Decoded(None, 0)
    else if s[0] != HEADING then Decoded(None, 0)
    else if s[1] != USERS_LIST then Decoded(None, 1)
    else DecodeEntries(s, 2, [])
  }

  /** The corrected users_list::decode as the loop that pushes one name per
      separator. */
  method DecodeUsersListLoop(s: seq<byte>) returns (d: Decoded<Message>)
    ensures d == DecodeUsersList(s)
  {
    if |s| < USERS_LIST_MIN_SIZE || s[0] != HEADING {
      return Decoded(None, 0);
    }
    if s[1] != USERS_LIST {
      return Decoded(None, 1);
    }
    var begin := 2;
    var users: seq<seq<byte>> := [];
    var separator := FindEither(s, begin, USER_SEP, END);
    while separator < |s| && s[separator] == USER_SEP
      invariant 2 <= begin <= separator <= |s|
      invariant separator == FindEither(s, begin, USER_SEP, END)
      invariant DecodeEntries(s, begin, users) == DecodeUsersList(s)
      decreases |s| - begin
    {
      users := users + [s[begin..separator]];
      begin := separator + 1;
      separator := FindEither(s, begin, USER_SEP, END);
    }
    if begin == |s| || s[begin] != END {
      return Decoded(None, begin);
    }
    d := Decoded(Some(UsersList(users)), begin + 1);
  }

  /** text::decode. */
  function DecodeText(s: seq<byte>): (d: Decoded<Message>)
    ensures d.cursor <= |s|
    ensures |s| < TEXT_MIN_SIZE ==> d == Decoded(None, 0)
    ensures d.msg.None? ==> d.cursor == (if |s| < TEXT_MIN_SIZE || s[0] != HEADING then 0 else 1)
    ensures d.msg.Some? ==> d.msg.value.Text? && s[1] == TEXT
  {
    if |s| < TEXT_MIN_SIZE then Decoded(None, 0)
    else if s[0] != HEADING then Decoded(None, 0)
    else if s[1] != TEXT then Decoded(None, 1)
    else
      var senderEnd := Find(s, 2, TEXT_START);
      if senderEnd == |s| then Decoded(None, 1)
      else
        var bodyEnd := Find(s, senderEnd + 1, END);
        if bodyEnd == |s| then Decoded(None, 1)
        else Decoded(Some(Text(s[2..senderEnd], s[senderEnd + 1..bodyEnd])), bodyEnd + 1)
  }

  /** decode: invalid_name, then users_list, then text, each from the same
      start. When all three fail the cursor is where text::decode left it.
      The users_list decoder here is the corrected `DecodeUsersList`. */
  function Decode(s: seq<byte>): (d: Decoded<Message>)
    ensures d.cursor <= |s|
    ensures d.msg.None? ==> d.cursor == (if |s| < TEXT_MIN_SIZE || s[0] != HEADING then 0 else 1)
  {
    var first := DecodeInvalidName(s);
    if first.msg.Some? then first
    else
      var second := DecodeUsersList(s);
      if second.msg.Some? then second
      else DecodeText(s)
  }

  // ---------------------------------------------------------------------------
  // Encoders. Each allocates the packet and fills it through a moving position.

  /** The packet size that the users_list branch of encode allocates: 2 for the
      heading and tag plus |u| + 1 per name. */
  function UsersListAllocationAsWritten(users: seq<seq<byte>>): nat
  {
    2 + NamesSize(users)
  }

  /** One `*packet_it++ = b`. */
  method PutByte(packet: array<byte>, at: nat, b: byte)
    requires at < packet.Length
    modifies packet
    ensures packet[..at + 1] == old(packet[..at]) + [b]
    ensures packet[at + 1..] == old(packet[at + 1..])
  {
    packet[at] := b;
  }

  /** std::copy of `src` into packet[at..], returning the position after it. */
  method CopyInto(packet: array<byte>, at: nat, src: seq<byte>) returns (next: nat)
    requires at + |src| <= packet.Length
    modifies packet
    ensures next == at + |src|
    ensures packet[..next] == old(packet[..at]) + src
    ensures packet[next..] == old(packet[next..])
  {
    var i := 0;
    while i < |src|
      invariant 0 <= i <= |src|
      invariant packet[..at + i] == old(packet[..at]) + src[..i]
      invariant packet[at + |src|..] == old(packet[at + |src|..])
    {
      PutByte(packet, at + i, src[i]);
      assert src[..i + 1] == src[..i] + [src[i]];
      i := i + 1;
    }
    assert src[..i] == src;
    next := at + |src|;
  }

  method EncodeInvalidName() returns (packet: array<byte>)
    ensures fresh(packet)
    ensures packet[..] == Wire(InvalidName)
  {
    packet := new byte[3];
    packet[0] := HEADING;
    packet[1] := INVALID_NAME;
    packet[2] := END;
  }

  /** The users_list branch of encode, allocating room for the closing END. */
  method EncodeUsersList(users: seq<seq<byte>>) returns (packet: array<byte>)
    ensures fresh(packet)
    ensures packet.Length == UsersListAllocationAsWritten(users) + 1
    ensures packet[..] == Wire(UsersList(users))
  {
    UsersBodyLength(users);
    packet := new byte[3 + NamesSize(users)];
    PutByte(packet, 0, HEADING);
    PutByte(packet, 1, USERS_LIST);
    var at := 2;
    var i := 0;
    assert users[i..] == users;
    while i < |users|
      invariant 0 <= i <= |users|
      invariant at == 2 + |UsersBody(users[..i])|
      invariant at + |UsersBody(users[i..])| + 1 == packet.Length
      invariant packet[..at] == [HEADING, USERS_LIST] + UsersBody(users[..i])
    {
      UsersBodyStep(users, i);
      ghost var body := UsersBody(users[..i]);
      at := PutUser(packet, at, users[i]);
      assert [HEADING, USERS_LIST] + body + users[i] + [USER_SEP]
          == [HEADING, USERS_LIST] + (body + users[i] + [USER_SEP]);
      i := i + 1;
    }
    assert users[..i] == users;
    PutByte(packet, at, END);
    assert packet[..] == packet[..at + 1];
  }

  /** One name of the users list followed by its separator. */
  method PutUser(packet: array<byte>, at: nat, name: seq<byte>) returns (next: nat)
    requires at + |name| + 1 <= packet.Length
    modifies packet
    ensures next == at + |name| + 1
    ensures packet[..next] == old(packet[..at]) + name + [USER_SEP]
    ensures packet[next..] == old(packet[next..])
  {
    next := CopyInto(packet, at, name);
    PutByte(packet, next, USER_SEP);
    next := next + 1;
  }

  method EncodeText(sender: seq<byte>, body: seq<byte>) returns (packet: array<byte>)
    ensures fresh(packet)
    ensures packet.Length == 4 + |sender| + |body|
    ensures packet[..] == Wire(Text(sender, body))
  {
    packet := new byte[4 + |sender| + |body|];
    PutByte(packet, 0, HEADING);
    PutByte(packet, 1, TEXT);
    assert packet[..2] == [HEADING, TEXT];
    var at := CopyInto(packet, 2, sender);
    PutByte(packet, at, TEXT_START);
    assert packet[..at + 1] == [HEADING, TEXT] + sender + [TEXT_START];
    at := CopyInto(packet, at + 1, body);
    PutByte(packet, at, END);
    assert packet[..] == packet[..at + 1];
  }

  /** encode. A users list goes through the corrected `EncodeUsersList`,
      which allocates room for the closing END. */
  method Encode(m: Message) returns (packet: array<byte>)
    ensures fresh(packet)
    ensures packet[..] == Wire(m)
  {
    match m
    case InvalidName =>
      packet := EncodeInvalidName();
    case UsersList(users) =>
      packet := EncodeUsersList(users);
    case Text(sender, body) =>
      packet := EncodeText(sender, body);
  }

  // ---------------------------------------------------------------------------
  // Properties

  lemma {:induction false} UsersBodyAppend(a: seq<seq<byte>>, b: seq<seq<byte>>)
    ensures UsersBody(a + b) == UsersBody(a) + UsersBody(b)
    decreases a
  {
    if a == [] {
      assert a + b == b;
    } else {
      assert (a + b)[1..] == a[1..] + b;
      UsersBodyAppend(a[1..], b);
    }
  }

  /** The layout of the first i + 1 names grows by name i and USER_SEP. */
  lemma UsersBodyStep(users: seq<seq<byte>>, i: nat)
    requires i < |users|
    ensures UsersBody(users[..i + 1]) == UsersBody(users[..i]) + users[i] + [USER_SEP]
    ensures |UsersBody(users[i..])| == |users[i]| + 1 + |UsersBody(users[i + 1..])|
  {
    UsersBodyAppend(users[..i], [users[i]]);
    assert users[..i + 1] == users[..i] + [users[i]];
    assert users[i..][1..] == users[i + 1..];
    assert [users[i]][1..] == [];
  }

  lemma {:induction false} UsersBodyLength(users: seq<seq<byte>>)
    ensures |UsersBody(users)| == NamesSize(users)
    decreases users
  {
    if users != [] {
      UsersBodyLength(users[1..]);
    }
  }

  /** The users_list layout is one byte longer than the packet encode
      allocates for it, so the closing END is written past the packet. */
  lemma UsersListOverflowsByOne(users: seq<seq<byte>>)
    ensures |Wire(UsersList(users))| == UsersListAllocationAsWritten(users) + 1
  {
    UsersBodyLength(users);
  }

  /** Every encoded frame starts with HEADING and ends with END. */
  lemma WireDelimited(m: Message)
    ensures |Wire(m)| >= 3 && Wire(m)[0] == HEADING && Wire(m)[|Wire(m)| - 1] == END
  {
  }

  /** A frame of an encodable message holds END nowhere but at its last byte,
      as long as a text sender holds no END either. */
  lemma {:induction false} WireEndsOnce(m: Message)
    requires Encodable(m)
    requires m.Text? ==> END !in m.sender
    ensures END !in Wire(m)[..|Wire(m)| - 1]
  {
    match m
    case InvalidName =>
    case UsersList(users) =>
      UsersBodyNoEnd(users);
      assert Wire(m)[..|Wire(m)| - 1] == [HEADING, USERS_LIST] + UsersBody(users);
    case Text(sender, body) =>
      assert Wire(m)[..|Wire(m)| - 1] == [HEADING, TEXT] + sender + [TEXT_START] + body;
  }

  lemma {:induction false} UsersBodyNoEnd(users: seq<seq<byte>>)
    requires forall i :: 0 <= i < |users| ==> END !in users[i]
    ensures END !in UsersBody(users)
    decreases users
  {
    if users != [] {
      UsersBodyNoEnd(users[1..]);
    }
  }

  /** One step of the entries loop over a name followed by USER_SEP. */
  lemma DecodeEntriesStep(s: seq<byte>, at: nat, u: seq<byte>, done: seq<seq<byte>>)
    requires at + |u| < |s| && s[at..at + |u|] == u && s[at + |u|] == USER_SEP
    requires USER_SEP !in u && END !in u
    ensures DecodeEntries(s, at, done) == DecodeEntries(s, at + |u| + 1, done + [u])
  {
    forall i | at <= i < at + |u|
      ensures s[i] != USER_SEP && s[i] != END
    {
      assert s[i] == u[i - at];
    }
    FindEitherIs(s, at, USER_SEP, END, at + |u|);
  }

  /** `users` laid out from `at` as the encoder writes them: each name, free
      of both markers, followed by USER_SEP, then END. */
  predicate LaidOut(s: seq<byte>, at: nat, users: seq<seq<byte>>)
    decreases users
  {
    if users == [] then at < |s| && s[at] == END
    else
      var u := users[0];
      USER_SEP !in u && END !in u
      && at + |u| < |s| && s[at..at + |u|] == u && s[at + |u|] == USER_SEP
      && LaidOut(s, at + |u| + 1, users[1..])
  }

  /** The entries loop reads back encodable names laid out by the encoder. */
  lemma {:induction false} DecodeEntriesReadsBody(s: seq<byte>, at: nat, users: seq<seq<byte>>, done: seq<seq<byte>>)
    requires LaidOut(s, at, users)
    ensures at <= |s|
    ensures DecodeEntries(s, at, done) == Decoded(Some(UsersList(done + users)), at + |UsersBody(users)| + 1)
    decreases users
  {
    if users == [] {
      DecodeEntriesEnd(s, at, done);
      assert done + users == done;
    } else {
      var u, others := users[0], users[1..];
      DecodeEntriesReadsBody(s, at + |u| + 1, others, done + [u]);
      DecodeEntriesCons(s, at, users, done);
    }
  }

  /** One laid-out name more in front of a run the entries loop reads back. */
  lemma DecodeEntriesCons(s: seq<byte>, at: nat, users: seq<seq<byte>>, done: seq<seq<byte>>)
    requires users != []
    requires var u := users[0];
      USER_SEP !in u && END !in u
      && at + |u| < |s| && s[at..at + |u|] == u && s[at + |u|] == USER_SEP
    requires var u := users[0];
      DecodeEntries(s, at + |u| + 1, done + [u])
      == Decoded(Some(UsersList(done + [u] + users[1..])), at + |u| + 1 + |UsersBody(users[1..])| + 1)
    ensures DecodeEntries(s, at, done) == Decoded(Some(UsersList(done + users)), at + |UsersBody(users)| + 1)
  {
    var u := users[0];
    DecodeEntriesStep(s, at, u, done);
    AppendHead(done, users);
    assert |UsersBody(users)| == |u| + 1 + |UsersBody(users[1..])|;
  }

  /** The layout of a list is its first name, USER_SEP, and the layout of the
      others. */
  lemma LayoutCons(p: seq<byte>, u: seq<byte>, others: seq<seq<byte>>, rest: seq<byte>)
    ensures p + UsersBody([u] + others) + [END] + rest == p + u + [USER_SEP] + UsersBody(others) + [END] + rest
  {
    assert ([u] + others)[1..] == others;
    assert UsersBody([u] + others) == u + [USER_SEP] + UsersBody(others);
  }

  /** What the encoder writes is laid out, whatever precedes and follows it. */
  lemma {:induction false} UsersBodyLaidOut(p: seq<byte>, users: seq<seq<byte>>, rest: seq<byte>)
    requires forall i :: 0 <= i < |users| ==> USER_SEP !in users[i] && END !in users[i]
    ensures LaidOut(p + UsersBody(users) + [END] + rest, |p|, users)
    decreases users
  {
    var s := p + UsersBody(users) + [END] + rest;
    if users == [] {
      assert s[|p|] == END;
    } else {
      var u, others := users[0], users[1..];
      var p' := p + u + [USER_SEP];
      assert users == [u] + others;
      LayoutCons(p, u, others, rest);
      assert s == p + u + ([USER_SEP] + UsersBody(others) + [END] + rest);
      assert s[|p|..|p| + |u|] == u && s[|p| + |u|] == USER_SEP;
      forall i | 0 <= i < |others|
        ensures USER_SEP !in others[i] && END !in others[i]
      {
        assert others[i] == users[i + 1];
      }
      UsersBodyLaidOut(p', others, rest);
      assert |p'| == |p| + |u| + 1;
    }
  }

  /** The entries loop stops at an END right at its start. */
  lemma DecodeEntriesEnd(s: seq<byte>, at: nat, done: seq<seq<byte>>)
    requires at < |s| && s[at] == END
    ensures DecodeEntries(s, at, done) == Decoded(Some(UsersList(done)), at + 1)
  {
    FindEitherIs(s, at, USER_SEP, END, at);
  }

  lemma DecodeWireUsersList(users: seq<seq<byte>>, rest: seq<byte>)
    requires Encodable(UsersList(users))
    ensures Decode(Wire(UsersList(users)) + rest) == Decoded(Some(UsersList(users)), |Wire(UsersList(users))|)
  {
    var s := Wire(UsersList(users)) + rest;
    assert s == [HEADING, USERS_LIST] + UsersBody(users) + [END] + rest;
    UsersBodyLaidOut([HEADING, USERS_LIST], users, rest);
    DecodeEntriesReadsBody(s, 2, users, []);
    assert [] + users == users;
  }

  lemma DecodeWireText(sender: seq<byte>, body: seq<byte>, rest: seq<byte>)
    requires TEXT_START !in sender && END !in body
    ensures Decode(Wire(Text(sender, body)) + rest) == Decoded(Some(Text(sender, body)), |Wire(Text(sender, body))|)
  {
    var w := Wire(Text(sender, body));
    var s := w + rest;
    var senderEnd := 2 + |sender|;
    var bodyEnd := senderEnd + 1 + |body|;
    assert s[..2] == [HEADING, TEXT];
    assert s[2..senderEnd] == sender;
    assert s[senderEnd] == TEXT_START;
    assert s[senderEnd + 1..bodyEnd] == body;
    assert s[bodyEnd] == END;
    forall i | 2 <= i < senderEnd
      ensures s[i] != TEXT_START
    {
      assert s[i] == s[2..senderEnd][i - 2];
    }
    FindIs(s, 2, TEXT_START, senderEnd);
    forall i | senderEnd + 1 <= i < bodyEnd
      ensures s[i] != END
    {
      assert s[i] == s[senderEnd + 1..bodyEnd][i - senderEnd - 1];
    }
    FindIs(s, senderEnd + 1, END, bodyEnd);
  }

  /** Round trip: decoding the encoding of an encodable message, followed by
      anything, gives the message back and consumes exactly its encoding. */
  lemma DecodeWire(m: Message, rest: seq<byte>)
    requires Encodable(m)
    ensures Decode(Wire(m) + rest) == Decoded(Some(m), |Wire(m)|)
  {
    match m
    case InvalidName =>
      assert (Wire(m) + rest)[..3] == Wire(InvalidName);
    case UsersList(users) =>
      DecodeWireUsersList(users, rest);
    case Text(sender, body) =>
      DecodeWireText(sender, body, rest);
  }

  /** What the entries loop accepted is a run of encodable names laid out by
      the encoder, starting at `at` and closed by END. */
  lemma {:induction false} DecodeEntriesConsumes(s: seq<byte>, at: nat, done: seq<seq<byte>>)
    requires at <= |s|
    requires DecodeEntries(s, at, done).msg.Some?
    ensures var d := DecodeEntries(s, at, done);
      var all := d.msg.value.users;
      |done| <= |all| && all[..|done|] == done
      && LaidOut(s, at, all[|done|..]) && d.cursor == at + |UsersBody(all[|done|..])| + 1
    decreases |s| - at
  {
    var j := FindEither(s, at, USER_SEP, END);
    var d := DecodeEntries(s, at, done);
    if s[j] == USER_SEP {
      var done' := done + [s[at..j]];
      assert d == DecodeEntries(s, j + 1, done');
      DecodeEntriesConsumes(s, j + 1, done');
      NotInSlice(s, at, j, USER_SEP);
      NotInSlice(s, at, j, END);
      EntriesStep(s, at, j, done, d.msg.value.users, d.cursor);
    } else {
      assert j == at;
      assert d.msg.value.users[|done|..] == [];
    }
  }

  /** One name and its separator in front of the rest of the run. */
  lemma EntriesStep(s: seq<byte>, at: nat, j: nat, done: seq<seq<byte>>, all: seq<seq<byte>>, cursor: nat)
    requires at <= j < |s| && s[j] == USER_SEP && USER_SEP !in s[at..j] && END !in s[at..j]
    requires |done| + 1 <= |all| && all[..|done| + 1] == done + [s[at..j]]
    requires LaidOut(s, j + 1, all[|done| + 1..])
    requires cursor == j + 1 + |UsersBody(all[|done| + 1..])| + 1
    ensures all[..|done|] == done
    ensures LaidOut(s, at, all[|done|..]) && cursor == at + |UsersBody(all[|done|..])| + 1
  {
    var u := s[at..j];
    SplitAfter(all, done, u);
    assert s[at..at + |u|] == u;
    ConsLaidOut(s, at, u, all[|done| + 1..]);
  }

  /** Splitting the names read so far at the one just pushed. */
  lemma SplitAfter(all: seq<seq<byte>>, done: seq<seq<byte>>, u: seq<byte>)
    requires |done| + 1 <= |all| && all[..|done| + 1] == done + [u]
    ensures all[..|done|] == done && all[|done|] == u
    ensures all[|done|..] == [u] + all[|done| + 1..]
  {
    assert all[..|done|] == all[..|done| + 1][..|done|];
  }

  /** A name and USER_SEP in front of a laid-out run are a laid-out run. */
  lemma ConsLaidOut(s: seq<byte>, at: nat, u: seq<byte>, names: seq<seq<byte>>)
    requires USER_SEP !in u && END !in u
    requires at + |u| < |s| && s[at..at + |u|] == u && s[at + |u|] == USER_SEP
    requires LaidOut(s, at + |u| + 1, names)
    ensures LaidOut(s, at, [u] + names)
    ensures |UsersBody([u] + names)| == |u| + 1 + |UsersBody(names)|
  {
    assert ([u] + names)[1..] == names;
  }

  /** The names of a laid-out run are encodable. */
  lemma {:induction false} LaidOutEncodable(s: seq<byte>, at: nat, users: seq<seq<byte>>)
    requires LaidOut(s, at, users)
    ensures forall i :: 0 <= i < |users| ==> USER_SEP !in users[i] && END !in users[i]
    decreases users
  {
    if users != [] {
      LaidOutEncodable(s, at + |users[0]| + 1, users[1..]);
      forall i | 1 <= i < |users|
        ensures USER_SEP !in users[i] && END !in users[i]
      {
        assert users[i] == users[1..][i - 1];
      }
    }
  }

  /** A laid-out run, read as a stretch of the range. */
  lemma {:induction false} LaidOutSlice(s: seq<byte>, at: nat, users: seq<seq<byte>>)
    requires LaidOut(s, at, users)
    ensures at + |UsersBody(users)| < |s|
    ensures s[at..at + |UsersBody(users)| + 1] == UsersBody(users) + [END]
    decreases users
  {
    if users != [] {
      var u, others := users[0], users[1..];
      var next := at + |u| + 1;
      LaidOutSlice(s, next, others);
      var c := next + |UsersBody(others)| + 1;
      SliceAround(s, at, at + |u|, c);
    }
  }

  lemma DecodeUsersListConsumes(s: seq<byte>)
    requires DecodeUsersList(s).msg.Some?
    ensures var d := DecodeUsersList(s);
      Encodable(d.msg.value) && s[..d.cursor] == Wire(d.msg.value)
  {
    var d := DecodeUsersList(s);
    DecodeEntriesConsumes(s, 2, []);
    var all := d.msg.value.users;
    assert all[0..] == all;
    LaidOutSlice(s, 2, all);
    LaidOutEncodable(s, 2, all);
    assert d.cursor == 2 + |UsersBody(all)| + 1;
    assert s[..d.cursor] == s[..2] + s[2..d.cursor];
    assert s[..2] == [HEADING, USERS_LIST];
    assert Wire(d.msg.value) == [HEADING, USERS_LIST] + (UsersBody(all) + [END]);
  }

  lemma DecodeTextConsumes(s: seq<byte>)
    requires DecodeText(s).msg.Some?
    ensures var d := DecodeText(s);
      Encodable(d.msg.value) && s[..d.cursor] == Wire(d.msg.value)
  {
    var d := DecodeText(s);
    var senderEnd := Find(s, 2, TEXT_START);
    var bodyEnd := Find(s, senderEnd + 1, END);
    NotInSlice(s, 2, senderEnd, TEXT_START);
    NotInSlice(s, senderEnd + 1, bodyEnd, END);
    assert s[..2] == [HEADING, TEXT];
    SliceAround(s, 2, senderEnd, bodyEnd + 1);
    SliceAround(s, senderEnd + 1, bodyEnd, bodyEnd + 1);
    assert s[bodyEnd + 1..bodyEnd + 1] == [];
    assert s[..d.cursor] == s[..2] + s[2..d.cursor];
  }

  /** A successful decode consumed exactly the encoding of an encodable
      message: the decoders accept nothing but what the encoder writes. */
  lemma DecodeConsumesWire(s: seq<byte>)
    requires Decode(s).msg.Some?
    ensures var d := Decode(s);
      Encodable(d.msg.value) && d.cursor == |Wire(d.msg.value)| && s[..d.cursor] == Wire(d.msg.value)
  {
    if DecodeInvalidName(s).msg.Some? {
    } else if DecodeUsersList(s).msg.Some? {
      DecodeUsersListConsumes(s);
    } else {
      DecodeTextConsumes(s);
    }
  }

  /** The message tags differ, so at most one decoder accepts a given range. */
  lemma AtMostOneDecoderAccepts(s: seq<byte>)
    ensures !(DecodeInvalidName(s).msg.Some? && DecodeUsersList(s).msg.Some?)
    ensures !(DecodeInvalidName(s).msg.Some? && DecodeText(s).msg.Some?)
    ensures !(DecodeUsersList(s).msg.Some? && DecodeText(s).msg.Some?)
  {
    if DecodeInvalidName(s).msg.Some? {
      assert s[1] == s[..3][1] == INVALID_NAME;
    }
  }

  /** users_list::decode as written turns away every encoded list that holds
      a name, because the byte after the tag is then not END. */
  lemma UsersListAsWrittenRejectsNames(users: seq<seq<byte>>)
    requires users != [] && Encodable(UsersList(users))
    ensures UsersListAsWrittenDefined(Wire(UsersList(users)))
    ensures DecodeUsersListAsWritten(Wire(UsersList(users))) == Decoded(None, 2)
  {
    var w := Wire(UsersList(users));
    var u := users[0];
    assert w == [HEADING, USERS_LIST] + u + [USER_SEP] + UsersBody(users[1..]) + [END];
    assert w[2 + |u|] == USER_SEP;
    if u == [] {
      assert w[2] == USER_SEP;
    } else {
      assert w[2] == u[0];
      assert u[0] in u;
    }
  }
}
