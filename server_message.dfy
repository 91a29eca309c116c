/** The client-to-server direction: the three messages a server accepts from a
    client (list_users, broadcast, unicast), the decoders that recognise them
    and `parse`, which tries them in turn. */
module ServerMessage {
  import opened Bytes

  // Marker bytes of this direction. The broadcast tag and the separator
  // between a unicast's target and its text are the same byte.
  const HEADING: byte := 0x01
  const END: byte := 0x04
  const LIST_USERS: byte := 0x05
  const BROADCAST: byte := 0x02
  const UNICAST: byte := 0x9E
  const TEXT: byte := 0x02

  // The shortest range each decoder looks at.
  const LIST_USERS_MIN_SIZE: nat := 3
  const BROADCAST_MIN_SIZE: nat := 3
  const UNICAST_MIN_SIZE: nat := 4

  /** The messages a client sends. `Name` is the rename request the client's
      command parser produces; no decoder of this direction recognises it. */
  datatype Message =
    | ListUsers
    | Broadcast(text: seq<byte>)
    | Unicast(target: seq<byte>, text: seq<byte>)
    | Name(name: seq<byte>)

  /** The byte layout the decoders accept for each message they recognise. */
  function WireFormat(m: Message): seq<byte>
    requires !m.Name?
  {
    match m
    case ListUsers => [HEADING, LIST_USERS, END]
    case Broadcast(text) => [HEADING, BROADCAST] + text + [END]
    case Unicast(target, text) => [HEADING, UNICAST] + target + [TEXT] + text + [END]
  }

  /** The fields hold no marker that would end them early. */
  predicate Framable(m: Message)
  {
    match m
    case ListUsers => true
    case Broadcast(text) => END !in text
    case Unicast(target, text) => TEXT !in target && END !in text
    case Name(_) => false
  }

  // ---------------------------------------------------------------------------
  // Decoders. Each starts at offset 0 of its range and returns where it left
  // the cursor, also when it fails.

  /** list_users::from. */
  function FromListUsers(s: seq<byte>): (d: Decoded<Message>)
    ensures d.cursor <= |s|
    ensures |s| < LIST_USERS_MIN_SIZE ==> d == Decoded(None, 0)
    ensures d.msg.Some? <==> |s| >= LIST_USERS_MIN_SIZE && s[..3] == WireFormat(ListUsers)
    ensures d.msg.Some? ==> d == Decoded(Some(ListUsers), 3)
  {
    if |s| < LIST_USERS_MIN_SIZE then Decoded(None, 0)
    else if s[0] != HEADING then Decoded(None, 0)
    else if s[1] != LIST_USERS then Decoded(None, 1)
    else if s[2] != END then Decoded(None, 2)
    else Decoded(Some(ListUsers), 3)
  }

  /** broadcast::from: the text runs from after the tag up to the first END. */
  function FromBroadcast(s: seq<byte>): (d: Decoded<Message>)
    ensures d.cursor <= |s|
    ensures |s| < BROADCAST_MIN_SIZE ==> d == Decoded(None, 0)
    ensures d.msg.None? ==> d.cursor == (if |s| < BROADCAST_MIN_SIZE || s[0] != HEADING then 0 else 1)
    ensures d.msg.Some? <==> |s| >= BROADCAST_MIN_SIZE && s[0] == HEADING && s[1] == BROADCAST && END in s[2..]
    ensures d.msg.Some? ==>
      d.cursor >= 3 && d.msg.value == Broadcast(s[2..d.cursor - 1])
      && s[d.cursor - 1] == END && END !in d.msg.value.text
  {
    if |s| < BROADCAST_MIN_SIZE then Decoded(None, 0)
    else if s[0] != HEADING then Decoded(None, 0)
    else if s[1] != BROADCAST then Decoded(None, 1)
    else
      var textEnd := Find(s, 2, END);
      if textEnd == |s| then
        assert END !in s[2..] by {
          forall k | 0 <= k < |s| - 2
            ensures s[2..][k] != END
          {
            assert s[2..][k] == s[2 + k];
          }
        }
        Decoded(None, 1)
      else
        assert s[2..][textEnd - 2] == END;
        var text := s[2..textEnd];
        assert END !in text by {
          forall k | 0 <= k < |text|
            ensures text[k] != END
          {
            assert text[k] == s[2 + k];
          }
        }
        Decoded(Some(Broadcast(text)), textEnd + 1)
  }

  /** unicast::from: the target runs up to the first TEXT after the tag, the
      text from there up to the first END. */
  function FromUnicast(s: seq<byte>): (d: Decoded<Message>)
    ensures d.cursor <= |s|
    ensures |s| < UNICAST_MIN_SIZE ==> d == Decoded(None, 0)
    ensures d.msg.None? ==> d.cursor == (if |s| < UNICAST_MIN_SIZE || s[0] != HEADING then 0 else 1)
    ensures d.msg.Some? ==>
      |s| >= UNICAST_MIN_SIZE && s[0] == HEADING && s[1] == UNICAST
      && d.msg.value.Unicast? && d.cursor == |WireFormat(d.msg.value)|
      && s[..d.cursor] == WireFormat(d.msg.value) && Framable(d.msg.value)
  {
    if |s| < UNICAST_MIN_SIZE then Decoded(None, 0)
    else if s[0] != HEADING then Decoded(None, 0)
    else if s[1] != UNICAST then Decoded(None, 1)
    else
      var targetEnd := Find(s, 2, TEXT);
      if targetEnd == |s| then Decoded(None, 1)
      else
        var textEnd := Find(s, targetEnd + 1, END);
        if textEnd == |s| then Decoded(None, 1)
        else
          var target := s[2..targetEnd];
          var text := s[targetEnd + 1..textEnd];
          UnicastLayout(s, targetEnd, textEnd);
          Decoded(Some(Unicast(target, text)), textEnd + 1)
  }

  /** The stretch unicast::from accepts, given where its two searches
      stopped, is the layout of the unicast it returns. */
  lemma UnicastLayout(s: seq<byte>, targetEnd: nat, textEnd: nat)
    requires 2 <= targetEnd < textEnd < |s| && s[0] == HEADING && s[1] == UNICAST
    requires s[targetEnd] == TEXT && s[textEnd] == END
    requires forall i :: 2 <= i < targetEnd ==> s[i] != TEXT
    requires forall i :: targetEnd < i < textEnd ==> s[i] != END
    ensures var m := Unicast(s[2..targetEnd], s[targetEnd + 1..textEnd]);
      Framable(m) && textEnd + 1 == |WireFormat(m)| && s[..textEnd + 1] == WireFormat(m)
  {
    var target := s[2..targetEnd];
    var text := s[targetEnd + 1..textEnd];
    NotInSlice(s, 2, targetEnd, TEXT);
    NotInSlice(s, targetEnd + 1, textEnd, END);
    assert s[..targetEnd] == s[..2] + target;
    assert s[..textEnd] == s[..targetEnd] + [TEXT] + text;
    assert s[..textEnd + 1] == s[..textEnd] + [END];
    assert s[..2] == [HEADING, UNICAST];
  }

  /** parse: list_users, then broadcast, then unicast, each from the same
      start. When all three fail the cursor is where unicast::from left it. */
  function Parse(s: seq<byte>): (d: Decoded<Message>)
    ensures d.cursor <= |s|
    ensures d.msg.None? ==> d.cursor == (if |s| < UNICAST_MIN_SIZE || s[0] != HEADING then 0 else 1)
    ensures d.msg.Some? ==> !d.msg.value.Name?
  {
    var first := FromListUsers(s);
    if first.msg.Some? then first
    else
      var second := FromBroadcast(s);
      if second.msg.Some? then second
      else FromUnicast(s)
  }

  // ---------------------------------------------------------------------------
  // Properties

  /** A broadcast laid out as the decoder expects comes back whole. */
  lemma FromBroadcastReads(text: seq<byte>, rest: seq<byte>)
    requires END !in text
    ensures FromBroadcast(WireFormat(Broadcast(text)) + rest)
         == Decoded(Some(Broadcast(text)), |text| + 3)
  {
    var a := [HEADING, BROADCAST] + text;
    var s := WireFormat(Broadcast(text)) + rest;
    assert s == a + ([END] + rest);
    assert a[2..] == text;
    FindAtSeam(a, [END] + rest, 2, END);
    assert s[2..|a|] == text;
  }

  /** A unicast laid out as the decoder expects comes back whole. */
  lemma FromUnicastReads(target: seq<byte>, text: seq<byte>, rest: seq<byte>)
    requires TEXT !in target && END !in text
    ensures FromUnicast(WireFormat(Unicast(target, text)) + rest)
         == Decoded(Some(Unicast(target, text)), |target| + |text| + 4)
  {
    var s := WireFormat(Unicast(target, text)) + rest;
    var a := [HEADING, UNICAST] + target;
    var b := a + [TEXT] + text;
    assert s == a + ([TEXT] + text + [END] + rest);
    assert a[2..] == target;
    FindAtSeam(a, [TEXT] + text + [END] + rest, 2, TEXT);
    assert s == b + ([END] + rest);
    assert b[|a| + 1..] == text;
    FindAtSeam(b, [END] + rest, |a| + 1, END);
    assert s[2..|a|] == target;
    assert s[|a| + 1..|b|] == text;
  }

  /** Round trip: parse reads back every framable message from its layout,
      whatever follows it, and stops right after its END. */
  lemma ParseWireFormat(m: Message, rest: seq<byte>)
    requires Framable(m)
    ensures Parse(WireFormat(m) + rest) == Decoded(Some(m), |WireFormat(m)|)
  {
    match m
    case ListUsers =>
      assert (WireFormat(m) + rest)[..3] == WireFormat(ListUsers);
    case Broadcast(text) =>
      FromBroadcastReads(text, rest);
    case Unicast(target, text) =>
      FromUnicastReads(target, text, rest);
  }

  /** A successful parse consumed exactly the layout of a framable message:
      the decoders accept nothing else. */
  lemma ParseConsumesWireFormat(s: seq<byte>)
    requires Parse(s).msg.Some?
    ensures var d := Parse(s);
      Framable(d.msg.value) && d.cursor == |WireFormat(d.msg.value)| && s[..d.cursor] == WireFormat(d.msg.value)
  {
    var d := Parse(s);
    if FromListUsers(s).msg.Some? {
      assert d == FromListUsers(s);
    } else if FromBroadcast(s).msg.Some? {
      var b := FromBroadcast(s);
      assert d == b;
      BroadcastLayout(s, b.cursor);
    } else {
      assert d == FromUnicast(s);
    }
  }

  /** A stretch opened by the broadcast heading and closed by END is the
      layout of the broadcast of what lies between. */
  lemma BroadcastLayout(s: seq<byte>, n: nat)
    requires 3 <= n <= |s| && s[0] == HEADING && s[1] == BROADCAST && s[n - 1] == END
    ensures s[..n] == WireFormat(Broadcast(s[2..n - 1]))
  {
    assert s[..n] == s[..2] + s[2..n - 1] + [s[n - 1]];
    assert s[..2] == [HEADING, BROADCAST];
  }

  /** Every layout starts with HEADING and ends with END. */
  lemma WireFormatDelimited(m: Message)
    requires !m.Name?
    ensures |WireFormat(m)| >= 3 && WireFormat(m)[0] == HEADING && WireFormat(m)[|WireFormat(m)| - 1] == END
  {
  }

  /** The layout of a framable message holds END nowhere but at its last
      byte, as long as a unicast target holds no END either. */
  lemma WireFormatEndsOnce(m: Message)
    requires Framable(m)
    requires m.Unicast? ==> END !in m.target
    ensures END !in WireFormat(m)[..|WireFormat(m)| - 1]
  {
    match m
    case ListUsers =>
    case Broadcast(text) =>
      assert WireFormat(m)[..|WireFormat(m)| - 1] == [HEADING, BROADCAST] + text;
    case Unicast(target, text) =>
      assert WireFormat(m)[..|WireFormat(m)| - 1] == [HEADING, UNICAST] + target + [TEXT] + text;
  }

  /** The three tags differ, so at most one decoder accepts a given range. */
  lemma AtMostOneDecoderAccepts(s: seq<byte>)
    ensures !(FromListUsers(s).msg.Some? && FromBroadcast(s).msg.Some?)
    ensures !(FromListUsers(s).msg.Some? && FromUnicast(s).msg.Some?)
    ensures !(FromBroadcast(s).msg.Some? && FromUnicast(s).msg.Some?)
  {
    if FromListUsers(s).msg.Some? {
      assert s[1] == s[..3][1] == LIST_USERS;
    }
  }
}
