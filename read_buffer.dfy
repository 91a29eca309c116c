/** read_buffer<size>: a bounded byte buffer per connection. Each read appends
    at most one receive, looks for a frame running from a heading byte to the
    first end byte after it, hands that frame to the decoder of the connection's
    direction and drops what the decoder consumed. */
module ReadBuffers {
  import opened Bytes

  /** What read is given besides the connection: the parser, which decodes
      a frame and reports where it stopped, and the heading and end tokens. */
  datatype Protocol<M> = Protocol(parse: seq<byte> -> Decoded<M>, heading: byte, endToken: byte)

  /** The parser stops inside the frame it is given. */
  ghost predicate WellBehaved<M>(p: Protocol<M>)
  {
    forall s: seq<byte> :: p.parse(s).cursor <= |s|
  }

  /** What a receive may deliver: `recv(n)` holds at most `n` bytes. */
  ghost predicate Receivable(recv: nat -> seq<byte>)
  {
    forall n: nat :: |recv(n)| <= n
  }

  /** The bytes one receive appends to `buffer`: none when it is full,
      otherwise what arrives for the room that is left. */
  function Received(buffer: seq<byte>, capacity: nat, recv: nat -> seq<byte>): (r: seq<byte>)
    requires |buffer| <= capacity && Receivable(recv)
    ensures |buffer| + |r| <= capacity
    ensures |buffer| == capacity ==> r == []
  {
    if |buffer| == capacity then [] else recv(capacity - |buffer|)
  }

  /** The outcome of a read: at most one message, and the position `cut`
      before which the buffer is dropped (0 keeps all of it, its length
      clears it). */
  datatype Extracted<M> = Extracted(msg: Option<M>, cut: nat)

  /** One pass of the frame loop. `Again(at, next)`: the frame whose heading is
      at `at` did not decode and the decoder left the cursor at `next`. */
  datatype Step<M> = Finished(result: Extracted<M>) | Again(at: nat, next: nat)

  /** One iteration of the `while (!message)` loop of read, from `begin`, as
      written: find the heading, then the first end after it; clear the buffer
      when there is no heading, and when there is no end and the buffer is
      full; otherwise decode the frame. On `Again` the loop as written resumes
      at `next`. */
  function ScanStep<M>(p: Protocol<M>, buf: seq<byte>, capacity: nat, begin: nat): (r: Step<M>)
    requires begin <= |buf| && WellBehaved(p)
    ensures r.Finished? ==> r.result.cut <= |buf|
    ensures r.Finished? && r.result.msg.None? ==> r.result.cut == 0 || r.result.cut == |buf|
    ensures r.Again? ==> begin <= r.at < |buf| && r.at <= r.next <= |buf| && buf[r.at] == p.heading
  {
    var h := Find(buf, begin, p.heading);
    if h == |buf| then Finished(Extracted(None, |buf|))
    else
      var e := Find(buf, h, p.endToken);
      if e == |buf| then Finished(Extracted(None, if |buf| == capacity then |buf| else 0))
      else
        var d := p.parse(buf[h..e + 1]);
        if d.msg.Some? then Finished(Extracted(d.msg, h + d.cursor))
        else Again(h, h + d.cursor)
  }

  /** Where scanning resumes after a frame at `at` that does not decode, the
      decoder having stopped at `next`: there, or just past the heading when
      the decoder did not move. */
  function Resume(at: nat, next: nat): nat
  {
    if next > at then next else at + 1
  }

  /** The frame loop with the restart point corrected: after a frame that does
      not decode, scanning resumes past its heading even when the decoder left
      the cursor on it. */
  function Extract<M>(p: Protocol<M>, buf: seq<byte>, capacity: nat, begin: nat): (r: Extracted<M>)
    requires begin <= |buf| && WellBehaved(p)
    ensures r.cut <= |buf|
    decreases |buf| - begin
  {
    match ScanStep(p, buf, capacity, begin)
    case Finished(result) => result
    case Again(at, next) => Extract(p, buf, capacity, Resume(at, next))
  }

  class ReadBuffer {
    const capacity: nat
    var buffer: seq<byte>

    /** The buffer never grows past its capacity. */
    ghost predicate Valid()
      reads this
    {
      |buffer| <= capacity
    }

    /** An empty buffer. */
    constructor(capacity: nat)
      ensures Valid()
      ensures this.capacity == capacity && buffer == []
    {
      this.capacity := capacity;
      buffer := [];
    }

    /** The private read(connection): append one receive, unless full. */
    method Receive(recv: nat -> seq<byte>)
      requires Valid() && Receivable(recv)
      modifies this
      ensures Valid()
      ensures buffer == old(buffer) + Received(old(buffer), capacity, recv)
    {
      var current := |buffer|;
      if current == capacity {
        return;
      }
      var added := recv(capacity - current);
      buffer := buffer + added;
    }

    /** The public read: receive, then extract at most one message and drop
        the front of the buffer that extraction consumed. */
    method Read<M>(recv: nat -> seq<byte>, p: Protocol<M>) returns (message: Option<M>)
      requires Valid() && Receivable(recv) && WellBehaved(p)
      modifies this
      ensures Valid()
      ensures var buf := old(buffer) + Received(old(buffer), capacity, recv);
        var r := Extract(p, buf, capacity, 0);
        message == r.msg && buffer == buf[r.cut..]
    {
      Receive(recv);
      var r := Scan(p, buffer, capacity);
      message, buffer := r.msg, buffer[r.cut..];
    }
  }

  /** The `while (!message)` loop of read over the bytes `buf` held, with the
      restart point corrected. */
  method Scan<M>(p: Protocol<M>, buf: seq<byte>, capacity: nat) returns (r: Extracted<M>)
    requires WellBehaved(p)
    ensures r == Extract(p, buf, capacity, 0)
  {
    var begin: nat := 0;
    var message: Option<M> := None;
    while message.None?
      invariant begin <= |buf|
      invariant message.None? ==> Extract(p, buf, capacity, begin) == Extract(p, buf, capacity, 0)
      invariant message.Some? ==> Extract(p, buf, capacity, 0) == Extracted(message, begin)
      decreases |buf| - begin, if message.None? then 1 else 0
    {
      var step := Pass(p, buf, capacity, begin);
      PassAdvances(p, buf, capacity, begin, step);
      match step
      case Finished(result) =>
        if result.msg.None? {
          return result;
        }
        message, begin := result.msg, result.cut;
      case Again(at, next) =>
        begin := Resume(at, next);
    }
    r := Extracted(message, begin);
  }

  /** The body of that loop: find the heading, then the first end after it,
      then hand the frame to the parser. */
  method Pass<M>(p: Protocol<M>, buf: seq<byte>, capacity: nat, begin: nat) returns (step: Step<M>)
    requires begin <= |buf| && WellBehaved(p)
    ensures step == ScanStep(p, buf, capacity, begin)
  {
    var at := Find(buf, begin, p.heading);
    if at == |buf| {
      return Finished(Extracted(None, |buf|));
    }
    var msgEnd := Find(buf, at, p.endToken);
    if msgEnd == |buf| {
      return Finished(Extracted(None, if |buf| == capacity then |buf| else 0));
    }
    var d := p.parse(buf[at..msgEnd + 1]);
    ScanStepOnFrame(p, buf, capacity, begin, at, msgEnd);
    if d.msg.Some? {
      step := Finished(Extracted(d.msg, at + d.cursor));
    } else {
      step := Again(at, at + d.cursor);
    }
  }

  // ---------------------------------------------------------------------------
  // One pass of the loop

  /** A pass either ends the loop with the outcome of extraction or moves
      the scan forward without changing that outcome. */
  lemma PassAdvances<M>(p: Protocol<M>, buf: seq<byte>, capacity: nat, begin: nat, step: Step<M>)
    requires begin <= |buf| && WellBehaved(p)
    requires step == ScanStep(p, buf, capacity, begin)
    ensures step.Finished? ==> Extract(p, buf, capacity, begin) == step.result && step.result.cut <= |buf|
    ensures step.Again? ==>
      begin < Resume(step.at, step.next) <= |buf|
      && Extract(p, buf, capacity, begin) == Extract(p, buf, capacity, Resume(step.at, step.next))
  {
    match step
    case Finished(_) => ExtractFinished(p, buf, capacity, begin);
    case Again(at, next) => ExtractAgain(p, buf, capacity, begin, at, next);
  }

  /** A pass that ends the loop gives the outcome of extraction. */
  lemma ExtractFinished<M>(p: Protocol<M>, buf: seq<byte>, capacity: nat, begin: nat)
    requires begin <= |buf| && WellBehaved(p)
    requires ScanStep(p, buf, capacity, begin).Finished?
    ensures Extract(p, buf, capacity, begin) == ScanStep(p, buf, capacity, begin).result
  {
  }

  /** A pass over a frame that does not decode hands over to the next one. */
  lemma ExtractAgain<M>(p: Protocol<M>, buf: seq<byte>, capacity: nat, begin: nat, at: nat, next: nat)
    requires begin <= |buf| && WellBehaved(p)
    requires ScanStep(p, buf, capacity, begin) == Again(at, next)
    ensures Extract(p, buf, capacity, begin) == Extract(p, buf, capacity, Resume(at, next))
  {
  }

  /** A pass whose searches land on a frame hands it to the parser. */
  lemma ScanStepOnFrame<M>(p: Protocol<M>, buf: seq<byte>, capacity: nat, begin: nat, h: nat, e: nat)
    requires begin <= h <= e < |buf| && WellBehaved(p)
    requires Find(buf, begin, p.heading) == h && Find(buf, h, p.endToken) == e
    ensures var d := p.parse(buf[h..e + 1]);
      d.cursor <= e + 1 - h
      && ScanStep(p, buf, capacity, begin)
         == if d.msg.Some? then Finished(Extracted(d.msg, h + d.cursor)) else Again(h, h + d.cursor)
  {
    assert p.parse(buf[h..e + 1]).cursor <= |buf[h..e + 1]|;
  }

  /** A pass that finds no heading clears the buffer. */
  lemma PassNoHeading<M>(p: Protocol<M>, buf: seq<byte>, capacity: nat, begin: nat)
    requires begin <= |buf| && WellBehaved(p)
    requires Find(buf, begin, p.heading) == |buf|
    ensures Extract(p, buf, capacity, begin) == Extracted(None, |buf|)
  {
    assert ScanStep(p, buf, capacity, begin) == Finished(Extracted(None, |buf|));
    ExtractFinished(p, buf, capacity, begin);
  }

  /** A pass that finds a heading but no end after it keeps the buffer, or
      clears it when it is full. */
  lemma PassNoEnd<M>(p: Protocol<M>, buf: seq<byte>, capacity: nat, begin: nat, h: nat)
    requires begin <= h < |buf| && WellBehaved(p)
    requires Find(buf, begin, p.heading) == h && Find(buf, h, p.endToken) == |buf|
    ensures Extract(p, buf, capacity, begin) == Extracted(None, if |buf| == capacity then |buf| else 0)
  {
    assert ScanStep(p, buf, capacity, begin) == Finished(Extracted(None, if |buf| == capacity then |buf| else 0));
    ExtractFinished(p, buf, capacity, begin);
  }

  /** A pass whose frame decodes ends extraction where the decoder stopped. */
  lemma PassDecodes<M>(p: Protocol<M>, buf: seq<byte>, capacity: nat, begin: nat, h: nat, e: nat)
    requires begin <= h <= e < |buf| && WellBehaved(p)
    requires Find(buf, begin, p.heading) == h && Find(buf, h, p.endToken) == e
    requires p.parse(buf[h..e + 1]).msg.Some?
    ensures var d := p.parse(buf[h..e + 1]);
      h + d.cursor <= |buf| && Extract(p, buf, capacity, begin) == Extracted(d.msg, h + d.cursor)
  {
    ScanStepOnFrame(p, buf, capacity, begin, h, e);
    ExtractFinished(p, buf, capacity, begin);
  }

  /** A pass whose frame does not decode hands over to the position past the
      decoder's cursor, or past the heading when the cursor did not move. */
  lemma SkipFound<M>(p: Protocol<M>, buf: seq<byte>, capacity: nat, begin: nat, h: nat, e: nat)
    requires begin <= h <= e < |buf| && WellBehaved(p)
    requires Find(buf, begin, p.heading) == h && Find(buf, h, p.endToken) == e
    requires p.parse(buf[h..e + 1]).msg.None?
    ensures var c := p.parse(buf[h..e + 1]).cursor;
      c <= e + 1 - h
      && Extract(p, buf, capacity, begin) == Extract(p, buf, capacity, Resume(h, h + c))
  {
    SkipStep(p, buf, capacity, begin, h, e);
    ExtractAgain(p, buf, capacity, begin, h, h + p.parse(buf[h..e + 1]).cursor);
  }

  /** The pass itself: a frame that does not decode sends the scan on from
      the decoder's cursor. */
  lemma SkipStep<M>(p: Protocol<M>, buf: seq<byte>, capacity: nat, begin: nat, h: nat, e: nat)
    requires begin <= h <= e < |buf| && WellBehaved(p)
    requires Find(buf, begin, p.heading) == h && Find(buf, h, p.endToken) == e
    requires p.parse(buf[h..e + 1]).msg.None?
    ensures var c := p.parse(buf[h..e + 1]).cursor;
      c <= e + 1 - h && ScanStep(p, buf, capacity, begin) == Again(h, h + c)
  {
    ScanStepOnFrame(p, buf, capacity, begin, h, e);
  }

  // ---------------------------------------------------------------------------
  // Properties

  /** When no message comes out, the buffer is kept whole or cleared: the
      unfinished frame stays for the next read, garbage goes. */
  lemma {:induction false} ExtractKeepsOrClears<M>(p: Protocol<M>, buf: seq<byte>, capacity: nat, begin: nat)
    requires begin <= |buf| && WellBehaved(p)
    ensures var r := Extract(p, buf, capacity, begin);
      r.msg.None? ==> r.cut == 0 || r.cut == |buf|
    decreases |buf| - begin
  {
    match ScanStep(p, buf, capacity, begin)
    case Finished(_) =>
      ExtractFinished(p, buf, capacity, begin);
    case Again(at, next) =>
      ExtractAgain(p, buf, capacity, begin, at, next);
      ExtractKeepsOrClears(p, buf, capacity, Resume(at, next));
  }

  /** Without a heading from `begin` on, the buffer is garbage: it is cleared
      and nothing is returned. */
  lemma ExtractGarbage<M>(p: Protocol<M>, buf: seq<byte>, capacity: nat, begin: nat)
    requires begin <= |buf| && WellBehaved(p)
    requires p.heading !in buf[begin..]
    ensures Extract(p, buf, capacity, begin) == Extracted(None, |buf|)
  {
    forall i | begin <= i < |buf|
      ensures buf[i] != p.heading
    {
      assert buf[i] == buf[begin..][i - begin];
    }
    FindIs(buf, begin, p.heading, |buf|);
    PassNoHeading(p, buf, capacity, begin);
  }

  /** A heading with no end after it is an unfinished frame: it is kept for
      the next read, unless the buffer is full, in which case the frame can
      never fit and the buffer is cleared. */
  lemma ExtractPartial<M>(p: Protocol<M>, buf: seq<byte>, capacity: nat, begin: nat)
    requires begin <= |buf| && WellBehaved(p)
    requires p.heading in buf[begin..]
    requires p.endToken !in buf[Find(buf, begin, p.heading)..]
    ensures Extract(p, buf, capacity, begin) == Extracted(None, if |buf| == capacity then |buf| else 0)
  {
    var k :| 0 <= k < |buf[begin..]| && buf[begin..][k] == p.heading;
    assert buf[begin + k] == p.heading;
    var h := Find(buf, begin, p.heading);
    forall i | h <= i < |buf|
      ensures buf[i] != p.endToken
    {
      assert buf[i] == buf[h..][i - h];
    }
    FindIs(buf, h, p.endToken, |buf|);
    PassNoEnd(p, buf, capacity, begin, h);
  }

  /** A strict prefix of a frame, in a buffer that is not full, is kept
      whole: the heading is there, its END has not arrived yet. */
  lemma ExtractFramePrefix<M>(p: Protocol<M>, frame: seq<byte>, k: nat, capacity: nat)
    requires WellBehaved(p)
    requires |frame| > 0 && frame[0] == p.heading && p.endToken !in frame[..|frame| - 1]
    requires 0 < k < |frame| && k != capacity
    ensures Extract(p, frame[..k], capacity, 0) == Extracted(None, 0)
  {
    var buf := frame[..k];
    assert buf[0..][0] == p.heading;
    FindIs(buf, 0, p.heading, 0);
    assert buf[0..] == frame[..|frame| - 1][..k];
    ExtractPartial(p, buf, capacity, 0);
  }

  /** The searches of one loop pass land on the given frame: `h` is the first
      heading from `begin` and `e` the first end from `h`. */
  lemma FindsFrame(buf: seq<byte>, heading: byte, endToken: byte, begin: nat, h: nat, e: nat)
    requires begin <= h <= e < |buf|
    requires buf[h] == heading && heading !in buf[begin..h]
    requires buf[e] == endToken && endToken !in buf[h..e]
    ensures Find(buf, begin, heading) == h && Find(buf, h, endToken) == e
  {
    forall i | begin <= i < h
      ensures buf[i] != heading
    {
      assert buf[i] == buf[begin..h][i - begin];
    }
    FindIs(buf, begin, heading, h);
    forall i | h <= i < e
      ensures buf[i] != endToken
    {
      assert buf[i] == buf[h..e][i - h];
    }
    FindIs(buf, h, endToken, e);
  }

  /** The first frame after `begin`, from its heading to the first end after
      it, is what the decoder is given; when it decodes, everything up to where
      the decoder stopped is dropped, leading garbage included. */
  lemma ExtractFirstFrame<M>(p: Protocol<M>, buf: seq<byte>, capacity: nat, begin: nat, h: nat, e: nat)
    requires begin <= h <= e < |buf| && WellBehaved(p)
    requires buf[h] == p.heading && p.heading !in buf[begin..h]
    requires buf[e] == p.endToken && p.endToken !in buf[h..e]
    requires p.parse(buf[h..e + 1]).msg.Some?
    ensures Extract(p, buf, capacity, begin)
         == Extracted(p.parse(buf[h..e + 1]).msg, h + p.parse(buf[h..e + 1]).cursor)
  {
    FindsFrame(buf, p.heading, p.endToken, begin, h, e);
    PassDecodes(p, buf, capacity, begin, h, e);
  }

  /** A frame that decodes whole, behind bytes holding no heading: the read
      returns its message and keeps exactly what follows it. */
  lemma ExtractFrameAfterGarbage<M>(p: Protocol<M>, garbage: seq<byte>, frame: seq<byte>, rest: seq<byte>, capacity: nat)
    requires WellBehaved(p)
    requires p.heading !in garbage
    requires |frame| > 0 && frame[0] == p.heading && frame[|frame| - 1] == p.endToken
    requires p.endToken !in frame[..|frame| - 1]
    requires p.parse(frame).msg.Some? && p.parse(frame).cursor == |frame|
    ensures var buf := garbage + frame + rest;
      Extract(p, buf, capacity, 0) == Extracted(p.parse(frame).msg, |garbage| + |frame|)
      && buf[|garbage| + |frame|..] == rest
  {
    var buf := garbage + frame + rest;
    var h, e := |garbage|, |garbage| + |frame| - 1;
    assert buf[0..h] == garbage;
    assert buf[h..e] == frame[..|frame| - 1];
    assert buf[h..e + 1] == frame;
    ExtractFirstFrame(p, buf, capacity, 0, h, e);
    assert buf[h + |frame|..] == rest;
  }

  /** A frame that does not decode is skipped: extraction carries on after it,
      from where the decoder stopped or just past its heading. */
  lemma ExtractSkipsFrame<M>(p: Protocol<M>, buf: seq<byte>, capacity: nat, begin: nat, h: nat, e: nat)
    requires begin <= h <= e < |buf| && WellBehaved(p)
    requires buf[h] == p.heading && p.heading !in buf[begin..h]
    requires buf[e] == p.endToken && p.endToken !in buf[h..e]
    requires p.parse(buf[h..e + 1]).msg.None?
    ensures var c := p.parse(buf[h..e + 1]).cursor;
      c <= e + 1 - h
      && Extract(p, buf, capacity, begin) == Extract(p, buf, capacity, Resume(h, h + c))
  {
    FindsFrame(buf, p.heading, p.endToken, begin, h, e);
    SkipFound(p, buf, capacity, begin, h, e);
  }

  /** The loop as written spins: once a frame fails to decode without the
      decoder moving the cursor, the next iteration starts at the same heading,
      finds the same frame and fails the same way, for ever. */
  lemma ScanStepSpins<M>(p: Protocol<M>, buf: seq<byte>, capacity: nat, begin: nat, h: nat)
    requires begin <= |buf| && WellBehaved(p)
    requires ScanStep(p, buf, capacity, begin) == Again(h, h)
    ensures ScanStep(p, buf, capacity, h) == Again(h, h)
  {
    assert Find(buf, begin, p.heading) == h;
    FindIs(buf, h, p.heading, h);
  }
}
