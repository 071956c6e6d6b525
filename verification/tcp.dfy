/** TCPConnection of tcp.cpp: framing, the write queue and the header/body reader, on one strand, no socket errors. */
module Tcp {
  import opened Basics
  import opened OrderBuffer

  /** The four bytes VT01. */
  const MAGIC: Bytes := [0x56, 0x54, 0x30, 0x31]
  const HEADER_SIZE := 8

  /** What async_send puts on the wire: the length cut to 32 bits, the magic, the message. */
  function Frame(m: Bytes): (f: Bytes)
    ensures |f| == 8 + |m| && f[4..8] == [0x56, 0x54, 0x30, 0x31] && f[8..] == m
    ensures GetKeyLen(f, 0) == |m| % TWO_32
  {
    LengthKept(m, []);
    Le32(|m|) + MAGIC + m
  }

  /** In bytes: the length modulo 2^32, the lowest byte first, then VT01, then the message. */
  lemma FrameIs(m: Bytes)
    ensures var f := Frame(m);
      && |f| == 8 + |m| && Word32(f[0], f[1], f[2], f[3]) == |m| % 0x1_0000_0000
      && f[4] == 0x56 && f[5] == 0x54 && f[6] == 0x30 && f[7] == 0x31 && f[8..] == m
  {
    hide Le32, Word32, GetKeyLen;
    LittleEndian(|m|);
    var b, f := Le32(|m|), Frame(m);
    assert f[0] == b[0] && f[1] == b[1] && f[2] == b[2] && f[3] == b[3];
    assert f[4] == f[4..8][0] && f[5] == f[4..8][1] && f[6] == f[4..8][2] && f[7] == f[4..8][3];
  }

  function FrameAll(ms: seq<Bytes>): Bytes {
    if ms == [] then [] else FrameAll(ms[..|ms| - 1]) + Frame(ms[|ms| - 1])
  }

  lemma FrameAllMore(ms: seq<Bytes>, m: Bytes)
    ensures FrameAll(ms + [m]) == FrameAll(ms) + Frame(m)
  {
    hide Frame;
    assert (ms + [m])[..|ms|] == ms;
  }

  // ---------------------------------------------------------------- the reading of a byte stream

  /** Which read is under way: of a header, of a body of so many bytes, none while a handler runs, or none any more. */
  datatype Phase = Header | Body(len: nat) | Idle | Closed

  /** The messages read from a stream, the read under way, and the bytes it has not got all of. */
  datatype Reading = Reading(frames: seq<Bytes>, phase: Phase, rest: Bytes)

  /** parse_message_length and validate_magic on eight bytes. */
  function HeaderPhase(h: Bytes): Phase
    requires |h| == HEADER_SIZE
  {
    if h[4..] == MAGIC then Body(GetKeyLen(h, 0)) else Closed
  }

  /** Reads in turn, as far as the bytes go. */
  function Feed(phase: Phase, b: Bytes): (r: Reading)
    decreases |b|, if phase.Body? then 1 else 0
  {
    match phase
    case Closed => Reading([], Closed, b)
    case Idle => Reading([], Idle, b)
    case Header => if |b| < HEADER_SIZE then Reading([], Header, b)
        else Feed(HeaderPhase(b[..HEADER_SIZE]), b[HEADER_SIZE..])
    case Body(n) =>
      if |b| < n then Reading([], phase, b)
      else
        var r := Feed(Header, b[n..]);
        Reading([b[..n]] + r.frames, r.phase, r.rest)
  }

  /** Chunks do not matter: reading what was left over together with what comes next goes on where it stopped. */
  /** Eight bytes of header: the length of the body, the lowest byte first, and the magic, without which nothing more
      is read. */
  lemma HeaderDecides(b: Bytes)
    requires |b| >= 8
    ensures var n := Word32(b[0], b[1], b[2], b[3]);
      Feed(Header, b)
      == if b[4..8] == [0x56, 0x54, 0x30, 0x31] then Feed(Body(n), b[8..]) else Reading([], Closed, b[8..])
  {
    assert b[..8][4..] == b[4..8];
  }

  lemma {:induction false} FeedChunks(phase: Phase, a: Bytes, b: Bytes)
    ensures var r := Feed(phase, a); var r' := Feed(r.phase, r.rest + b);
      Feed(phase, a + b) == Reading(r.frames + r'.frames, r'.phase, r'.rest)
    decreases |a|, if phase.Body? then 1 else 0
  {
    hide HeaderPhase;
    match phase {
      case Closed =>
      case Idle =>
      case Header =>
        if |a| >= HEADER_SIZE {
          CutPlus(a, b, HEADER_SIZE);
          FeedChunks(HeaderPhase(a[..HEADER_SIZE]), a[HEADER_SIZE..], b);
        }
      case Body(n) =>
        if |a| >= n {
          CutPlus(a, b, n);
          FeedChunks(Header, a[n..], b);
          var r := Feed(Header, a[n..]);
          var r' := Feed(r.phase, r.rest + b);
          Assoc([a[..n]], r.frames, r'.frames);
        }
    }
  }

  lemma CutPlus(a: Bytes, b: Bytes, n: nat)
    requires n <= |a|
    ensures (a + b)[..n] == a[..n] && (a + b)[n..] == a[n..] + b
  {}

  /** One read: the bytes of the read under way are taken if they are all there. */
  lemma FeedStep(phase: Phase, b: Bytes)
    ensures phase == Header && |b| >= HEADER_SIZE
        ==> Feed(phase, b) == Feed(HeaderPhase(b[..HEADER_SIZE]), b[HEADER_SIZE..])
    ensures phase.Body? && |b| >= phase.len ==>
      var r := Feed(Header, b[phase.len..]); Feed(phase, b) == Reading([b[..phase.len]] + r.frames, r.phase, r.rest)
    ensures phase == Closed || phase == Idle ==> Feed(phase, b) == Reading([], phase, b)
    ensures (phase == Header && |b| < HEADER_SIZE) || (phase.Body? && |b| < phase.len) ==>
      Feed(phase, b) == Reading([], phase, b)
  {}

  lemma HeaderOf(m: Bytes, t: Bytes)
    ensures var s := Frame(m) + t;
      s[HEADER_SIZE..] == m + t && HeaderPhase(s[..HEADER_SIZE]) == Body(|m| % TWO_32)
  {
    hide Le32, GetKeyLen;
    var s := Frame(m) + t;
    var h := s[..HEADER_SIZE];
    assert h == Le32(|m|) + MAGIC;
    assert Le32(|m|) == Le32(|m| % TWO_32) by { SameLow(|m|); }
    Le32Decodes(|m| % TWO_32, [], MAGIC);
    assert [] + Le32(|m| % TWO_32) + MAGIC == h;
  }

  /** A framed message is read as its first |m| mod 2^32 bytes, and the reader goes on behind those. */
  lemma ReadsFrame(m: Bytes, t: Bytes)
    ensures var k := |m| % TWO_32; var r := Feed(Header, m[k..] + t);
      Feed(Header, Frame(m) + t) == Reading([m[..k]] + r.frames, r.phase, r.rest)
  {
    var k := |m| % TWO_32;
    HeaderOf(m, t);
    assert (m + t)[..k] == m[..k] && (m + t)[k..] == m[k..] + t;
  }

  /** A message comes out of its own frame whole exactly when its length fits in 32 bits. */
  lemma FrameCarries(m: Bytes)
    ensures Feed(Header, Frame(m)) == Reading([m], Header, []) <==> |m| < TWO_32
  {
    hide Frame, Feed;
    ReadsFrame(m, []);
    assert Frame(m) + [] == Frame(m);
    var k := |m| % TWO_32;
    if |m| < TWO_32 {
      assert m[..k] == m && m[k..] + [] == [];
      FeedStep(Header, []);
    } else {
      assert ([m[..k]] + Feed(Header, m[k..] + []).frames)[0] == m[..k];
      assert |m[..k]| < |m|;
    }
  }

  /** The frames of messages, read back. */
  lemma {:induction false} FeedFrames(ms: seq<Bytes>)
    requires Short(ms)
    ensures Feed(Header, FrameAll(ms)) == Reading(ms, Header, [])
  {
    if ms != [] {
      var n := |ms| - 1;
      FeedFrames(ms[..n]);
      FeedChunks(Header, FrameAll(ms[..n]), Frame(ms[n]));
      FrameCarries(ms[n]);
      assert [] + Frame(ms[n]) == Frame(ms[n]);
      assert ms[..n] + [ms[n]] == ms;
    }
  }

  /** Whatever part of the stream has arrived, what has been read is the messages so far, each once, in order. */
  lemma FeedPrefix(ms: seq<Bytes>, p: Bytes)
    requires Short(ms) && p <= FrameAll(ms)
    ensures Feed(Header, p).frames <= ms && Feed(Header, p).phase != Closed
  {
    var s := FrameAll(ms);
    FeedFrames(ms);
    assert s == p + s[|p|..];
    FeedChunks(Header, p, s[|p|..]);
    var r := Feed(Header, p);
    assert Feed(Closed, r.rest + s[|p|..]).phase == Closed;
  }

  datatype State = Disconnected | Connecting | Connected

  class TcpConnection {
    var state: State
    // Sending: the queue, and of the socket whether it has a write, how much of it has left, and all that ever left.
    var writeQueue: seq<Bytes>
    var outstanding: bool
    var written: nat
    var wire: Bytes
    ghost var sent: seq<Bytes>
    // Receiving: the read under way, bytes that have arrived but not been read, and what on_frame_ was given.
    var headerBuffer: Bytes
    var bodyBuffer: Bytes
    var phase: Phase
    var inbox: Bytes
    ghost var received: Bytes
    ghost var frames: seq<Bytes>

    constructor ()
      ensures SendValid() && sent == [] && wire == []
      ensures ReadValid() && received == []
    {
      state := Connected;
      writeQueue, outstanding, written, wire, sent := [], false, 0, [], [];
      headerBuffer, bodyBuffer, phase, inbox, received, frames := [], [], Header, [], [], [];
    }

    // -------------------------------------------------------------- sending

    /** A write is outstanding exactly when the queue is not empty; what has left and what is queued make up
        the framed messages in order. */
    ghost predicate SendValid()
      reads this`writeQueue, this`outstanding, this`written, this`wire, this`sent
    {
      && (outstanding <==> writeQueue != [])
      && (if writeQueue == [] then written == 0 else written <= |writeQueue[0]|)
      && wire + Pending(writeQueue, written) == FrameAll(sent)
    }

    /** The bytes still to leave. */
    static function Pending(queue: seq<Bytes>, written: nat): Bytes
      requires queue != [] ==> written <= |queue[0]|
    {
      if queue == [] then [] else queue[0][written..] + Flat(queue[1..])
    }

    static lemma PendingGrows(queue: seq<Bytes>, written: nat, b: Bytes)
      requires if queue == [] then written == 0 else written <= |queue[0]|
      ensures Pending(queue + [b], written) == Pending(queue, written) + b
    {
      if queue == [] {
        assert [b][1..] == [];
      } else {
        assert (queue + [b])[1..] == queue[1..] + [b];
        FlatSnoc(queue[1..], b);
        Assoc(queue[0][written..], Flat(queue[1..]), b);
      }
    }

    static lemma PendingLeaves(queue: seq<Bytes>, written: nat, n: nat)
      requires queue != [] && written + n <= |queue[0]|
      ensures Pending(queue, written) == queue[0][written..written + n] + Pending(queue, written + n)
    {
      var front := queue[0];
      assert front[written..] == front[written..written + n] + front[written + n..];
      Assoc(front[written..written + n], front[written + n..], Flat(queue[1..]));
    }

    static lemma PendingNext(queue: seq<Bytes>)
      requires queue != []
      ensures Pending(queue, |queue[0]|) == Pending(queue[1..], 0)
    {
      assert queue[0][|queue[0]|..] == [];
    }

    static function Flat(bs: seq<Bytes>): Bytes { if bs == [] then [] else bs[0] + Flat(bs[1..]) }

    static lemma {:induction false} FlatSnoc(bs: seq<Bytes>, b: Bytes)
      ensures Flat(bs + [b]) == Flat(bs) + b
    {
      if bs == [] {
        assert bs + [b] == [b] && [b][1..] == [];
      } else {
        assert (bs + [b])[1..] == bs[1..] + [b];
        FlatSnoc(bs[1..], b);
      }
    }

    /** The buffer: length, magic, data. */
    static method Framed(data: Bytes) returns (buffer: Bytes)
      ensures buffer == Frame(data)
    {
      buffer := [];
      buffer := buffer + Le32(|data|);
      buffer := buffer + MAGIC;
      buffer := buffer + data;
    }

    method AsyncSend(data: Bytes)
      requires SendValid()
      modifies this`writeQueue, this`outstanding, this`written, this`sent
      ensures SendValid() && sent == old(sent) + [data]
      ensures writeQueue == old(writeQueue) + [Frame(data)]
    {
      hide Frame, FrameAll, Pending, Flat;
      var buffer := Framed(data);
      FrameAllMore(sent, data);
      var writeInProgress := writeQueue != [];
      PendingGrows(writeQueue, written, buffer);
      Assoc(wire, Pending(writeQueue, written), buffer);
      writeQueue := writeQueue + [buffer];
      sent := sent + [data];
      if !writeInProgress { DoWrite(); }
    }

    /** The socket may have one write at a time: the front of the queue goes to it. */
    method DoWrite()
      requires !outstanding && writeQueue != []
      modifies this`outstanding, this`written
      ensures outstanding && written == 0
    {
      outstanding, written := true, 0;
    }

    /** The network takes some more bytes of the outstanding write. */
    method WriteSome(n: nat)
      requires SendValid() && outstanding && written + n <= |writeQueue[0]|
      modifies this`written, this`wire
      ensures SendValid() && wire == old(wire) + writeQueue[0][old(written)..old(written) + n]
    {
      hide Pending, FrameAll;
      PendingLeaves(writeQueue, written, n);
      Assoc(wire, writeQueue[0][written..written + n], Pending(writeQueue, written + n));
      wire := wire + writeQueue[0][written..written + n];
      written := written + n;
    }

    /** The completion handler of do_write, once all bytes of the front buffer have left. */
    method WriteDone()
      requires SendValid() && outstanding && written == |writeQueue[0]|
      modifies this`writeQueue, this`outstanding, this`written
      ensures SendValid() && writeQueue == old(writeQueue)[1..]
    {
      hide Pending, FrameAll;
      PendingNext(writeQueue);
      outstanding := false;
      writeQueue, written := writeQueue[1..], 0;
      if writeQueue != [] { DoWrite(); }
    }

    /** Nothing is ever on the wire but a prefix of the frames, and all of it once the queue is empty. */
    lemma WireIsFrames()
      requires SendValid()
      ensures wire <= FrameAll(sent) && (writeQueue == [] ==> wire == FrameAll(sent))
    {}

    // -------------------------------------------------------------- receiving

    /** What the bytes that have arrived amount to, when the next read is the given one. */
    ghost predicate Reads(next: Phase)
      reads this`inbox, this`received, this`frames, this`state
    {
      && (var r := Feed(next, inbox); Feed(Header, received) == Reading(frames + r.frames, r.phase, r.rest))
      && state == (if next == Closed then Disconnected else Connected)
    }

    /** Whether the read under way has all its bytes. */
    predicate Ready()
      reads this`phase, this`inbox
    {
      (phase == Header && |inbox| >= HEADER_SIZE) || (phase.Body? && |inbox| >= phase.len)
    }

    /** All bytes that arrived have been read as far as they go, and no handler is running. */
    ghost predicate ReadValid()
      reads this`phase, this`inbox, this`received, this`frames, this`state
    {
      Reads(phase) && phase != Idle && !Ready()
    }

    /** Then the reader has got what the whole stream so far holds. */
    lemma ReadsAll()
      requires ReadValid()
      ensures Feed(Header, received) == Reading(frames, phase, inbox)
    {
      FeedStep(phase, inbox);
      assert frames + [] == frames;
    }

    method NetworkClose()
      modifies this`state
      ensures state == Disconnected
    {
      if state == Disconnected { return; }
      state := Disconnected;
    }

    method StartReadHeader()
      requires phase == Idle
      modifies this`phase
      ensures phase == Header
    {
      phase := Header;
    }

    method StartReadBody(len: nat)
      requires phase == Idle
      modifies this`phase, this`bodyBuffer
      ensures phase == Body(len)
    {
      bodyBuffer := seq(len, i => 0);
      phase := Body(len);
    }

    /** The handler of the header read, with its eight bytes in the buffer. */
    method HeaderDone()
      requires |headerBuffer| == HEADER_SIZE && phase == Idle
      modifies this`phase, this`bodyBuffer, this`state
      ensures phase == HeaderPhase(headerBuffer)
      ensures if phase == Closed then state == Disconnected else state == old(state)
    {
      var len := GetKeyLen(headerBuffer, 0);
      if headerBuffer[4..] != MAGIC {
        NetworkClose();
        phase := Closed;
        return;
      }
      StartReadBody(len);
    }

    /** The header read has its bytes: it ends and its handler runs. */
    method CompleteHeader()
      requires Reads(phase) && phase == Header && |inbox| >= HEADER_SIZE
      modifies this`phase, this`bodyBuffer, this`headerBuffer, this`inbox, this`state
      ensures Reads(phase) && (phase.Body? || phase == Closed) && |inbox| < |old(inbox)|
    {
      hide Feed;
      FeedStep(phase, inbox);
      headerBuffer, inbox := inbox[..HEADER_SIZE], inbox[HEADER_SIZE..];
      phase := Idle;
      HeaderDone();
    }

    /** The body read has its bytes: it ends, and the frame is what on_frame_ is to be given. No read is under way
        until its handler asks for one. */
    method CompleteBody()
      requires Reads(phase) && phase.Body? && |inbox| >= phase.len
      modifies this`phase, this`bodyBuffer, this`inbox, this`frames
      ensures phase == Idle && Reads(Header) && |inbox| <= |old(inbox)|
      ensures bodyBuffer == old(inbox)[..old(phase).len] && frames == old(frames) + [bodyBuffer]
    {
      hide Feed;
      FeedStep(phase, inbox);
      bodyBuffer, inbox := inbox[..phase.len], inbox[phase.len..];
      phase := Idle;
      Assoc(frames, [bodyBuffer], Feed(Header, inbox).frames);
      frames := frames + [bodyBuffer];
    }

    /** More bytes stand behind those that have not been read. */
    method Receive(chunk: Bytes)
      requires ReadValid()
      modifies this`inbox, this`received
      ensures Reads(phase) && received == old(received) + chunk && inbox == old(inbox) + chunk
    {
      hide Feed;
      ReadsAll();
      FeedChunks(Header, received, chunk);
      inbox := inbox + chunk;
      received := received + chunk;
    }

    /** A chunk of any size arrives where on_frame_ only takes the frame: every read it completes has its
        handler run. */
    method Arrive(chunk: Bytes)
      requires ReadValid()
      modifies this`phase, this`bodyBuffer, this`headerBuffer, this`state, this`inbox, this`received, this`frames
      ensures ReadValid() && received == old(received) + chunk && old(frames) <= frames
    {
      hide Reads;
      Receive(chunk);
      while Ready()
        invariant received == old(received) + chunk && old(frames) <= frames && Reads(phase) && phase != Idle
        decreases |inbox|, if phase.Body? then 1 else 0
      {
        if phase == Header {
          CompleteHeader();
        } else {
          CompleteBody();
          StartReadHeader();
        }
      }
    }
  }

  /** End to end: what the receiver has been given is a prefix of what was sent, and all of it once everything has
      arrived. */
  lemma Delivery(a: TcpConnection, b: TcpConnection)
    requires a.SendValid() && b.ReadValid() && Short(a.sent) && b.received <= a.wire
    ensures b.frames <= a.sent && b.phase != Closed
    ensures a.writeQueue == [] && b.received == a.wire ==> b.frames == a.sent && b.phase == Header && b.inbox == []
  {
    hide Feed;
    a.WireIsFrames();
    b.ReadsAll();
    FeedPrefix(a.sent, b.received);
    FeedFrames(a.sent);
  }

  // ---------------------------------------------------------------- whole runs

  /** A message is sent; the network takes bytes of the outstanding write; its completion handler runs; bytes arrive. */
  datatype Event = Send(m: Bytes) | Take(n: nat) | Finish | Reach(n: nat)

  function Sends(es: seq<Event>): seq<Bytes> {
    if es == [] then [] else Sends(es[..|es| - 1]) + (if es[|es| - 1].Send? then [es[|es| - 1].m] else [])
  }

  /** One event, where it can happen. */
  method Happen(a: TcpConnection, b: TcpConnection, e: Event, arrived0: nat) returns (arrived: nat)
    requires a != b && a.SendValid() && b.ReadValid() && arrived0 <= |a.wire| && b.received == a.wire[..arrived0]
    modifies a`writeQueue, a`outstanding, a`written, a`wire, a`sent
    modifies b`phase, b`bodyBuffer, b`headerBuffer, b`state, b`inbox, b`received, b`frames
    ensures a.SendValid() && b.ReadValid() && arrived <= |a.wire| && b.received == a.wire[..arrived]
    ensures a.sent == old(a.sent) + if e.Send? then [e.m] else []
  {
    arrived := arrived0;
    match e {
      case Send(m) => a.AsyncSend(m);
      case Take(n) =>
        if a.outstanding && a.written + n <= |a.writeQueue[0]| { a.WriteSome(n); }
      case Finish =>
        if a.outstanding && a.written == |a.writeQueue[0]| { a.WriteDone(); }
      case Reach(n) =>
        if arrived + n <= |a.wire| {
          b.Arrive(a.wire[arrived..arrived + n]);
          arrived := arrived + n;
          assert a.wire[..arrived] == a.wire[..arrived0] + a.wire[arrived0..arrived];
        }
    }
  }

  /** Every run of two connections, in whatever chunks bytes leave and arrive: the messages come out as they were
      sent, each once and in order, and all of them once nothing is on its way. */
  method Run(events: seq<Event>) returns (a: TcpConnection, b: TcpConnection)
    requires Short(Sends(events))
    ensures a.SendValid() && b.ReadValid() && a.sent == Sends(events)
    ensures a.outstanding <==> a.writeQueue != []
    ensures a.wire <= FrameAll(Sends(events)) && (a.writeQueue == [] ==> a.wire == FrameAll(Sends(events)))
    ensures b.frames <= Sends(events) && b.state == Connected
    ensures a.writeQueue == [] && b.received == a.wire ==> b.frames == Sends(events)
  {
    hide Feed, FrameAll, Sends;
    NoSends();
    a := new TcpConnection();
    b := new TcpConnection();
    var arrived: nat := 0;
    var i := 0;
    assert events[..0] == [];
    while i < |events|
      invariant i <= |events| && a != b && fresh(a) && fresh(b) && a.SendValid() && b.ReadValid()
      invariant arrived <= |a.wire| && b.received == a.wire[..arrived] && a.sent == Sends(events[..i])
    {
      SendsMore(events, i);
      arrived := Happen(a, b, events[i], arrived);
      i := i + 1;
    }
    assert events[..i] == events;
    a.WireIsFrames();
    Delivery(a, b);
  }

  lemma NoSends()
    ensures Sends([]) == []
  {}

  lemma SendsMore(es: seq<Event>, i: nat)
    requires i < |es|
    ensures Sends(es[..i + 1]) == Sends(es[..i]) + if es[i].Send? then [es[i].m] else []
  {
    assert es[..i + 1][..i] == es[..i];
  }
}
