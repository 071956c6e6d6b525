/** CMClient of cmclient.cpp with the handlers of encryption_handler.cpp and multi_handler.cpp: one session
    on one strand. */
module Session {
  import opened Basics
  import opened OrderBuffer
  import opened Multi
  import Tcp

  /** A message handed to send_msg_impl, with the mode the channel was in. */
  datatype Sent = Sent(secured: bool, plain: Bytes)

  function AllSent(secured: bool, ms: seq<Bytes>): (r: seq<Sent>)
    ensures |r| == |ms| && forall i :: 0 <= i < |ms| ==> r[i] == Sent(secured, ms[i])
  {
    seq(|ms|, i requires 0 <= i < |ms| => Sent(secured, ms[i]))
  }

  // ---------------------------------------------------------------- what dispatching means

  /** One dispatched frame: the mode after it, and what its handler and the listeners it calls send. Listeners of a
      result hear of it when the mode is set already. */
  function Step(env: Env, secured: bool, d: Bytes): (bool, seq<Sent>)
    requires |d| >= KEYLEN_SIZE
  {
    if EMsg(d) == REQUEST then
      match env.request(d)
      case Malformed => (secured, [])
      case Refused => (secured, AllSent(secured, env.listener(false).sends))
      case Reply(m) => (secured, [Sent(secured, m)])
    else if EMsg(d) == RESULT then
      match env.result(d)
      case None => (secured, [])
      case Some(ok) => (ok, AllSent(ok, env.listener(ok).sends))
    else if (EMsg(d) != RESPONSE && EMsg(d) < PROTO_MASK) || IsMulti(d) then (secured, [])
    else (secured, AllSent(secured, env.leaf(d).sends))
  }

  /** Whether dispatching the frame ends in an exception. Frames inside a Multi keep theirs to themselves. */
  predicate Throws(env: Env, d: Bytes)
    requires |d| >= KEYLEN_SIZE
  {
    if EMsg(d) == REQUEST then env.request(d) == Malformed || (env.request(d) == Refused && env.listener(false).throws)
    else if EMsg(d) == RESULT then env.result(d).None? || env.listener(env.result(d).value).throws
    else if EMsg(d) != RESPONSE && EMsg(d) < PROTO_MASK then false
    else if IsMulti(d) then env.multi(d).None?
    else env.leaf(d).throws
  }

  /** Frames dispatched one after another. */
  function Steps(env: Env, secured: bool, fs: seq<Bytes>): (bool, seq<Sent>)
    requires Sized(fs)
    decreases |fs|
  {
    if fs == [] then (secured, [])
    else
      var (m, out) := Step(env, secured, fs[0]);
      var (m', out') := Steps(env, m, fs[1..]);
      (m', out + out')
  }

  lemma {:induction false} StepsAppend(env: Env, secured: bool, a: seq<Bytes>, b: seq<Bytes>)
    requires Sized(a) && Sized(b)
    ensures Sized(a + b)
    ensures var (m, out) := Steps(env, secured, a); var (m', out') := Steps(env, m, b);
      Steps(env, secured, a + b) == (m', out + out')
    decreases |a|
  {
    hide Step;
    if a == [] {
      assert a + b == b;
      assert [] + Steps(env, secured, b).1 == Steps(env, secured, b).1;
    } else {
      StepsFirst(env, secured, a);
      assert (a + b)[1..] == a[1..] + b;
      StepsFirst(env, secured, a + b);
      StepsAppend(env, Step(env, secured, a[0]).0, a[1..], b);
      Assoc(Step(env, secured, a[0]).1, Steps(env, Step(env, secured, a[0]).0, a[1..]).1,
          Steps(env, Steps(env, secured, a).0, b).1);
    }
  }

  lemma StepsFirst(env: Env, secured: bool, fs: seq<Bytes>)
    requires Sized(fs) && fs != []
    ensures Steps(env, secured, fs).0 == Steps(env, Step(env, secured, fs[0]).0, fs[1..]).0
    ensures Steps(env, secured, fs).1
        == Step(env, secured, fs[0]).1 + Steps(env, Step(env, secured, fs[0]).0, fs[1..]).1
  {}

  // ---------------------------------------------------------------- frames from the wire

  /** The data a frame stands for: decrypted when the channel is secured and the frame came from the wire. */
  function Decoded(env: Env, secured: bool, frame: Bytes, encrypt: bool): Option<Bytes> {
    if encrypt && secured then env.decrypt(frame) else Some(frame)
  }

  /** Whether consume_frame throws on a frame from the wire: its decryption does. */
  predicate Stops(env: Env, secured: bool, frame: Bytes) {
    |frame| >= KEYLEN_SIZE && Decoded(env, secured, frame, true).None?
  }

  /** The frames dispatched for a frame from the wire. */
  ghost function Dispatched(env: Env, secured: bool, frame: Bytes): (r: seq<Bytes>)
    requires Lawful(env)
    ensures Sized(r)
  {
    var d := Decoded(env, secured, frame, true);
    if |frame| < KEYLEN_SIZE || d.None? then [] else
    FlattenSized(env, d.value);
    Flatten(env, d.value)
  }

  /** What frames from the wire lead to: the mode, the frames dispatched and the messages sent. */
  datatype Wiring = Wiring(secured: bool, handled: seq<Bytes>, outs: seq<Sent>)

  ghost function Wired(env: Env, secured: bool, fs: seq<Bytes>): Wiring
    requires Lawful(env)
  {
    if fs == [] then Wiring(secured, [], [])
    else
      var w := Wired(env, secured, fs[..|fs| - 1]);
      var data := Dispatched(env, w.secured, fs[|fs| - 1]);
      var (m, out) := Steps(env, w.secured, data);
      Wiring(m, w.handled + data, w.outs + out)
  }

  lemma WiredMore(env: Env, secured: bool, fs: seq<Bytes>, f: Bytes)
    requires Lawful(env)
    ensures var w := Wired(env, secured, fs); var data := Dispatched(env, w.secured, f);
      var (m, out) := Steps(env, w.secured, data);
      Wired(env, secured, fs + [f]) == Wiring(m, w.handled + data, w.outs + out)
  {
    hide Dispatched, Steps;
    assert (fs + [f])[..|fs|] == fs;
  }

  /** Whether one of the frames, consumed in turn, throws. */
  ghost predicate StopsSome(env: Env, secured: bool, fs: seq<Bytes>)
    requires Lawful(env)
  {
    fs != [] && (StopsSome(env, secured, fs[..|fs| - 1])
        || Stops(env, Wired(env, secured, fs[..|fs| - 1]).secured, fs[|fs| - 1]))
  }

  lemma StopsMore(env: Env, secured: bool, fs: seq<Bytes>, f: Bytes)
    requires Lawful(env)
    ensures StopsSome(env, secured, fs + [f])
        == (StopsSome(env, secured, fs) || Stops(env, Wired(env, secured, fs).secured, f))
  {
    hide Stops, Wired;
    assert (fs + [f])[..|fs|] == fs;
  }

  class CMClient {
    const env: Env
    const connection: Tcp.TcpConnection
    var channelSecured: bool
    /** The random source: the nonce of the next message is its number. */
    var nonce: nat
    ghost var handled: seq<Bytes>
    ghost var outs: seq<Sent>

    /** Every frame given to async_send is the message itself, or its ciphertext once the channel was secured. */
    ghost predicate Valid()
      reads this, connection`writeQueue, connection`outstanding, connection`written, connection`wire, connection`sent
    {
      && Lawful(env) && connection.SendValid()
      && nonce == |outs| == |connection.sent|
      && (forall i :: 0 <= i < |outs| ==>
          connection.sent[i] == if outs[i].secured then env.encrypt(i, outs[i].plain) else outs[i].plain)
    }

    constructor (env: Env, connection: Tcp.TcpConnection)
      requires Lawful(env) && connection.SendValid() && connection.sent == []
      ensures Valid() && this.env == env && this.connection == connection
      ensures !channelSecured && handled == [] && outs == []
    {
      this.env, this.connection := env, connection;
      channelSecured, nonce := false, 0;
      handled, outs := [], [];
    }

    /** The other end gets every message back from the frame given to async_send for it. */
    lemma SentBack()
      requires Valid() && Inverse(env)
      ensures |connection.sent| == |outs|
      ensures forall i :: 0 <= i < |outs| ==>
        if outs[i].secured then env.decrypt(connection.sent[i]) == Some(outs[i].plain)
        else connection.sent[i] == outs[i].plain
    {
      hide connection.SendValid, Lawful;
      forall i | 0 <= i < |outs| && outs[i].secured
        ensures env.decrypt(connection.sent[i]) == Some(outs[i].plain)
      {
        assert env.decrypt(env.encrypt(i, outs[i].plain)) == Some(outs[i].plain);
      }
    }

    /** send_msg_impl. */
    method SendMsg(buffer0: Bytes)
      requires Valid()
      modifies this`outs, this`nonce, connection`writeQueue, connection`outstanding, connection`written, connection`sent
      ensures Valid() && outs == old(outs) + [Sent(channelSecured, buffer0)]
      ensures connection.sent
        == old(connection.sent) + [if channelSecured then env.encrypt(old(nonce), buffer0) else buffer0]
    {
      hide connection.SendValid, Lawful;
      var buffer := buffer0;
      if channelSecured { buffer := env.encrypt(nonce, buffer); }
      nonce := nonce + 1;
      connection.AsyncSend(buffer);
      outs := outs + [Sent(channelSecured, buffer0)];
    }

    method SendAll(ms: seq<Bytes>)
      requires Valid()
      modifies this`outs, this`nonce, connection`writeQueue, connection`outstanding, connection`written, connection`sent
      ensures Valid() && outs == old(outs) + AllSent(channelSecured, ms)
    {
      hide Valid, AllSent;
      var i := 0;
      NoneSent(channelSecured, ms);
      assert outs + [] == outs;
      while i < |ms|
        invariant i <= |ms| && Valid() && outs == old(outs) + AllSent(channelSecured, ms[..i])
      {
        SendMsg(ms[i]);
        OneMoreSent(channelSecured, ms, i);
        Assoc(old(outs), AllSent(channelSecured, ms[..i]), [Sent(channelSecured, ms[i])]);
        i := i + 1;
      }
      assert ms[..i] == ms;
    }

    static lemma NoneSent(secured: bool, ms: seq<Bytes>)
      ensures AllSent(secured, ms[..0]) == []
    {}

    static lemma OneMoreSent(secured: bool, ms: seq<Bytes>, i: nat)
      requires i < |ms|
      ensures AllSent(secured, ms[..i + 1]) == AllSent(secured, ms[..i]) + [Sent(secured, ms[i])]
    {}

    /** The network takes n bytes of the outstanding write, or its completion handler runs, where that can happen. */
    method OnWrite(take: bool, n: nat)
      requires Valid()
      modifies connection`writeQueue, connection`outstanding, connection`written, connection`wire
      ensures Valid()
    {
      if !connection.outstanding { return; }
      if take {
        if connection.written + n <= |connection.writeQueue[0]| { connection.WriteSome(n); }
      } else if connection.written == |connection.writeQueue[0]| {
        connection.WriteDone();
      }
    }

    // -------------------------------------------------------------- handlers: threw says that an exception leaves them

    /** ChannelSecuredEvent is emitted: the listeners send what they send, and may throw after that. */
    method Emit(success: bool) returns (threw: bool)
      requires Valid()
      modifies this`outs, this`nonce, connection`writeQueue, connection`outstanding, connection`written, connection`sent
      ensures Valid() && outs == old(outs) + AllSent(channelSecured, env.listener(success).sends)
      ensures threw == env.listener(success).throws
    {
      var listener := env.listener(success);
      SendAll(listener.sends);
      threw := listener.throws;
    }

    method HandleEncryptRequest(d: Bytes) returns (threw: bool)
      requires Valid() && |d| >= KEYLEN_SIZE && EMsg(d) == REQUEST && env.request(d) != Malformed
      modifies this`outs, this`nonce, connection`writeQueue, connection`outstanding, connection`written, connection`sent
      ensures Valid() && outs == old(outs) + Step(env, channelSecured, d).1 && threw == Throws(env, d)
    {
      var response := env.request(d);
      if response.Reply? {
        SendMsg(response.m);
        threw := false;
      } else {
        threw := Emit(false);
      }
    }

    method HandleEncryptResult(d: Bytes) returns (threw: bool)
      requires Valid() && |d| >= KEYLEN_SIZE && EMsg(d) == RESULT
      modifies this`channelSecured, this`outs, this`nonce, connection`writeQueue, connection`outstanding,
        connection`written, connection`sent
      ensures Valid() && threw == Throws(env, d)
      ensures channelSecured == Step(env, old(channelSecured), d).0
      ensures outs == old(outs) + Step(env, old(channelSecured), d).1
    {
      var res := env.result(d);
      if res.None? {
        assert outs + [] == outs;
        return true;
      }
      channelSecured := res.value;
      threw := Emit(res.value);
    }

    ghost predicate After(handled0: seq<Bytes>, outs0: seq<Sent>, secured0: bool, fs: seq<Bytes>)
      reads this, connection`writeQueue, connection`outstanding, connection`written, connection`wire, connection`sent
    {
      && Valid() && Sized(fs) && handled == handled0 + fs
      && var (m, out) := Steps(env, secured0, fs); channelSecured == m && outs == outs0 + out
    }

    lemma AfterMore(handled0: seq<Bytes>, outs0: seq<Sent>, secured0: bool, a: seq<Bytes>, b: seq<Bytes>,
                    handled1: seq<Bytes>, outs1: seq<Sent>, secured1: bool)
      requires Sized(a) && handled1 == handled0 + a
          && (secured1, outs1) == (Steps(env, secured0, a).0, outs0 + Steps(env, secured0, a).1)
      requires After(handled1, outs1, secured1, b)
      ensures After(handled0, outs0, secured0, a + b)
    {
      hide Valid, Steps;
      StepsAppend(env, secured0, a, b);
      Assoc(handled0, a, b);
      Assoc(outs0, Steps(env, secured0, a).1, Steps(env, secured1, b).1);
    }

    /** handle_multi: each frame of the body is consumed, in plaintext. An exception would end the loop and go up; none
        ever comes out of a frame consumed this way. */
    method HandleMulti(payload: Bytes) returns (threw: bool)
      requires Valid()
      modifies this`channelSecured, this`outs, this`nonce, this`handled
      modifies connection`writeQueue, connection`outstanding, connection`written, connection`sent
      ensures Sized(FlattenFrom(env, payload, 0))
      ensures !threw && After(old(handled), old(outs), old(channelSecured), FlattenFrom(env, payload, 0))
      decreases 0, Deep(env, payload, 0), 0
    {
      hide Valid, Steps, Flatten, FlattenFrom, After, Lawful, Deep, FrameAt, Sized;
      ValidLawful();
      FlattenFromSized(env, payload, 0);
      var offset, frame := 0, [];
      ghost var done := [];
      NoneAfter();
      var ok := true;
      while true
        invariant offset <= |payload| && Deep(env, payload, offset) <= Deep(env, payload, 0)
        invariant done + FlattenFrom(env, payload, offset) == FlattenFrom(env, payload, 0)
        invariant After(old(handled), old(outs), old(channelSecured), done)
        decreases |payload| - offset
      {
        AfterValid(old(handled), old(outs), old(channelSecured), done);
        FromStep(env, payload, offset);
        DeepStep(env, payload, offset);
        ok, offset, frame := ReadFrame(payload, offset, frame);
        if !ok { break; }
        ghost var h, o, s := handled, outs, channelSecured;
        threw := ConsumeFrame(frame, false);
        if threw { return; }
        ShortFlat(env, frame);
        AfterMore(old(handled), old(outs), old(channelSecured), done, Flatten(env, frame), h, o, s);
        Assoc(done, Flatten(env, frame), FlattenFrom(env, payload, offset));
        done := done + Flatten(env, frame);
      }
      threw := false;
      assert done + [] == done;
    }

    lemma AfterValid(handled0: seq<Bytes>, outs0: seq<Sent>, secured0: bool, fs: seq<Bytes>)
      requires After(handled0, outs0, secured0, fs)
      ensures Valid() && Sized(fs) && Lawful(env)
      ensures handled == handled0 + fs
          && (channelSecured, outs) == (Steps(env, secured0, fs).0, outs0 + Steps(env, secured0, fs).1)
    {}

    lemma ValidLawful()
      requires Valid()
      ensures Lawful(env)
    {}

    lemma NoneAfter()
      requires Valid()
      ensures After(handled, outs, channelSecured, [])
    {}

    /** consume_frame: only decryption can throw; the exceptions of parsing and of handlers are caught. */
    method ConsumeFrame(frame: Bytes, encrypt: bool) returns (threw: bool)
      requires Valid()
      modifies this`channelSecured, this`outs, this`nonce, this`handled
      modifies connection`writeQueue, connection`outstanding, connection`written, connection`sent
      ensures threw <==> |frame| >= KEYLEN_SIZE && Decoded(env, old(channelSecured), frame, encrypt).None?
      ensures After(old(handled), old(outs), old(channelSecured),
                    if |frame| < KEYLEN_SIZE || threw then []
                    else Flatten(env, Decoded(env, old(channelSecured), frame, encrypt).value))
      decreases if encrypt then 1 else 0, env.depth(frame), 3
    {
      hide Valid, Steps, Flatten;
      NoneAfter();
      ValidLawful();
      if |frame| < KEYLEN_SIZE { return false; }
      var data := frame;
      if encrypt && channelSecured {
        var d := env.decrypt(frame);
        if d.None? { return true; }
        data := d.value;
      }
      ShortFlat(env, data);
      if |data| >= KEYLEN_SIZE {
        var caught := Dispatch(data);
      }
      threw := false;
    }

    static lemma ShortFlat(env: Env, d: Bytes)
      requires Lawful(env)
      ensures |d| < KEYLEN_SIZE ==> Flatten(env, d) == []
    {}

    /** What consume_frame does inside its try block. */
    method Dispatch(data: Bytes) returns (threw: bool)
      requires Valid() && |data| >= KEYLEN_SIZE
      modifies this`channelSecured, this`outs, this`nonce, this`handled
      modifies connection`writeQueue, connection`outstanding, connection`written, connection`sent
      ensures After(old(handled), old(outs), old(channelSecured), Flatten(env, data)) && threw == Throws(env, data)
      decreases 0, env.depth(data), 2
    {
      hide After, FlattenFrom;
      assert outs + [] == outs;
      var emsg := EMsg(data);
      ghost var h, o, s := handled, outs, channelSecured;
      handled := handled + [data];
      threw := false;
      if emsg == REQUEST {
        if env.request(data) == Malformed {
          threw := true;
        } else {
          threw := HandleEncryptRequest(data);
        }
      } else if emsg == RESULT {
        threw := HandleEncryptResult(data);
      } else if emsg == RESPONSE || (emsg >= PROTO_MASK && emsg - PROTO_MASK != MULTI) {
        var leaf := env.leaf(data);
        SendAll(leaf.sends);
        threw := leaf.throws;
      }
      AfterOne(h, o, s, data);
      assert [data] + [] == [data];
      if emsg == PROTO_MASK + MULTI {
        var body := env.multi(data);
        if body.None? { return true; }
        threw := DispatchMulti(data, body.value, h, o, s);
      }
    }

    /** The handler of a Multi, behind the Multi itself. */
    method DispatchMulti(data: Bytes, body: Bytes, ghost h: seq<Bytes>, ghost o: seq<Sent>, ghost s: bool)
      returns (threw: bool)
      requires Valid() && IsMulti(data) && env.multi(data) == Some(body)
      requires After(h, o, s, [data])
      modifies this`channelSecured, this`outs, this`nonce, this`handled
      modifies connection`writeQueue, connection`outstanding, connection`written, connection`sent
      ensures After(h, o, s, Flatten(env, data)) && !threw
      decreases 0, env.depth(data), 1
    {
      hide After, FlattenFrom;
      AfterValid(h, o, s, [data]);
      ghost var h1, o1, s1 := handled, outs, channelSecured;
      threw := HandleMulti(body);
      AfterMore(h, o, s, [data], FlattenFrom(env, body, 0), h1, o1, s1);
    }

    static lemma OneStep(env: Env, secured: bool, d: Bytes)
      requires |d| >= KEYLEN_SIZE
      ensures Steps(env, secured, [d]) == Step(env, secured, d)
    {
      assert [d][1..] == [];
      var (m, out) := Step(env, secured, d);
      assert out + [] == out;
    }

    lemma AfterOne(handled0: seq<Bytes>, outs0: seq<Sent>, secured0: bool, d: Bytes)
      requires Valid() && |d| >= KEYLEN_SIZE && handled == handled0 + [d]
      requires (channelSecured, outs) == (Step(env, secured0, d).0, outs0 + Step(env, secured0, d).1)
      ensures After(handled0, outs0, secured0, [d])
    {
      OneStep(env, secured0, d);
    }

    // -------------------------------------------------------------- frames from the wire

    /** The state after frames consumed as they came from the wire. */
    ghost predicate Consumed(handled0: seq<Bytes>, outs0: seq<Sent>, secured0: bool, fs: seq<Bytes>)
      reads this, connection`writeQueue, connection`outstanding, connection`written, connection`wire, connection`sent
    {
      && Valid()
      && var w := Wired(env, secured0, fs);
         channelSecured == w.secured && handled == handled0 + w.handled && outs == outs0 + w.outs
    }

    /** consume_frame as on_frame_ calls it. */
    method OnFrame(frame: Bytes, ghost handled0: seq<Bytes>, ghost outs0: seq<Sent>, ghost secured0: bool,
                   ghost fs: seq<Bytes>)
      returns (threw: bool)
      requires Consumed(handled0, outs0, secured0, fs)
      modifies this`channelSecured, this`outs, this`nonce, this`handled
      modifies connection`writeQueue, connection`outstanding, connection`written, connection`sent
      ensures Consumed(handled0, outs0, secured0, fs + [frame])
      ensures threw == Stops(env, Wired(env, secured0, fs).secured, frame)
    {
      hide Valid, Steps, Flatten;
      ValidLawful();
      ghost var h, o, s := handled, outs, channelSecured;
      threw := ConsumeFrame(frame, true);
      ghost var data := Dispatched(env, s, frame);
      AfterValid(h, o, s, data);
      WiredMore(env, secured0, fs, frame);
      var w := Wired(env, secured0, fs);
      Assoc(handled0, w.handled, data);
      Assoc(outs0, w.outs, Steps(env, s, data).1);
    }

    /** The handler of the body read: the frame is consumed, and only then the next header read starts. An exception
        leaves the handler before that, so that no read is under way any more. */
    method OnBody(ghost handled0: seq<Bytes>, ghost outs0: seq<Sent>, ghost secured0: bool, ghost fs: seq<Bytes>)
      returns (threw: bool)
      requires Consumed(handled0, outs0, secured0, fs)
      requires connection.Reads(connection.phase) && connection.phase.Body?
          && |connection.inbox| >= connection.phase.len
      modifies this`channelSecured, this`outs, this`nonce, this`handled, connection
      ensures connection.wire == old(connection.wire) && connection.received == old(connection.received)
      ensures connection.frames == old(connection.frames) + [connection.bodyBuffer]
      ensures Consumed(handled0, outs0, secured0, fs + [connection.bodyBuffer])
      ensures threw == Stops(env, Wired(env, secured0, fs).secured, connection.bodyBuffer)
      ensures connection.Reads(Tcp.Header) && connection.phase == (if threw then Tcp.Idle else Tcp.Header)
      ensures |connection.inbox| <= |old(connection.inbox)|
    {
      hide Consumed, Tcp.Feed, Valid, Stops, connection.Reads;
      ConsumedLawful(handled0, outs0, secured0, fs);
      connection.CompleteBody();
      threw := OnFrame(connection.bodyBuffer, handled0, outs0, secured0, fs);
      if !threw { connection.StartReadHeader(); }
    }

    /** A chunk of bytes arrives: each read it completes has its handler run. */
    method Arrive(chunk: Bytes) returns (threw: bool)
      requires Valid() && connection.ReadValid()
      modifies this`channelSecured, this`outs, this`nonce, this`handled, connection
      ensures connection.received == old(connection.received) + chunk && old(connection.frames) <= connection.frames
      ensures connection.wire == old(connection.wire)
      ensures var news := connection.frames[|old(connection.frames)|..];
        && Consumed(old(handled), old(outs), old(channelSecured), news)
        && (threw <==> StopsSome(env, old(channelSecured), news))
      ensures connection.frames <= Tcp.Feed(Tcp.Header, connection.received).frames
      ensures !threw ==> connection.ReadValid()
    {
      hide Consumed, Tcp.Feed, Valid, Stops, StopsSome, Wired, connection.Reads;
      ghost var news: seq<Bytes> := [];
      ValidLawful();
      NoneConsumed();
      connection.Receive(chunk);
      threw := false;
      while connection.Ready()
        invariant connection.received == old(connection.received) + chunk && connection.wire == old(connection.wire)
        invariant connection.frames == old(connection.frames) + news
        invariant Consumed(old(handled), old(outs), old(channelSecured), news)
        invariant connection.Reads(connection.phase) && connection.phase != Tcp.Idle
        invariant !StopsSome(env, old(channelSecured), news)
        decreases |connection.inbox|, if connection.phase.Body? then 1 else 0
      {
        if connection.phase == Tcp.Header {
          connection.CompleteHeader();
        } else {
          threw := OnBody(old(handled), old(outs), old(channelSecured), news);
          StopsMore(env, old(channelSecured), news, connection.bodyBuffer);
          Assoc(old(connection.frames), news, [connection.bodyBuffer]);
          news := news + [connection.bodyBuffer];
          if threw { break; }
        }
      }
      assert connection.frames[|old(connection.frames)|..] == news;
      FramesRead(if threw then Tcp.Header else connection.phase);
    }

    lemma FramesRead(next: Tcp.Phase)
      requires connection.Reads(next)
      ensures connection.frames <= Tcp.Feed(Tcp.Header, connection.received).frames
    {}

    lemma ConsumedIs(handled0: seq<Bytes>, outs0: seq<Sent>, secured0: bool, fs: seq<Bytes>)
      requires Consumed(handled0, outs0, secured0, fs)
      ensures Valid() && Lawful(env)
      ensures var w := Wired(env, secured0, fs);
        channelSecured == w.secured && handled == handled0 + w.handled && outs == outs0 + w.outs
    {}

    lemma ConsumedLawful(handled0: seq<Bytes>, outs0: seq<Sent>, secured0: bool, fs: seq<Bytes>)
      requires Consumed(handled0, outs0, secured0, fs)
      ensures Lawful(env)
    {}

    lemma NoneConsumed()
      requires Valid()
      ensures Consumed(handled, outs, channelSecured, [])
      ensures !StopsSome(env, channelSecured, [])
    {}
  }
}
