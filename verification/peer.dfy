/** The client of cmclient.cpp against a peer: runs in which both switch to encrypted frames. */
module Peer {
  import opened Basics
  import opened OrderBuffer
  import opened Multi
  import opened Replies
  import opened Session
  import Tcp

  // ---------------------------------------------------------------- mode over a sequence of frames

  predicate SetsMode(env: Env, d: Bytes) { |d| >= KEYLEN_SIZE && EMsg(d) == RESULT && env.result(d).Some? }

  /** A ChannelEncryptResult that says OK. */
  predicate Success(env: Env, d: Bytes) { SetsMode(env, d) && env.result(d).value }

  predicate NoModes(env: Env, fs: seq<Bytes>) { forall i :: 0 <= i < |fs| ==> !SetsMode(env, fs[i]) }

  predicate Succeeds(env: Env, fs: seq<Bytes>) { exists i :: 0 <= i < |fs| && Success(env, fs[i]) }

  /** After a successful result no result of any kind comes again. */
  predicate OneResult(env: Env, fs: seq<Bytes>) {
    forall i, j :: 0 <= i < j < |fs| && Success(env, fs[i]) ==> !SetsMode(env, fs[j])
  }

  /** All messages in one mode. */
  predicate AllIn(out: seq<Sent>, secured: bool) { forall i :: 0 <= i < |out| ==> out[i].secured == secured }

  lemma {:induction false} QuietSteps(env: Env, secured: bool, fs: seq<Bytes>)
    requires Sized(fs) && NoModes(env, fs)
    ensures Steps(env, secured, fs).0 == secured && AllIn(Steps(env, secured, fs).1, secured)
    decreases |fs|
  {
    hide Step, SetsMode;
    if fs != [] {
      StepsFirst(env, secured, fs);
      QuietStep(env, secured, fs[0]);
      QuietSteps(env, secured, fs[1..]);
    }
  }

  lemma QuietStep(env: Env, secured: bool, f: Bytes)
    requires |f| >= KEYLEN_SIZE && !SetsMode(env, f)
    ensures Step(env, secured, f).0 == secured && AllIn(Step(env, secured, f).1, secured)
  {}

  /** Without a successful result the channel stays in plaintext. */
  lemma {:induction false} PlainSteps(env: Env, fs: seq<Bytes>)
    requires Sized(fs) && !Succeeds(env, fs)
    ensures Steps(env, false, fs).0 == false && AllIn(Steps(env, false, fs).1, false)
    decreases |fs|
  {
    if fs != [] {
      assert !Success(env, fs[0]);
      StepsFirst(env, false, fs);
      SucceedsTail(env, fs);
      PlainSteps(env, fs[1..]);
    }
  }

  /** The successful result divides what is sent: plaintext up to it, ciphertext from it on, its own listeners
      included. */
  lemma ResultDivides(env: Env, fs: seq<Bytes>, k: nat)
    requires Sized(fs) && OneResult(env, fs) && k < |fs| && Success(env, fs[k])
    ensures var (m, out) := Steps(env, false, fs); var before := Steps(env, false, fs[..k]).1;
      && m && before <= out && AllIn(before, false) && AllIn(out[|before|..], true)
  {
    hide Step, Steps;
    assert fs == fs[..k] + fs[k..];
    assert fs[k..][0] == fs[k] && fs[k..][1..] == fs[k + 1..];
    PlainSteps(env, fs[..k]);
    StepsAppend(env, false, fs[..k], fs[k..]);
    StepsFirst(env, false, fs[k..]);
    SuccessSends(env, fs[k]);
    QuietSteps(env, true, fs[k + 1..]);
  }

  lemma SuccessSends(env: Env, d: Bytes)
    requires Success(env, d)
    ensures Step(env, false, d).0 && AllIn(Step(env, false, d).1, true)
  {}

  lemma SucceedsTail(env: Env, fs: seq<Bytes>)
    requires fs != [] && !Success(env, fs[0])
    ensures Succeeds(env, fs) == Succeeds(env, fs[1..])
  {
    if Succeeds(env, fs) {
      var i :| 0 <= i < |fs| && Success(env, fs[i]);
      assert fs[1..][i - 1] == fs[i];
    }
    if Succeeds(env, fs[1..]) {
      var i :| 0 <= i < |fs[1..]| && Success(env, fs[1..][i]);
      assert fs[i + 1] == fs[1..][i];
    }
  }

  // ---------------------------------------------------------------- agreement with the peer

  /** What happens to the client: a frame comes in, or it sends a message of its own. */
  datatype Event = Incoming(frame: Bytes) | Send(plain: Bytes)

  function Incomings(es: seq<Event>): seq<Bytes> {
    if es == [] then []
    else Incomings(es[..|es| - 1]) + (if es[|es| - 1].Incoming? then [es[|es| - 1].frame] else [])
  }

  /** The peer's messages: its one successful result comes with message r (none at all when r is |ps|). */
  ghost predicate PeerSends(env: Env, ps: seq<Bytes>, r: nat)
    requires Lawful(env)
  {
    && r <= |ps|
    && (forall i :: 0 <= i < |ps| ==> OneResult(env, Flatten(env, ps[i])))
    && (forall i :: 0 <= i < |ps| ==> (Succeeds(env, Flatten(env, ps[i])) <==> i == r))
    && (forall i :: r < i < |ps| ==> NoModes(env, Flatten(env, ps[i])))
  }

  /** The peer encrypts exactly what it sends after that message. */
  ghost predicate OnWire(env: Env, ps: seq<Bytes>, r: nat, ivs: seq<nat>, wires: seq<Bytes>) {
    |wires| == |ps| == |ivs|
    && forall i :: 0 <= i < |ps| ==> wires[i] == if i <= r then ps[i] else env.encrypt(ivs[i], ps[i])
  }

  /** What the client is to send: a message of its own in the mode it should be in, and for message i of the peer what
      the frames in it lead to, in that mode. */
  ghost function Outs(env: Env, es: seq<Event>, ps: seq<Bytes>, r: nat): seq<Sent>
    requires Lawful(env) && |Incomings(es)| <= |ps|
  {
    if es == [] then []
    else
      var front := es[..|es| - 1];
      var i := |Incomings(front)|;
      Outs(env, front, ps, r) + match es[|es| - 1]
        case Send(m) => [Sent(i > r, m)]
        case Incoming(_) => PeerStep(env, ps, r, i)
  }

  /** What the client sends on message i. */
  ghost function PeerStep(env: Env, ps: seq<Bytes>, r: nat, i: nat): seq<Sent>
    requires Lawful(env) && i < |ps|
  {
    FlattenSized(env, ps[i]);
    Steps(env, i > r, Flatten(env, ps[i])).1
  }

  /** What message i leads to in the right mode: the mode after it, and in which mode the client sends. */
  lemma StepModes(env: Env, ps: seq<Bytes>, r: nat, i: nat)
    requires Lawful(env) && PeerSends(env, ps, r) && i < |ps|
    ensures Sized(Flatten(env, ps[i])) && Steps(env, i > r, Flatten(env, ps[i])).0 == (i + 1 > r)
    ensures i > r ==> AllIn(PeerStep(env, ps, r, i), true)
    ensures i < r ==> AllIn(PeerStep(env, ps, r, i), false)
  {
    hide Steps, Flatten;
    var fs := Flatten(env, ps[i]);
    FlattenSized(env, ps[i]);
    assert OneResult(env, fs) && (Succeeds(env, fs) <==> i == r);
    if i > r {
      assert NoModes(env, fs);
      QuietSteps(env, true, fs);
    } else if i < r {
      PlainSteps(env, fs);
    } else {
      var k :| 0 <= k < |fs| && Success(env, fs[k]);
      ResultDivides(env, fs, k);
    }
  }

  /** A frame that came in the mode the client is in is decoded to what the peer sent. */
  lemma InMode(env: Env, ps: seq<Bytes>, r: nat, ivs: seq<nat>, wires: seq<Bytes>, i: nat)
    requires Lawful(env) && Inverse(env) && PeerSends(env, ps, r) && OnWire(env, ps, r, ivs, wires) && i < |ps|
    ensures Decoded(env, i > r, wires[i], true) == Some(ps[i]) && !Stops(env, i > r, wires[i])
    ensures Dispatched(env, i > r, wires[i]) == Flatten(env, ps[i])
  {
    CMClient.ShortFlat(env, ps[i]);
  }

  /** Frames i to j of the peer, consumed by a client in the right mode: none throws, the messages are dispatched
      flattened, and the mode is right again. */
  lemma {:induction false} PeerWired(env: Env, ps: seq<Bytes>, r: nat, ivs: seq<nat>, wires: seq<Bytes>,
                                     es: seq<Event>, j: nat)
    requires Lawful(env) && Inverse(env) && PeerSends(env, ps, r) && OnWire(env, ps, r, ivs, wires)
    requires |Incomings(es)| <= j <= |ps|
    ensures var i := |Incomings(es)|; var w := Wired(env, i > r, wires[i..j]); var es' := es + Arrivals(wires[i..j]);
      && !StopsSome(env, i > r, wires[i..j]) && w.secured == (j > r)
      && FlattenEach(env, ps[..i]) + w.handled == FlattenEach(env, ps[..j])
      && Incomings(es') == Incomings(es) + wires[i..j] && Outs(env, es, ps, r) + w.outs == Outs(env, es', ps, r)
    decreases j
  {
    hide PeerSends, OnWire, Steps, Flatten, Stops, Dispatched, PeerStep;
    hide Wired, StopsSome, Outs, Incomings, FlattenEach, Inverse, Lawful, Arrivals;
    OnWireSize(env, ps, r, ivs, wires);
    var i := |Incomings(es)|;
    if j == i {
      NoArrivals(es);
      assert wires[i..j] == [];
      NoneWired(env, i > r);
      assert FlattenEach(env, ps[..i]) + [] == FlattenEach(env, ps[..j])
          && Outs(env, es, ps, r) + [] == Outs(env, es, ps, r);
    } else {
      var was, f := wires[i..j - 1], wires[j - 1];
      assert wires[i..j] == was + [f];
      PeerWired(env, ps, r, ivs, wires, es, j - 1);
      InMode(env, ps, r, ivs, wires, j - 1);
      StepModes(env, ps, r, j - 1);
      WiredMore(env, i > r, was, f);
      StopsMore(env, i > r, was, f);
      EachMore(env, ps, j - 1);
      var w := Wired(env, i > r, was);
      Assoc(FlattenEach(env, ps[..i]), w.handled, Flatten(env, ps[j - 1]));
      OneMore(env, es, was, f, ps, r);
      Assoc(Outs(env, es, ps, r), w.outs, PeerStep(env, ps, r, j - 1));
      PeerStepIs(env, ps, r, j - 1);
    }
  }

  function Arrivals(fs: seq<Bytes>): (es: seq<Event>)
    ensures |es| == |fs| && forall k :: 0 <= k < |fs| ==> es[k] == Incoming(fs[k])
  {
    seq(|fs|, k requires 0 <= k < |fs| => Incoming(fs[k]))
  }

  lemma NoneWired(env: Env, secured: bool)
    requires Lawful(env)
    ensures Wired(env, secured, []) == Wiring(secured, [], []) && !StopsSome(env, secured, [])
  {}

  lemma NoArrivals(es: seq<Event>)
    ensures es + Arrivals([]) == es
  {}

  lemma PeerStepIs(env: Env, ps: seq<Bytes>, r: nat, i: nat)
    requires Lawful(env) && i < |ps| && Sized(Flatten(env, ps[i]))
    ensures PeerStep(env, ps, r, i) == Steps(env, i > r, Flatten(env, ps[i])).1
  {}

  lemma OneMore(env: Env, es: seq<Event>, was: seq<Bytes>, f: Bytes, ps: seq<Bytes>, r: nat)
    requires Lawful(env) && Incomings(es + Arrivals(was)) == Incomings(es) + was && |Incomings(es)| + |was| < |ps|
    ensures var es' := es + Arrivals(was + [f]);
      && Incomings(es') == Incomings(es) + (was + [f])
      && Outs(env, es', ps, r) == Outs(env, es + Arrivals(was), ps, r) + PeerStep(env, ps, r, |Incomings(es)| + |was|)
  {
    hide PeerStep, Lawful, Incomings, Outs;
    assert es + Arrivals(was + [f]) == es + Arrivals(was) + [Incoming(f)];
    LastIncoming(env, es + Arrivals(was), f, ps, r);
    Assoc(Incomings(es), was, [f]);
  }

  lemma LastIncoming(env: Env, es: seq<Event>, f: Bytes, ps: seq<Bytes>, r: nat)
    requires Lawful(env) && |Incomings(es)| < |ps|
    ensures Incomings(es + [Incoming(f)]) == Incomings(es) + [f]
    ensures Outs(env, es + [Incoming(f)], ps, r) == Outs(env, es, ps, r) + PeerStep(env, ps, r, |Incomings(es)|)
  {
    hide PeerStep, Lawful;
    assert (es + [Incoming(f)])[..|es|] == es;
  }

  lemma OnWireSize(env: Env, ps: seq<Bytes>, r: nat, ivs: seq<nat>, wires: seq<Bytes>)
    requires OnWire(env, ps, r, ivs, wires)
    ensures |wires| == |ps|
  {}

  lemma {:induction false} EachAppend(env: Env, a: seq<Bytes>, b: seq<Bytes>)
    requires Lawful(env)
    ensures FlattenEach(env, a + b) == FlattenEach(env, a) + FlattenEach(env, b)
    decreases |a|
  {
    if a == [] {
      assert a + b == b;
    } else {
      assert (a + b)[1..] == a[1..] + b;
      EachAppend(env, a[1..], b);
    }
  }

  lemma EachMore(env: Env, ps: seq<Bytes>, i: nat)
    requires Lawful(env) && i < |ps|
    ensures FlattenEach(env, ps[..i + 1]) == FlattenEach(env, ps[..i]) + Flatten(env, ps[i])
  {
    assert ps[..i + 1] == ps[..i] + [ps[i]];
    EachAppend(env, ps[..i], [ps[i]]);
    var one := [ps[i]];
    assert one[1..] == [];
    assert Flatten(env, ps[i]) + [] == Flatten(env, ps[i]);
  }

  // ---------------------------------------------------------------- every frame has its answer

  /** What is to be sent up to frame k of message i, which event e brings in. */
  ghost function Upto(env: Env, es: seq<Event>, ps: seq<Bytes>, r: nat, e: nat, k: nat): seq<Sent>
    requires Lawful(env) && e < |es| && |Incomings(es[..e])| < |ps|
    requires k <= |Flatten(env, ps[|Incomings(es[..e])|])|
  {
    var i := |Incomings(es[..e])|;
    FlattenSized(env, ps[i]);
    Outs(env, es[..e], ps, r) + Steps(env, i > r, Flatten(env, ps[i])[..k]).1
  }

  /** The mode before frame k of message i: secured behind the one successful result. */
  ghost predicate ModeBefore(env: Env, ps: seq<Bytes>, r: nat, i: nat, k: nat)
    requires Lawful(env) && i < |ps| && k <= |Flatten(env, ps[i])|
  {
    i > r || (i == r && Succeeds(env, Flatten(env, ps[i])[..k]))
  }

  lemma ModeBeforeIs(env: Env, ps: seq<Bytes>, r: nat, i: nat, k: nat)
    requires Lawful(env) && PeerSends(env, ps, r) && i < |ps| && k <= |Flatten(env, ps[i])|
    ensures var fs := Flatten(env, ps[i]); Sized(fs) && Sized(fs[..k])
    ensures Steps(env, i > r, Flatten(env, ps[i])[..k]).0 == ModeBefore(env, ps, r, i, k)
  {
    hide Steps, Flatten, SetsMode;
    var fs := Flatten(env, ps[i]);
    FlattenSized(env, ps[i]);
    var front := fs[..k];
    assert OneResult(env, fs) && (Succeeds(env, fs) <==> i == r);
    if i > r {
      assert NoModes(env, fs);
      QuietSteps(env, true, front);
    } else if Succeeds(env, front) {
      var j :| 0 <= j < |front| && Success(env, front[j]);
      assert Success(env, fs[j]);
      ResultDivides(env, front, j);
    } else {
      PlainSteps(env, front);
    }
  }

  /** Every frame that a message of the peer brings in is answered: its answer stands in what is sent directly behind
      all that was sent before it, in the mode the channel is in by then, and the next answer directly behind it. */
  lemma FrameAnswered(env: Env, es: seq<Event>, ps: seq<Bytes>, r: nat, e: nat, k: nat)
    requires Lawful(env) && PeerSends(env, ps, r) && |Incomings(es)| <= |ps| && e < |es| && es[e].Incoming?
    ensures |Incomings(es[..e])| < |ps|
    ensures k < |Flatten(env, ps[|Incomings(es[..e])|])| ==> Answered(env, es, ps, r, e, k, Outs(env, es, ps, r))
  {
    hide PeerSends, Steps, Flatten, Outs, Answers, ModeBefore, SetsMode;
    var front, i := es[..e], |Incomings(es[..e])|;
    assert es == es[..e + 1] + es[e + 1..] && es[..e + 1][..e] == front;
    IncomingsPrefix(es, e + 1);
    var fs := Flatten(env, ps[i]);
    FlattenSized(env, ps[i]);
    if k < |fs| {
      ModeBeforeIs(env, ps, r, i, k);
      ModeBeforeIs(env, ps, r, i, k + 1);
      StepsAnswer(env, i > r, fs, k);
      OutsMore(env, es, ps, r, e);
      var a, b, c := Steps(env, i > r, fs[..k]).1, Steps(env, i > r, fs[..k + 1]).1, Steps(env, i > r, fs).1;
      var o := Outs(env, front, ps, r);
      assert (o + b)[|o + a|..] == b[|a|..];
      assert o + a <= o + b <= o + c;
    }
  }

  /** Frame k of the message that event e brings in has its answer at its place. */
  ghost predicate Answered(env: Env, es: seq<Event>, ps: seq<Bytes>, r: nat, e: nat, k: nat, outs: seq<Sent>)
    requires Lawful(env) && e < |es| && |Incomings(es[..e])| < |ps|
    requires k < |Flatten(env, ps[|Incomings(es[..e])|])|
  {
    var i := |Incomings(es[..e])|;
    var before, upto := Upto(env, es, ps, r, e, k), Upto(env, es, ps, r, e, k + 1);
    && before <= upto <= outs
    && Answers(env, ModeBefore(env, ps, r, i, k), Flatten(env, ps[i])[k], ModeBefore(env, ps, r, i, k + 1),
               upto[|before|..])
  }

  lemma {:induction false} IncomingsPrefix(es: seq<Event>, n: nat)
    requires n <= |es|
    ensures |Incomings(es[..n])| <= |Incomings(es)|
    decreases |es|
  {
    if n == |es| {
      assert es[..n] == es;
    } else {
      assert es[..|es| - 1][..n] == es[..n];
      IncomingsPrefix(es[..|es| - 1], n);
    }
  }

  /** What is sent on message i stands in the whole directly behind what was sent before it. */
  lemma {:induction false} OutsMore(env: Env, es: seq<Event>, ps: seq<Bytes>, r: nat, e: nat)
    requires Lawful(env) && |Incomings(es)| <= |ps| && e < |es| && es[e].Incoming?
    ensures |Incomings(es[..e])| < |ps|
    ensures Outs(env, es[..e], ps, r) + PeerStep(env, ps, r, |Incomings(es[..e])|) <= Outs(env, es, ps, r)
    decreases |es|
  {
    hide PeerStep;
    var front := es[..|es| - 1];
    if e < |es| - 1 {
      assert front[..e] == es[..e];
      OutsMore(env, front, ps, r, e);
    } else {
      assert front == es[..e];
    }
  }

  /** Every frame dispatched in a run has its answer at its place in what is sent. */
  ghost predicate AllAnswered(env: Env, es: seq<Event>, ps: seq<Bytes>, r: nat, outs: seq<Sent>)
    requires Lawful(env)
  {
    forall e: nat, k: nat ::
      (e < |es| && es[e].Incoming? && |Incomings(es[..e])| < |ps| && k < |Flatten(env, ps[|Incomings(es[..e])|])|) ==>
        Answered(env, es, ps, r, e, k, outs)
  }

  lemma AllFramesAnswered(env: Env, es: seq<Event>, ps: seq<Bytes>, r: nat)
    requires Lawful(env) && PeerSends(env, ps, r) && |Incomings(es)| <= |ps|
    ensures AllAnswered(env, es, ps, r, Outs(env, es, ps, r))
  {
    hide PeerSends, Flatten, Outs, Answered;
    forall e: nat, k: nat | e < |es| && es[e].Incoming? && |Incomings(es[..e])| < |ps|
        && k < |Flatten(env, ps[|Incomings(es[..e])|])|
      ensures Answered(env, es, ps, r, e, k, Outs(env, es, ps, r))
    {
      FrameAnswered(env, es, ps, r, e, k);
    }
  }

  /** Nothing else is sent: the answers of a message follow each other without a gap from one event to the next, and a
      message of the client's own is one more. */
  lemma NothingElse(env: Env, es: seq<Event>, ps: seq<Bytes>, r: nat, e: nat)
    requires Lawful(env) && |Incomings(es)| <= |ps| && e < |es|
    ensures Outs(env, [], ps, r) == [] && |Incomings(es[..e])| <= |Incomings(es[..e + 1])| <= |ps|
    ensures var i := |Incomings(es[..e])|; match es[e]
      case Send(m) => Outs(env, es[..e + 1], ps, r) == Outs(env, es[..e], ps, r) + [Sent(i > r, m)]
      case Incoming(_) =>
        && i < |ps| && Upto(env, es, ps, r, e, 0) == Outs(env, es[..e], ps, r)
        && Upto(env, es, ps, r, e, |Flatten(env, ps[i])|) == Outs(env, es[..e + 1], ps, r)
  {
    hide Steps, Flatten;
    IncomingsPrefix(es, e + 1);
    assert es[..e + 1][..e] == es[..e];
    if es[e].Incoming? {
      var fs := Flatten(env, ps[|Incomings(es[..e])|]);
      FlattenSized(env, ps[|Incomings(es[..e])|]);
      assert fs[..|fs|] == fs && fs[..0] == [];
      NoSteps(env, |Incomings(es[..e])| > r);
    }
  }

  lemma NoSteps(env: Env, secured: bool)
    ensures Steps(env, secured, []) == (secured, [])
  {}

  // ---------------------------------------------------------------- runs on bytes

  /** A chunk of bytes arrives; the client sends a message of its own; bytes leave; a write completes. */
  datatype NetEvent = Chunk(b: Bytes) | Own(m: Bytes) | Take(n: nat) | Finish

  /** The bytes that have arrived. */
  function Arrived(es: seq<NetEvent>): Bytes {
    if es == [] then [] else Arrived(es[..|es| - 1]) + (if es[|es| - 1].Chunk? then es[|es| - 1].b else [])
  }

  /** The frames a chunk completes behind the bytes before it. */
  function Completed(before: Bytes, chunk: Bytes): seq<Bytes> {
    var was, now := Tcp.Feed(Tcp.Header, before).frames, Tcp.Feed(Tcp.Header, before + chunk).frames;
    if |was| <= |now| then now[|was|..] else []
  }

  /** The run as frames and messages: every chunk stands for the frames that it completes. */
  function Trace(es: seq<NetEvent>): seq<Event> {
    if es == [] then []
    else
      var front := es[..|es| - 1];
      Trace(front) + match es[|es| - 1]
        case Chunk(b) => Arrivals(Completed(Arrived(front), b))
        case Own(m) => [Send(m)]
        case _ => []
  }

  lemma {:induction false} ArrivedPrefix(es: seq<NetEvent>, k: nat)
    requires k <= |es|
    ensures Arrived(es[..k]) <= Arrived(es)
    decreases |es|
  {
    if k == |es| {
      assert es[..k] == es;
    } else {
      var front := es[..|es| - 1];
      assert front[..k] == es[..k];
      ArrivedPrefix(front, k);
    }
  }

  /** The client after part of a run against the peer. */
  ghost predicate Agrees(client: CMClient, ps: seq<Bytes>, r: nat, wires: seq<Bytes>, es: seq<NetEvent>)
    reads client, client.connection
  {
    var i := |client.connection.frames|;
    && client.Valid() && client.connection.ReadValid() && client.connection.received == Arrived(es)
    && i <= |ps| == |wires| && client.connection.frames == wires[..i]
    && client.channelSecured == (i > r) && client.handled == FlattenEach(client.env, ps[..i])
    && Incomings(Trace(es)) == wires[..i] && client.outs == Outs(client.env, Trace(es), ps, r)
  }

  /** A chunk arrives. No frame in it stops the client, and the frames in it are consumed in the mode they were sent in,
      also those behind the result in the same chunk. */
  method OnChunk(client: CMClient, b: Bytes, ghost ps: seq<Bytes>, ghost r: nat, ghost ivs: seq<nat>,
                 ghost wires: seq<Bytes>, ghost es: seq<NetEvent>)
    requires Inverse(client.env) && Lawful(client.env) && PeerSends(client.env, ps, r)
        && OnWire(client.env, ps, r, ivs, wires)
    requires Short(wires) && Arrived(es) + b <= Tcp.FrameAll(wires) && Agrees(client, ps, r, wires, es)
    modifies client, client.connection
    ensures Agrees(client, ps, r, wires, es + [Chunk(b)])
  {
    hide PeerSends, OnWire, client.Valid, client.Consumed, Tcp.Feed, Wired, StopsSome, Outs, Incomings, FlattenEach;
    ghost var i := |client.connection.frames|;
    ghost var h, o := client.handled, client.outs;
    client.connection.ReadsAll();
    var threw := client.Arrive(b);
    Tcp.FeedPrefix(wires, Arrived(es) + b);
    ghost var j := |client.connection.frames|;
    ghost var news := client.connection.frames[i..];
    assert client.connection.frames == wires[..j] && news == wires[i..j];
    PeerWired(client.env, ps, r, ivs, wires, Trace(es), j);
    client.ConsumedIs(h, o, i > r, news);
    client.connection.ReadsAll();
    assert (es + [Chunk(b)])[..|es|] == es;
    assert wires[..i] + wires[i..j] == wires[..j];
    assert Completed(Arrived(es), b) == news;
  }

  /** The client sends a message of its own. */
  method OnOwn(client: CMClient, m: Bytes, ghost ps: seq<Bytes>, ghost r: nat, ghost wires: seq<Bytes>,
               ghost es: seq<NetEvent>)
    requires Lawful(client.env) && Agrees(client, ps, r, wires, es)
    modifies client, client.connection`writeQueue, client.connection`outstanding, client.connection`written,
      client.connection`sent
    ensures Agrees(client, ps, r, wires, es + [Own(m)])
  {
    hide client.Valid, Tcp.Feed, Outs, Incomings, FlattenEach, Lawful, Trace, Arrived;
    OwnEvent(client.env, es, m, ps, r);
    client.SendMsg(m);
  }

  lemma OwnEvent(env: Env, es: seq<NetEvent>, m: Bytes, ps: seq<Bytes>, r: nat)
    requires Lawful(env) && |Incomings(Trace(es))| <= |ps|
    ensures Arrived(es + [Own(m)]) == Arrived(es) && Incomings(Trace(es + [Own(m)])) == Incomings(Trace(es))
    ensures Outs(env, Trace(es + [Own(m)]), ps, r)
        == Outs(env, Trace(es), ps, r) + [Sent(|Incomings(Trace(es))| > r, m)]
  {
    hide Lawful, PeerStep;
    assert (es + [Own(m)])[..|es|] == es;
    var t := Trace(es);
    assert (t + [Send(m)])[..|t|] == t;
    assert Incomings(t) + [] == Incomings(t) && Arrived(es) + [] == Arrived(es);
  }

  /** An event of the network changes nothing that the agreement speaks of. */
  lemma NetworkEvent(es: seq<NetEvent>, e: NetEvent)
    requires e.Take? || e.Finish?
    ensures Trace(es + [e]) == Trace(es) && Arrived(es + [e]) == Arrived(es)
  {
    assert (es + [e])[..|es|] == es;
    assert Trace(es) + [] == Trace(es) && Arrived(es) + [] == Arrived(es);
  }

  /** The network takes bytes, or a write completes, where that can happen. */
  method OnNetwork(client: CMClient, e: NetEvent, ghost ps: seq<Bytes>, ghost r: nat, ghost wires: seq<Bytes>,
                   ghost es: seq<NetEvent>)
    requires (e.Take? || e.Finish?) && Lawful(client.env) && Agrees(client, ps, r, wires, es)
    modifies client.connection`writeQueue, client.connection`outstanding, client.connection`written,
      client.connection`wire
    ensures Agrees(client, ps, r, wires, es + [e])
  {
    hide Tcp.Feed, Outs, Incomings, FlattenEach, Lawful, Trace, Arrived;
    NetworkEvent(es, e);
    client.OnWrite(e.Take?, if e.Take? then e.n else 0);
  }

  lemma AgreesFirst(client: CMClient, ps: seq<Bytes>, r: nat, wires: seq<Bytes>)
    requires client.Valid() && !client.channelSecured && client.handled == [] && client.outs == []
    requires client.connection.ReadValid() && client.connection.received == [] && |wires| == |ps|
    ensures Agrees(client, ps, r, wires, [])
  {
    hide client.Valid;
    client.ValidLawful();
    client.connection.ReadsAll();
    assert client.connection.frames == [];
    assert ps[..0] == [] && wires[..0] == [];
  }

  lemma AgreesLast(client: CMClient, ps: seq<Bytes>, r: nat, wires: seq<Bytes>, es: seq<NetEvent>)
    requires Agrees(client, ps, r, wires, es) && Short(wires)
    ensures client.Valid() && client.connection.ReadValid()
    ensures var i := |client.connection.frames|;
      && i <= |ps| && client.connection.frames == wires[..i] && |Incomings(Trace(es))| == i
      && client.handled == FlattenEach(client.env, ps[..i]) && client.channelSecured == (i > r)
    ensures client.outs == Outs(client.env, Trace(es), ps, r) && Lawful(client.env)
    ensures Arrived(es) == Tcp.FrameAll(wires) ==> client.handled == FlattenEach(client.env, ps)
  {
    hide client.Valid, Tcp.Feed, Outs, Trace, FlattenEach;
    client.ValidLawful();
    client.connection.ReadsAll();
    Tcp.FeedFrames(wires);
    assert ps[..|ps|] == ps;
  }

  lemma ChunkFits(events: seq<NetEvent>, e: nat, b: Bytes, wires: seq<Bytes>)
    requires e < |events| && events[e] == Chunk(b) && Arrived(events) <= Tcp.FrameAll(wires)
    ensures Arrived(events[..e]) + b <= Tcp.FrameAll(wires)
  {
    ArrivedPrefix(events, e + 1);
    assert events[..e + 1][..e] == events[..e];
  }

  /** Every run against such a peer, in whatever chunks its bytes arrive: each frame is decoded in the mode it was sent
      in, the frames dispatched are the peer's messages flattened, and what the client gives to async_send is exactly
      what it should send, each message in the right mode. */
  method Run(client: CMClient, events: seq<NetEvent>, ghost ps: seq<Bytes>, ghost r: nat, ghost ivs: seq<nat>,
             ghost wires: seq<Bytes>)
    requires client.Valid() && !client.channelSecured && client.handled == [] && client.outs == []
    requires client.connection.ReadValid() && client.connection.received == []
    requires Inverse(client.env) && PeerSends(client.env, ps, r) && OnWire(client.env, ps, r, ivs, wires)
    requires Short(wires) && Arrived(events) <= Tcp.FrameAll(wires)
    modifies client, client.connection
    ensures client.Valid() && client.connection.ReadValid()
    ensures var i := |client.connection.frames|;
      && i <= |ps| && client.connection.frames == wires[..i] && |Incomings(Trace(events))| == i
      && client.handled == FlattenEach(client.env, ps[..i]) && client.channelSecured == (i > r)
    ensures client.outs == Outs(client.env, Trace(events), ps, r)
    ensures AllAnswered(client.env, Trace(events), ps, r, client.outs)
    ensures |client.connection.sent| == |client.outs|
    ensures forall k :: 0 <= k < |client.outs| ==>
      if client.outs[k].secured then client.env.decrypt(client.connection.sent[k]) == Some(client.outs[k].plain)
      else client.connection.sent[k] == client.outs[k].plain
    ensures Arrived(events) == Tcp.FrameAll(wires) ==> client.handled == FlattenEach(client.env, ps)
  {
    hide PeerSends, OnWire, Agrees, client.Valid, Tcp.Feed, FlattenEach, Outs, Trace, Incomings, Arrived, AllAnswered;
    client.ValidLawful();
    OnWireSize(client.env, ps, r, ivs, wires);
    AgreesFirst(client, ps, r, wires);
    var e := 0;
    assert events[..0] == [];
    while e < |events|
      invariant e <= |events| && Agrees(client, ps, r, wires, events[..e])
    {
      ghost var es := events[..e];
      assert events[..e + 1] == es + [events[e]];
      match events[e] {
        case Chunk(b) =>
          ChunkFits(events, e, b, wires);
          OnChunk(client, b, ps, r, ivs, wires, es);
        case Own(m) =>
          OnOwn(client, m, ps, r, wires, es);
        case _ =>
          OnNetwork(client, events[e], ps, r, wires, es);
      }
      e := e + 1;
    }
    assert events[..e] == events;
    AgreesLast(client, ps, r, wires, events);
    AllFramesAnswered(client.env, Trace(events), ps, r);
    client.SentBack();
  }

  // ---------------------------------------------------------------- what the trace says

  lemma {:induction false} OutsBefore(env: Env, es: seq<Event>, ps: seq<Bytes>, r: nat)
    requires Lawful(env) && PeerSends(env, ps, r) && |Incomings(es)| <= |ps| && |Incomings(es)| <= r
    ensures AllIn(Outs(env, es, ps, r), false)
    decreases |es|
  {
    hide PeerSends, PeerStep;
    if es != [] {
      var front := es[..|es| - 1];
      OutsBefore(env, front, ps, r);
      if es[|es| - 1].Incoming? { StepModes(env, ps, r, |Incomings(front)|); }
    }
  }

  lemma {:induction false} OutsBehind(env: Env, a: seq<Event>, b: seq<Event>, ps: seq<Bytes>, r: nat)
    requires Lawful(env) && PeerSends(env, ps, r) && r < |Incomings(a)| && |Incomings(a + b)| <= |ps|
    ensures |Incomings(a)| <= |Incomings(a + b)|
    ensures var all, first := Outs(env, a + b, ps, r), Outs(env, a, ps, r); first <= all && AllIn(all[|first|..], true)
    decreases |b|
  {
    hide PeerSends, PeerStep;
    if b == [] {
      assert a + b == a;
    } else {
      var front := b[..|b| - 1];
      assert (a + b)[..|a + b| - 1] == a + front && (a + b)[|a + b| - 1] == b[|b| - 1];
      OutsBehind(env, a, front, ps, r);
      if b[|b| - 1].Incoming? { StepModes(env, ps, r, |Incomings(a + front)|); }
    }
  }

  /** The successful result, frame k of what message r holds, divides a whole run: what is sent up to it is plaintext,
      and everything sent from it on is ciphertext: by listeners of that very result, by later frames of the message,
      and by all that comes behind. */
  lemma ResultDividesRun(env: Env, a: seq<Event>, f: Bytes, b: seq<Event>, ps: seq<Bytes>, r: nat, k: nat)
    requires Lawful(env) && PeerSends(env, ps, r) && |Incomings(a)| == r < |ps|
    requires |Incomings(a + [Incoming(f)] + b)| <= |ps|
    requires k < |Flatten(env, ps[r])| && Success(env, Flatten(env, ps[r])[k])
    ensures Sized(Flatten(env, ps[r])[..k])
    ensures var all := Outs(env, a + [Incoming(f)] + b, ps, r);
      var plain := Outs(env, a, ps, r) + Steps(env, false, Flatten(env, ps[r])[..k]).1;
      plain <= all && AllIn(plain, false) && AllIn(all[|plain|..], true)
  {
    hide Steps, Flatten;
    var fs := Flatten(env, ps[r]);
    FlattenSized(env, ps[r]);
    var x := a + [Incoming(f)];
    assert x[..|x| - 1] == a;
    assert OneResult(env, fs);
    OutsBefore(env, a, ps, r);
    ResultDivides(env, fs, k);
    PeerStepIs(env, ps, r, r);
    OutsBehind(env, x, b, ps, r);
  }
}
