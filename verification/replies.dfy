/** What each dispatched frame makes the client send, told by the first four bytes of the frame. */
module Replies {
  import opened Basics
  import opened OrderBuffer
  import opened Multi
  import opened Session

  /** ChannelEncryptRequest, ChannelEncryptResponse and ChannelEncryptResult are 1303, 1304 and 1305; the top bit marks
      protobuf messages, among them Multi, which is 1. */
  predicate IsRequest(d: Bytes) { |d| >= 4 && d[0] == 0x17 && d[1] == 0x05 && d[2] == 0x00 && d[3] == 0x00 }
  predicate IsResponse(d: Bytes) { |d| >= 4 && d[0] == 0x18 && d[1] == 0x05 && d[2] == 0x00 && d[3] == 0x00 }
  predicate IsResult(d: Bytes) { |d| >= 4 && d[0] == 0x19 && d[1] == 0x05 && d[2] == 0x00 && d[3] == 0x00 }
  predicate IsPack(d: Bytes) { |d| >= 4 && d[0] == 0x01 && d[1] == 0x00 && d[2] == 0x00 && d[3] == 0x80 }
  predicate IsProto(d: Bytes) { |d| >= 4 && d[3] >= 0x80 }

  lemma KindsAre(d: Bytes)
    requires |d| >= 4
    ensures IsRequest(d) <==> EMsg(d) == REQUEST
    ensures IsResponse(d) <==> EMsg(d) == RESPONSE
    ensures IsResult(d) <==> EMsg(d) == RESULT
    ensures IsProto(d) <==> EMsg(d) >= PROTO_MASK
    ensures IsPack(d) <==> IsMulti(d)
  {}

  /** These messages, in this order and mode, and no others. */
  predicate Carries(out: seq<Sent>, secured: bool, ms: seq<Bytes>) {
    |out| == |ms| && forall j :: 0 <= j < |ms| ==> out[j].secured == secured && out[j].plain == ms[j]
  }

  /** What frame d adds to the messages sent, in mode secured before it and next behind it. */
  ghost predicate Answers(env: Env, secured: bool, d: Bytes, next: bool, added: seq<Sent>) {
    && (IsRequest(d) ==> next == secured && match env.request(d)
        case Reply(m) => Carries(added, secured, [m])
        case Refused => Carries(added, secured, env.listener(false).sends)
        case Malformed => added == [])
    && (IsResult(d) ==> match env.result(d)
        case Some(ok) => next == ok && Carries(added, ok, env.listener(ok).sends)
        case None => next == secured && added == [])
    && (IsResponse(d) || (IsProto(d) && !IsPack(d)) ==> next == secured && Carries(added, secured, env.leaf(d).sends))
    && (IsPack(d) || !(IsRequest(d) || IsResult(d) || IsResponse(d) || IsProto(d)) ==> next == secured && added == [])
  }

  /** Whether dispatching d ends in an exception. */
  predicate Fails(env: Env, d: Bytes) {
    || (IsRequest(d) && (env.request(d) == Malformed || (env.request(d) == Refused && env.listener(false).throws)))
    || (IsResult(d) && match env.result(d) case None => true case Some(ok) => env.listener(ok).throws)
    || (IsPack(d) && env.multi(d).None?)
    || ((IsResponse(d) || (IsProto(d) && !IsPack(d))) && env.leaf(d).throws)
  }

  lemma ThrowsAre(env: Env, d: Bytes)
    requires |d| >= 4
    ensures Throws(env, d) <==> Fails(env, d)
  {
    hide EMsg, IsRequest, IsResponse, IsResult, IsPack, IsProto;
    KindsAre(d);
  }

  lemma StepAnswers(env: Env, secured: bool, d: Bytes)
    requires |d| >= 4
    ensures Answers(env, secured, d, Step(env, secured, d).0, Step(env, secured, d).1)
  {
    hide EMsg, IsRequest, IsResponse, IsResult, IsPack, IsProto;
    KindsAre(d);
  }

  /** Frame k of a sequence adds its own answer behind those of the frames before it, and nothing else. */
  lemma StepsAnswer(env: Env, secured: bool, fs: seq<Bytes>, k: nat)
    requires Sized(fs) && k < |fs|
    ensures var (mode, before) := Steps(env, secured, fs[..k]);
      var (next, upto) := Steps(env, secured, fs[..k + 1]);
      && before <= upto <= Steps(env, secured, fs).1
      && Answers(env, mode, fs[k], next, upto[|before|..])
  {
    hide Step, Steps, Answers;
    var (mode, before) := Steps(env, secured, fs[..k]);
    assert fs[..k + 1] == fs[..k] + [fs[k]];
    StepsAppend(env, secured, fs[..k], [fs[k]]);
    CMClient.OneStep(env, mode, fs[k]);
    StepAnswers(env, mode, fs[k]);
    assert fs == fs[..k + 1] + fs[k + 1..];
    StepsAppend(env, secured, fs[..k + 1], fs[k + 1..]);
    assert Steps(env, secured, fs[..k + 1]).1[|before|..] == Step(env, mode, fs[k]).1;
  }
}
