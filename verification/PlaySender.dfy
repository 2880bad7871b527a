/**
  The sender of the play phase. It writes with the encoder left in its slot, so a write that is
  given up when the connection closes leaves the encoder between two bytes; the disconnect packet
  that follows is then written with the same encoder.
 */
module PlaySender {
  import opened Bytes
  import opened CipherStream
  import NetworkWriter
  import Framing
  import VarInts

  type Encoder = NetworkWriter.Encoder
  type Outbound = NetworkWriter.Outbound

  // ----- Reusing an encoder between two bytes -----

  /**
    The plaintext that the peer sees when `next` follows a write of `begun` given up after `k`
    bytes: a byte that the encoder had saved stands in for the first byte of `next`.
   */
  ghost function Splice(begun: seq<byte>, k: nat, saved: bool, next: seq<byte>): (r: seq<byte>)
    requires k <= |begun| && next != [] && (saved ==> k < |begun|)
  {
    if saved then begun[..k + 1] + next[1..] else begun[..k] + next
  }

  lemma SpliceShape(begun: seq<byte>, k: nat, saved: bool, next: seq<byte>)
    requires k <= |begun| && next != [] && (saved ==> k < |begun|)
    ensures var plain := Splice(begun, k, saved, next);
            && |plain| == k + |next|
            && plain[..k] == begun[..k]
            && (saved ==> plain[..k + 1] == begun[..k + 1])
            && (!saved ==> plain[k..] == next)
            && plain[k + 1..] == next[1..]
  {
  }

  lemma StepDependsOnPrefix(aes: Keystream, reg: Register, s: EncryptorState, a: seq<byte>, b: seq<byte>, k: nat)
    requires InStep(aes, reg, s, a, k) && k <= |b| && a[..k] == b[..k]
    requires s.saved.Some? ==> k < |b| && a[..k + 1] == b[..k + 1]
    ensures InStep(aes, reg, s, b, k)
  {
    hide Encrypt, Advance;
  }

  /** Two buffers that differ at most in a first byte for which the encoder has one saved. */
  ghost predicate Masked(s: EncryptorState, a: seq<byte>, b: seq<byte>)
  {
    a == b || (s.saved.Some? && a != [] && b != [] && a[1..] == b[1..])
  }

  lemma MaskedPollsAgree(
    aes: Keystream, s: EncryptorState, a: seq<byte>, b: seq<byte>, answers: seq<Answer>, total: nat)
    requires Masked(s, a, b) && |answers| >= |a| == |b|
    ensures PollFrom(aes, s, a, answers, total) == PollFrom(aes, s, b, answers, total)
  {
    if a != b {
      assert NextByte(aes, s, a[0]) == NextByte(aes, s, b[0]);
    }
  }

  /** While nothing is accepted, a saved byte is still the one that was saved. */
  lemma {:induction false} PollKeepsMask(
    aes: Keystream, s: EncryptorState, buf: seq<byte>, answers: seq<Answer>, total: nat)
    requires |answers| >= |buf| && Lossless(answers)
    ensures var (s', result) := PollFrom(aes, s, buf, answers, total);
            && (result.PollPending? ==> s'.saved.Some?)
            && (result == PollReady(total) && s.saved.Some? ==> s'.saved.Some?)
    decreases |buf|
  {
    if buf != [] && answers[0] == Took {
      var (out, reg) := NextByte(aes, s, buf[0]);
      PollKeepsMask(aes, EncryptorState(reg, None, s.delivered + [out]), buf[1..], answers[1..], total + 1);
    }
  }

  lemma MaskedTails(s: EncryptorState, a: seq<byte>, b: seq<byte>, n: nat)
    requires Masked(s, a, b) && |a| == |b| && n <= |a|
    ensures n > 0 ==> a[n..] == b[n..]
    ensures Masked(s, a[..n], b[..n])
  {
    if a != b && n > 0 {
      assert a[n..] == a[1..][n - 1..] && b[n..] == b[1..][n - 1..];
      assert a[..n][1..] == a[1..][..n - 1] && b[..n][1..] == b[1..][..n - 1];
    }
  }

  /** The rests of two buffers, masked. */
  ghost predicate MaskedFrom(s: EncryptorState, a: seq<byte>, i: nat, b: seq<byte>, j: nat)
  {
    i <= |a| && j <= |b| && |a| - i == |b| - j && Masked(s, a[i..], b[j..])
  }

  /** One poll over buffers that differ only in a masked byte: the same outcome, and the rests agree. */
  lemma MaskedPoll(aes: Keystream, s: EncryptorState, a: seq<byte>, i: nat, b: seq<byte>, j: nat, call: Call)
    requires MaskedFrom(s, a, i, b, j) && |call.answers| >= call.len && Lossless(call.answers)
    ensures var r := PollOf(aes, s, a, i, call);
            && r == PollOf(aes, s, b, j, call)
            && (r.1.PollPending? ==> MaskedFrom(r.0, a, i, b, j))
            && (r.1.PollReady? ==> MaskedFrom(r.0, a, i + r.1.written, b, j + r.1.written))
  {
    var u, v := a[i..], b[j..];
    var len := Min(call.len, |a| - i);
    MaskedTails(s, u, v, len);
    assert u[..len] == a[i..i + len] && v[..len] == b[j..j + len];
    MaskedPollsAgree(aes, s, a[i..i + len], b[j..j + len], call.answers, 0);
    PollKeepsMask(aes, s, a[i..i + len], call.answers, 0);
    hide PollFrom;
    var r := PollOf(aes, s, a, i, call);
    if r.1.PollReady? {
      var n := r.1.written;
      MaskedTails(s, u, v, n);
      assert u[n..] == a[i + n..] && v[n..] == b[j + n..];
    }
  }

  ghost predicate SameRun(r: Run, i: nat, t: Run, j: nat)
  {
    r.state == t.state && r.failed == t.failed && r.accepted - i == t.accepted - j
  }

  /** Runs over such buffers do the same thing. */
  lemma {:induction false} MaskedRunsAgree(
    aes: Keystream, s: EncryptorState, a: seq<byte>, i: nat, b: seq<byte>, j: nat, calls: seq<Call>)
    requires i <= |a| && j <= |b| && MaskedFrom(s, a, i, b, j) && CallsFit(calls)
    ensures SameRun(RunCalls(aes, s, a, i, calls), i, RunCalls(aes, s, b, j, calls), j)
    decreases |calls|
  {
    if calls != [] {
      hide PollOf, MaskedFrom, RunCalls, CallsFit;
      RunStep(aes, s, a, i, calls);
      RunStep(aes, s, b, j, calls);
      MaskedPoll(aes, s, a, i, b, j, calls[0]);
      var r := PollOf(aes, s, a, i, calls[0]);
      if r.1.PollPending? {
        MaskedRunsAgree(aes, r.0, a, i, b, j, calls[1..]);
      } else if r.1.PollReady? {
        MaskedRunsAgree(aes, r.0, a, i + r.1.written, b, j + r.1.written, calls[1..]);
      }
    }
  }

  /**
    An encoder that is reused after a write given up between two bytes puts the splice of the two
    packets on the wire, for every schedule of polls and inner answers.
   */
  lemma ResumedEncoderSplicesPackets(
    aes: Keystream, reg: Register, s: EncryptorState, begun: seq<byte>, k: nat, next: seq<byte>, calls: seq<Call>)
    requires InStep(aes, reg, s, begun, k) && next != [] && CallsFit(calls)
    ensures k <= |begun| && (s.saved.Some? ==> k < |begun|)
    ensures var r := RunCalls(aes, s, next, 0, calls);
            var plain := Splice(begun, k, s.saved.Some?, next);
            && r.accepted <= |next|
            && (!r.failed ==> k + r.accepted <= |plain| && InStep(aes, reg, r.state, plain, k + r.accepted))
            && (r.failed ==> r.state.delivered <= Encrypt(aes, reg, plain))
  {
    StepIsInside(aes, reg, s, begun, k);
    assert s.saved.Some? ==> k < |begun|;
    var plain := Splice(begun, k, s.saved.Some?, next);
    SpliceShape(begun, k, s.saved.Some?, next);
    hide Encrypt, Advance, PollFrom, Splice, InStep, RunCalls;
    StepDependsOnPrefix(aes, reg, s, begun, plain, k);
    assert next[0..] == next && plain[k..][1..] == plain[k + 1..];
    MaskedRunsAgree(aes, s, next, 0, plain, k, calls);
    RunKeepsStep(aes, reg, s, plain, k, calls);
    var r := RunCalls(aes, s, plain, k, calls);
    if r.failed {
      EncryptPrefix(aes, reg, plain, |r.state.delivered|);
    }
  }

  /** Where a given-up write may have stopped so that the next packet still arrives as itself. */
  ghost predicate AtBoundary(begun: seq<byte>, k: nat, saved: bool, next: seq<byte>)
    requires k <= |begun| && next != [] && (saved ==> k < |begun|)
  {
    k == |begun| || (k == 0 && (saved ==> begun[0] == next[0]))
  }

  lemma SpliceIsWholeExactlyAtBoundaries(begun: seq<byte>, k: nat, saved: bool, next: seq<byte>)
    requires k <= |begun| && next != [] && (saved ==> k < |begun|)
    ensures var plain := Splice(begun, k, saved, next);
            (plain == next || plain == begun + next) <==> AtBoundary(begun, k, saved, next)
  {
    var plain := Splice(begun, k, saved, next);
    assert |plain| == k + |next|;
    if saved {
      assert plain[k] == begun[k];
      assert k == 0 && begun[0] == next[0] ==> plain == next;
    } else {
      assert k == 0 ==> plain == next;
      assert k == |begun| ==> plain == begun + next;
    }
  }

  /**
    So, however the second write is scheduled, once it is complete the peer reads its packet intact
    exactly when the first write had put all of its bytes on the wire, or none of them and saved
    none either (unless the saved byte happens to be the next packet's own first byte).
   */
  lemma InPlaceReuseIsSafeExactlyAtBoundaries(
    aes: Keystream, reg: Register, s: EncryptorState, begun: seq<byte>, k: nat, next: seq<byte>, calls: seq<Call>)
    requires InStep(aes, reg, s, begun, k) && next != [] && CallsFit(calls)
    requires var r := RunCalls(aes, s, next, 0, calls); !r.failed && r.accepted == |next|
    ensures k <= |begun| && (s.saved.Some? ==> k < |begun|)
    ensures var peer := Decrypt(aes, reg, RunCalls(aes, s, next, 0, calls).state.delivered);
            (peer == next || peer == begun + next) <==> AtBoundary(begun, k, s.saved.Some?, next)
  {
    hide Encrypt, Decrypt, RunCalls, InStep, CallsFit, Splice, AtBoundary;
    ResumedEncoderSplicesPackets(aes, reg, s, begun, k, next, calls);
    CompleteSplice(aes, reg, RunCalls(aes, s, next, 0, calls).state, begun, k, s.saved.Some?, next);
  }

  lemma CompleteSplice(
    aes: Keystream, reg: Register, s: EncryptorState, begun: seq<byte>, k: nat, saved: bool, next: seq<byte>)
    requires k <= |begun| && next != [] && (saved ==> k < |begun|)
    requires InStep(aes, reg, s, Splice(begun, k, saved, next), k + |next|)
    ensures var peer := Decrypt(aes, reg, s.delivered);
            (peer == next || peer == begun + next) <==> AtBoundary(begun, k, saved, next)
  {
    var plain := Splice(begun, k, saved, next);
    SpliceShape(begun, k, saved, next);
    SpliceIsWholeExactlyAtBoundaries(begun, k, saved, next);
    hide Encrypt, Decrypt, Advance, Splice, AtBoundary;
    assert plain[..k + |next|] == plain;
    DecryptInvertsEncrypt(aes, reg, plain);
  }

  // ----- The sender as steps -----

  /** `Parting` is the best-effort write of a disconnect packet, after which the encoder is gone. */
  datatype Phase = Idle | Sending | Parting | Over

  /**
    `progress` is the encoder, with everything it has delivered since play began, and `accepted`
    counts the bytes taken of the packet being written. The other fields record what happened: the
    packets written whole, the one begun and not finished, where its write stood and whether a byte
    was saved when the close was seen, the parting disconnect, the items taken from the queue, and what
    was still in it when the close was seen.
   */
  datatype State = State(
    phase: Phase,
    progress: EncryptorState,
    accepted: nat,
    queue: seq<Outbound>,
    closed: bool,
    finished: seq<seq<byte>>,
    begun: Option<seq<byte>>,
    stopped: nat,
    savedThen: bool,
    parting: Option<seq<byte>>,
    popped: seq<Outbound>,
    drained: Option<seq<Outbound>>)
  {
    /** The packet being written. */
    function Current(): (p: Option<seq<byte>>)
    {
      match phase
      case Sending => begun
      case Parting => parting
      case _ => None
    }
  }

  /** Play begins with the encoder at a packet boundary, and with whatever is queued. */
  function Start(e: Encoder, queue: seq<Outbound>): (st: State)
  {
    var unused := EncryptorState(NetworkWriter.StartRegister(e), None, []);
    State(Idle, unused, 0, queue, false, [], None, 0, false, None, [], None)
  }

  datatype Step =
    | Enqueue(item: Outbound)
    | Close                        // the connection's token is cancelled
    | Pop
    | Poll(answers: seq<Answer>)
    | Finish                       // written and flushed
    | Fail                         // the write or the flush fails, or the parting write times out
    | SeeClose
    | HangUp                       // the queue is gone

  predicate Enabled(st: State, step: Step)
  {
    match step
    case Enqueue(item) => item.packet != []
    case Close => true
    case Pop => st.phase.Idle? && !st.closed && st.queue != []
    case Poll(answers) =>
      && st.Current().Some?
      && |answers| == |st.Current().value| - st.accepted > 0
      && Lossless(answers)
    case Finish => st.Current().Some? && st.accepted == |st.Current().value|
    case Fail => st.Current().Some?
    case SeeClose => st.closed && (st.phase.Idle? || st.phase.Sending?)
    case HangUp => st.phase.Idle? && st.queue == []
  }

  function AfterPoll(st: State, s: EncryptorState, result: PollResult): (r: State)
  {
    match result
    case PollPending => st.(progress := s)
    case PollReady(n) => st.(progress := s, accepted := st.accepted + n)
    case PollError => st.(progress := s, phase := Over, closed := true)
  }

  function Next(aes: NetworkWriter.Aes, e: Encoder, st: State, step: Step): (r: State)
    requires Enabled(st, step)
  {
    match step
    case Enqueue(item) => st.(queue := st.queue + [item])
    case Close => st.(closed := true)
    case Pop =>
      var st' := st.(queue := st.queue[1..], accepted := 0, popped := st.popped + [st.queue[0]]);
      if st.queue[0].Disconnect? then st'.(phase := Parting, closed := true, parting := Some(st.queue[0].packet))
      else st'.(phase := Sending, begun := Some(st.queue[0].packet))
    case Poll(answers) =>
      var end := NetworkWriter.PollWriter(aes, e, st.progress, st.Current().value[st.accepted..], answers);
      AfterPoll(st, end.0, end.1)
    case Finish =>
      if st.phase.Parting? then st.(phase := Over)
      else st.(phase := Idle, finished := st.finished + [st.begun.value], begun := None, accepted := 0)
    case Fail => st.(phase := Over, closed := true)
    case SeeClose =>
      var last := NetworkWriter.LastDisconnect(st.queue);
      var st' := st.(queue := [], stopped := st.accepted, savedThen := st.progress.saved.Some?,
                     drained := Some(st.queue));
      if last.None? then st'.(phase := Over)
      else st'.(phase := Parting, parting := last, accepted := 0)
    case HangUp => st.(phase := Over, closed := true)
  }

  ghost predicate ValidRun(aes: NetworkWriter.Aes, e: Encoder, st: State, steps: seq<Step>)
    decreases |steps|
  {
    steps == [] || (Enabled(st, steps[0]) && ValidRun(aes, e, Next(aes, e, st, steps[0]), steps[1..]))
  }

  ghost function Runs(aes: NetworkWriter.Aes, e: Encoder, st: State, steps: seq<Step>): (r: State)
    requires ValidRun(aes, e, st, steps)
    decreases |steps|
  {
    if steps == [] then st else Runs(aes, e, Next(aes, e, st, steps[0]), steps[1..])
  }

  // ----- What the wire carries -----

  ghost predicate Spliced(st: State)
  {
    st.begun.Some? && st.parting.Some?
  }

  predicate NoEmptyPackets(queue: seq<Outbound>)
  {
    forall i | 0 <= i < |queue| :: queue[i].packet != []
  }

  ghost predicate ShapeOk(st: State)
  {
    && (st.parting.Some? ==> st.parting.value != [])
    && (Spliced(st) ==> st.stopped <= |st.begun.value| && (st.savedThen ==> st.stopped < |st.begun.value|))
    && NoEmptyPackets(st.queue)
  }

  /** The plaintext behind the finished packets. */
  ghost function Tail(st: State): (r: seq<byte>)
    requires ShapeOk(st)
  {
    if Spliced(st) then Splice(st.begun.value, st.stopped, st.savedThen, st.parting.value)
    else if st.parting.Some? then st.parting.value
    else if st.begun.Some? then st.begun.value
    else []
  }

  ghost function Plain(st: State): (r: seq<byte>)
    requires ShapeOk(st)
  {
    Concat(st.finished) + Tail(st)
  }

  /** How far into that plaintext the encoder has got. */
  ghost function Taken(st: State): (n: nat)
  {
    |Concat(st.finished)| + st.accepted + if Spliced(st) then st.stopped else 0
  }

  ghost predicate Inv(aes: NetworkWriter.Aes, e: Encoder, st: State)
  {
    && ShapeOk(st)
    && (e.Plain? ==> st.progress.saved.None?)
    && (st.phase.Idle? ==> st.begun.None? && st.parting.None? && st.accepted == 0)
    && (st.phase.Sending? ==> st.begun.Some? && st.parting.None?)
    && (st.phase.Parting? ==> st.parting.Some?)
    && (st.phase.Parting? && Spliced(st) && st.savedThen && st.accepted == 0 ==> st.progress.saved.Some?)
    && (st.Current().Some? ==> st.accepted <= |st.Current().value|)
    && (!st.phase.Over? ==> NetworkWriter.Progressing(aes, e, st.progress, Plain(st), Taken(st)))
    && (st.phase.Over? ==>
          && st.progress.delivered <= NetworkWriter.Coded(aes, e, Plain(st))
          && (st.parting.Some? && st.accepted == |st.parting.value| ==>
                st.progress.delivered == NetworkWriter.Coded(aes, e, Plain(st))))
  }

  lemma ProgressEnds(aes: NetworkWriter.Aes, e: Encoder, s: EncryptorState, plain: seq<byte>, k: nat)
    requires NetworkWriter.Progressing(aes, e, s, plain, k)
    ensures s.delivered <= NetworkWriter.Coded(aes, e, plain)
    ensures k == |plain| ==> s.delivered == NetworkWriter.Coded(aes, e, plain)
    ensures k == |plain| && e.Keyed? ==> s.saved.None?
  {
    NetworkWriter.ProgressIsPrefix(aes, e, s, plain, k);
    assert plain[..|plain|] == plain;
  }

  lemma MaskedWritesAgree(
    aes: NetworkWriter.Aes, e: Encoder, s: EncryptorState, a: seq<byte>, b: seq<byte>, answers: seq<Answer>)
    requires Masked(s, a, b) && |answers| == |a| == |b| > 0 && (e.Plain? ==> s.saved.None?) && Lossless(answers)
    ensures NetworkWriter.PollWriter(aes, e, s, a, answers) == NetworkWriter.PollWriter(aes, e, s, b, answers)
    ensures var (s', result) := NetworkWriter.PollWriter(aes, e, s, a, answers);
            && (e.Plain? ==> s'.saved.None?)
            && (e.Keyed? && s.saved.Some? && (result.PollPending? || result == PollReady(0)) ==> s'.saved.Some?)
  {
    if e.Keyed? {
      MaskedPollsAgree(aes(e.key), s, a, b, answers, 0);
      PollKeepsMask(aes(e.key), s, a, answers, 0);
    }
  }

  /** What is left of the packet being written is what is left of the plaintext, but for a masked byte. */
  lemma RestIsMasked(aes: NetworkWriter.Aes, e: Encoder, st: State)
    requires Inv(aes, e, st) && st.Current().Some?
    ensures Taken(st) <= |Plain(st)| && |Plain(st)| - Taken(st) == |st.Current().value| - st.accepted
    ensures Masked(st.progress, st.Current().value[st.accepted..], Plain(st)[Taken(st)..])
    ensures NetworkWriter.Progressing(aes, e, st.progress, Plain(st), Taken(st))
    ensures e.Plain? ==> st.progress.saved.None?
  {
    hide Concat, NetworkWriter.Progressing, NetworkWriter.Coded;
    var base := |Concat(st.finished)|;
    var p, tail := st.Current().value, Tail(st);
    assert Plain(st)[base..] == tail;
    if Spliced(st) {
      SpliceShape(st.begun.value, st.stopped, st.savedThen, p);
      var at := st.stopped + st.accepted;
      assert Plain(st)[Taken(st)..] == tail[at..];
      if st.accepted > 0 || !st.savedThen {
        assert tail[at..] == p[st.accepted..] by {
          if st.savedThen {
            assert tail[at..] == tail[st.stopped + 1..][st.accepted - 1..];
            assert p[st.accepted..] == p[1..][st.accepted - 1..];
          } else {
            assert tail[at..] == tail[st.stopped..][st.accepted..];
          }
        }
      } else {
        assert tail[at..][1..] == tail[st.stopped + 1..];
        assert p[st.accepted..] == p;
      }
    } else {
      assert Plain(st)[Taken(st)..] == tail[st.accepted..];
    }
  }

  /** A write that goes on after a poll, with `n` more bytes accepted. */
  lemma ResumedKeepsInv(aes: NetworkWriter.Aes, e: Encoder, st: State, s: EncryptorState, n: nat)
    requires Inv(aes, e, st) && st.Current().Some? && (e.Plain? ==> s.saved.None?)
    requires NetworkWriter.Progressing(aes, e, s, Plain(st), Taken(st) + n)
    requires st.accepted + n <= |st.Current().value|
    requires n == 0 && st.progress.saved.Some? ==> s.saved.Some?
    ensures Inv(aes, e, st.(progress := s, accepted := st.accepted + n))
  {
    hide Concat, NetworkWriter.Progressing, NetworkWriter.Coded, Splice;
    var st' := st.(progress := s, accepted := st.accepted + n);
    assert ShapeOk(st') && Plain(st') == Plain(st) && Taken(st') == Taken(st) + n;
  }

  /** A write that ends in an error. */
  lemma BrokenKeepsInv(aes: NetworkWriter.Aes, e: Encoder, st: State, s: EncryptorState)
    requires Inv(aes, e, st) && st.Current().Some? && st.accepted < |st.Current().value|
    requires (e.Plain? ==> s.saved.None?) && s.delivered <= NetworkWriter.Coded(aes, e, Plain(st))
    ensures Inv(aes, e, st.(progress := s, phase := Over, closed := true))
  {
    hide Concat, NetworkWriter.Progressing, NetworkWriter.Coded, Splice;
    var st' := st.(progress := s, phase := Over, closed := true);
    assert ShapeOk(st') && Plain(st') == Plain(st);
  }

  /** One poll over the rest of a packet, seen as one over the rest of the plaintext. */
  lemma MaskedPollProgresses(
    aes: NetworkWriter.Aes, e: Encoder, s: EncryptorState, rest: seq<byte>, plain: seq<byte>, at: nat,
    answers: seq<Answer>)
    requires NetworkWriter.Progressing(aes, e, s, plain, at) && (e.Plain? ==> s.saved.None?)
    requires at <= |plain| && |plain| - at == |rest| == |answers| > 0 && Lossless(answers)
    requires Masked(s, rest, plain[at..])
    ensures var r := NetworkWriter.PollWriter(aes, e, s, rest, answers);
            && (e.Plain? ==> r.0.saved.None?)
            && (r.1.PollPending? ==>
                  NetworkWriter.Progressing(aes, e, r.0, plain, at) && (s.saved.Some? ==> r.0.saved.Some?))
            && (r.1.PollReady? ==>
                  && NetworkWriter.Progressing(aes, e, r.0, plain, at + r.1.written) && at + r.1.written <= |plain|
                  && (r.1.written == 0 && s.saved.Some? ==> r.0.saved.Some?))
            && (r.1.PollError? ==> r.0.delivered <= NetworkWriter.Coded(aes, e, plain))
  {
    MaskedWritesAgree(aes, e, s, rest, plain[at..], answers);
    NetworkWriter.PollProgresses(aes, e, s, plain, at, answers);
    hide NetworkWriter.Progressing, NetworkWriter.Coded, NetworkWriter.PollWriter, Masked;
    var r := NetworkWriter.PollWriter(aes, e, s, rest, answers);
    if r.1.PollReady? {
      ProgressIsInside(aes, e, r.0, plain, at + r.1.written);
    }
  }

  /** A poll whose outcome is known. */
  lemma PolledKeepsInv(aes: NetworkWriter.Aes, e: Encoder, st: State, s: EncryptorState, result: PollResult)
    requires Inv(aes, e, st) && st.Current().Some? && st.accepted < |st.Current().value| && (e.Plain? ==> s.saved.None?)
    requires |Plain(st)| - Taken(st) == |st.Current().value| - st.accepted
    requires result.PollPending? ==>
               NetworkWriter.Progressing(aes, e, s, Plain(st), Taken(st)) && (st.progress.saved.Some? ==> s.saved.Some?)
    requires result.PollReady? ==>
               && Taken(st) + result.written <= |Plain(st)|
               && NetworkWriter.Progressing(aes, e, s, Plain(st), Taken(st) + result.written)
               && (result.written == 0 && st.progress.saved.Some? ==> s.saved.Some?)
    requires result.PollError? ==> s.delivered <= NetworkWriter.Coded(aes, e, Plain(st))
    ensures Inv(aes, e, AfterPoll(st, s, result))
  {
    hide Inv, Plain, Taken, ShapeOk, NetworkWriter.Progressing, NetworkWriter.Coded;
    match result
    case PollPending => ResumedKeepsInv(aes, e, st, s, 0);
    case PollReady(n) => ResumedKeepsInv(aes, e, st, s, n);
    case PollError => BrokenKeepsInv(aes, e, st, s);
  }

  lemma PollKeepsInv(aes: NetworkWriter.Aes, e: Encoder, st: State, answers: seq<Answer>)
    requires Inv(aes, e, st) && Enabled(st, Poll(answers))
    ensures Inv(aes, e, Next(aes, e, st, Poll(answers)))
  {
    RestIsMasked(aes, e, st);
    assert ShapeOk(st);
    var rest := st.Current().value[st.accepted..];
    var at, total := Taken(st), |Plain(st)|;
    assert 0 < |rest| == |answers| == total - at && Lossless(answers);
    hide Inv, Plain, Taken, ShapeOk, AfterPoll, Concat, Splice;
    hide NetworkWriter.Progressing, NetworkWriter.Coded, NetworkWriter.PollWriter, Masked;
    MaskedPollProgresses(aes, e, st.progress, rest, Plain(st), Taken(st), answers);
    var end := NetworkWriter.PollWriter(aes, e, st.progress, rest, answers);
    PolledKeepsInv(aes, e, st, end.0, end.1);
  }

  lemma ProgressIsInside(aes: NetworkWriter.Aes, e: Encoder, s: EncryptorState, plain: seq<byte>, k: nat)
    requires NetworkWriter.Progressing(aes, e, s, plain, k)
    ensures k <= |plain|
  {
  }

  lemma FinishKeepsInv(aes: NetworkWriter.Aes, e: Encoder, st: State)
    requires Inv(aes, e, st) && Enabled(st, Finish)
    ensures Inv(aes, e, Next(aes, e, st, Finish))
  {
    RestIsMasked(aes, e, st);
    ProgressEnds(aes, e, st.progress, Plain(st), Taken(st));
    if st.phase.Sending? {
      ConcatAppend(st.finished, st.begun.value);
    }
    hide Concat, NetworkWriter.Progressing, NetworkWriter.Coded, Splice, Masked;
    var st' := Next(aes, e, st, Finish);
    if st.phase.Sending? {
      assert Plain(st') == Plain(st) + [] == Plain(st);
    } else {
      assert Plain(st') == Plain(st);
    }
  }

  lemma FailKeepsInv(aes: NetworkWriter.Aes, e: Encoder, st: State)
    requires Inv(aes, e, st) && Enabled(st, Fail)
    ensures Inv(aes, e, Next(aes, e, st, Fail))
  {
    RestIsMasked(aes, e, st);
    ProgressEnds(aes, e, st.progress, Plain(st), Taken(st));
    hide Concat, NetworkWriter.Progressing, NetworkWriter.Coded, Splice, Masked;
    assert Plain(Next(aes, e, st, Fail)) == Plain(st);
  }

  /** Progress carries over to another plaintext that agrees up to the saved byte. */
  lemma ProgressDependsOnPrefix(
    aes: NetworkWriter.Aes, e: Encoder, s: EncryptorState, a: seq<byte>, b: seq<byte>, k: nat)
    requires NetworkWriter.Progressing(aes, e, s, a, k) && k <= |b| && a[..k] == b[..k]
    requires e.Keyed? && s.saved.Some? && k < |a| ==> k < |b| && a[..k + 1] == b[..k + 1]
    ensures NetworkWriter.Progressing(aes, e, s, b, k)
    ensures e.Keyed? && s.saved.Some? ==> k < |a|
  {
    if e.Keyed? {
      StepDependsOnPrefix(aes(e.key), e.register, s, a, b, k);
    }
  }

  lemma SavedIsInside(aes: NetworkWriter.Aes, e: Encoder, st: State)
    requires Inv(aes, e, st) && (st.phase.Idle? || st.phase.Sending?)
    ensures st.progress.saved.Some? ==> st.phase.Sending? && st.accepted < |st.begun.value|
  {
    hide Concat;
    if st.phase.Sending? {
      RestIsMasked(aes, e, st);
    }
  }

  /** The plaintext after a close agrees with the one before up to where the write stood. */
  lemma SpliceAgrees(base: seq<byte>, begun: seq<byte>, k: nat, saved: bool, next: seq<byte>)
    requires k <= |begun| && next != [] && (saved ==> k < |begun|)
    ensures var a, b := base + begun, base + Splice(begun, k, saved, next);
            var n := |base| + k;
            && n <= |b| && a[..n] == b[..n]
            && (saved ==> n < |b| && a[..n + 1] == b[..n + 1])
  {
    SpliceShape(begun, k, saved, next);
    var tail := Splice(begun, k, saved, next);
    assert (base + begun)[..|base| + k] == base + begun[..k];
    assert (base + tail)[..|base| + k] == base + tail[..k];
    if saved {
      assert (base + begun)[..|base| + k + 1] == base + begun[..k + 1];
      assert (base + tail)[..|base| + k + 1] == base + tail[..k + 1];
    }
  }

  /** The close is seen and a disconnect packet was queued. */
  lemma PartingKeepsInv(aes: NetworkWriter.Aes, e: Encoder, st: State, last: seq<byte>)
    requires Inv(aes, e, st) && (st.phase.Idle? || st.phase.Sending?) && last != []
    ensures Inv(aes, e, st.(queue := [], stopped := st.accepted, savedThen := st.progress.saved.Some?,
                            phase := Parting, parting := Some(last), accepted := 0))
  {
    SavedIsInside(aes, e, st);
    hide Concat, NetworkWriter.Progressing, NetworkWriter.Coded, Splice;
    var saved := st.progress.saved.Some?;
    var st' := st.(queue := [], stopped := st.accepted, savedThen := saved,
                   phase := Parting, parting := Some(last), accepted := 0);
    var base := Concat(st.finished);
    if st.phase.Sending? {
      SpliceAgrees(base, st.begun.value, st.accepted, saved, last);
    } else {
      assert Plain(st) == base && Plain(st')[..|base|] == base[..|base|];
    }
    ProgressDependsOnPrefix(aes, e, st.progress, Plain(st), Plain(st'), Taken(st));
  }

  /** The sender ends without writing anything more. */
  lemma EndingKeepsInv(
    aes: NetworkWriter.Aes, e: Encoder, st: State, queue: seq<Outbound>, stopped: nat, saved: bool, closed: bool)
    requires Inv(aes, e, st) && (st.phase.Idle? || st.phase.Sending?) && (queue == [] || queue == st.queue)
    ensures Inv(aes, e, st.(queue := queue, stopped := stopped, savedThen := saved, phase := Over, closed := closed))
  {
    ProgressEnds(aes, e, st.progress, Plain(st), Taken(st));
    hide Concat, NetworkWriter.Progressing, NetworkWriter.Coded, Splice;
    var st' := st.(queue := queue, stopped := stopped, savedThen := saved, phase := Over, closed := closed);
    assert ShapeOk(st') && Plain(st') == Plain(st);
  }

  lemma SeeCloseKeepsInv(aes: NetworkWriter.Aes, e: Encoder, st: State)
    requires Inv(aes, e, st) && Enabled(st, SeeClose)
    ensures Inv(aes, e, Next(aes, e, st, SeeClose))
  {
    LastDisconnectIsQueued(st.queue);
    QueueIsSound(aes, e, st);
    hide Inv, NetworkWriter.LastDisconnect;
    var last := NetworkWriter.LastDisconnect(st.queue);
    var st1 := st.(drained := Some(st.queue));
    RecordsDoNotMatter(aes, e, st, Some(st.queue));
    if last.None? {
      EndingKeepsInv(aes, e, st1, [], st.accepted, st.progress.saved.Some?, st.closed);
    } else {
      PartingKeepsInv(aes, e, st1, last.value);
    }
  }

  lemma RecordsDoNotMatter(aes: NetworkWriter.Aes, e: Encoder, st: State, drained: Option<seq<Outbound>>)
    requires Inv(aes, e, st)
    ensures Inv(aes, e, st.(drained := drained))
  {
    hide Concat, NetworkWriter.Progressing, NetworkWriter.Coded, Splice;
    var st' := st.(drained := drained);
    assert ShapeOk(st') && Plain(st') == Plain(st) && Taken(st') == Taken(st);
  }

  lemma QueueIsSound(aes: NetworkWriter.Aes, e: Encoder, st: State)
    requires Inv(aes, e, st)
    ensures NoEmptyPackets(st.queue)
  {
  }

  lemma {:induction false} LastDisconnectIsQueued(queue: seq<Outbound>)
    ensures var last := NetworkWriter.LastDisconnect(queue);
            last.Some? ==> exists i :: 0 <= i < |queue| && queue[i].packet == last.value
  {
    if queue != [] && !queue[|queue| - 1].Disconnect? {
      LastDisconnectIsQueued(queue[..|queue| - 1]);
    }
  }

  lemma PopKeepsInv(aes: NetworkWriter.Aes, e: Encoder, st: State)
    requires Inv(aes, e, st) && Enabled(st, Pop)
    ensures Inv(aes, e, Next(aes, e, st, Pop))
  {
    SavedIsInside(aes, e, st);
    hide Concat, NetworkWriter.Progressing, NetworkWriter.Coded, Splice;
    var st' := Next(aes, e, st, Pop);
    var base := Concat(st.finished);
    assert Plain(st) == base && Plain(st')[..|base|] == base[..|base|];
    ProgressDependsOnPrefix(aes, e, st.progress, Plain(st), Plain(st'), Taken(st));
  }

  lemma StepKeepsInv(aes: NetworkWriter.Aes, e: Encoder, st: State, step: Step)
    requires Inv(aes, e, st) && Enabled(st, step)
    ensures Inv(aes, e, Next(aes, e, st, step))
  {
    QueueIsSound(aes, e, st);
    hide Inv;
    match step
    case Pop => PopKeepsInv(aes, e, st);
    case Poll(answers) => PollKeepsInv(aes, e, st, answers);
    case Finish => FinishKeepsInv(aes, e, st);
    case Fail => FailKeepsInv(aes, e, st);
    case SeeClose => SeeCloseKeepsInv(aes, e, st);
    case HangUp => EndingKeepsInv(aes, e, st, st.queue, st.stopped, st.savedThen, true);
    case Enqueue(item) => QueueOrCloseKeepsInv(aes, e, st, st.queue + [item], st.closed);
    case Close => QueueOrCloseKeepsInv(aes, e, st, st.queue, true);
  }

  lemma QueueOrCloseKeepsInv(aes: NetworkWriter.Aes, e: Encoder, st: State, queue: seq<Outbound>, closed: bool)
    requires Inv(aes, e, st) && NoEmptyPackets(queue)
    ensures Inv(aes, e, st.(queue := queue, closed := closed))
  {
    hide Concat, NetworkWriter.Progressing, NetworkWriter.Coded, Splice;
    var st' := st.(queue := queue, closed := closed);
    assert ShapeOk(st') && Plain(st') == Plain(st) && Taken(st') == Taken(st);
  }

  lemma {:induction false} RunKeepsInv(aes: NetworkWriter.Aes, e: Encoder, st: State, steps: seq<Step>)
    requires Inv(aes, e, st) && ValidRun(aes, e, st, steps)
    ensures Inv(aes, e, Runs(aes, e, st, steps))
    decreases |steps|
  {
    hide Inv, Next, Enabled;
    if steps != [] {
      StepKeepsInv(aes, e, st, steps[0]);
      RunKeepsInv(aes, e, Next(aes, e, st, steps[0]), steps[1..]);
    }
  }

  // ----- What is taken from the queue -----

  ghost function AsQueued(packets: seq<seq<byte>>): (items: seq<Outbound>)
  {
    seq(|packets|, i requires 0 <= i < |packets| => NetworkWriter.Queued(packets[i]))
  }

  ghost function Listed(p: Option<seq<byte>>): (r: seq<seq<byte>>)
  {
    if p.Some? then [p.value] else []
  }

  /** The disconnect that was popped, rather than found in the queue on close. */
  ghost function PoppedDisconnect(st: State): (r: seq<Outbound>)
  {
    if st.parting.Some? && st.drained.None? then [NetworkWriter.Disconnect(st.parting.value)] else []
  }

  /**
    The items popped are the packets finished and the one begun, in order, and then at most one
    disconnect, behind which nothing is taken any more. A disconnect that is written on close is the
    one queued last. The sender never stops or parts with the connection left open.
   */
  ghost predicate TakenInv(st: State, enqueued: seq<Outbound>)
  {
    && st.popped == AsQueued(st.finished + Listed(st.begun)) + PoppedDisconnect(st)
    && (st.drained.Some? ==> st.parting == NetworkWriter.LastDisconnect(st.drained.value))
    && (st.phase.Idle? || st.phase.Sending? ==>
          && st.parting.None? && st.drained.None?
          && st.popped + st.queue == enqueued)
    && (st.phase.Idle? ==> st.begun.None?)
    && (st.phase.Sending? ==> st.begun.Some?)
    && (st.phase.Parting? ==> st.parting.Some?)
    && (st.phase.Parting? || st.phase.Over? ==> st.closed)
    && st.popped <= enqueued
    && (st.drained.Some? ==> st.popped + st.drained.value <= enqueued)
  }

  ghost function Enqueues(step: Step): (r: seq<Outbound>)
  {
    if step.Enqueue? then [step.item] else []
  }

  ghost function Enqueued(steps: seq<Step>): (r: seq<Outbound>)
  {
    if steps == [] then [] else Enqueues(steps[0]) + Enqueued(steps[1..])
  }

  lemma AsQueuedAppend(packets: seq<seq<byte>>, p: seq<byte>)
    ensures AsQueued(packets + [p]) == AsQueued(packets) + [NetworkWriter.Queued(p)]
  {
  }

  lemma PopKeepsTaken(aes: NetworkWriter.Aes, e: Encoder, st: State, enqueued: seq<Outbound>)
    requires TakenInv(st, enqueued) && Enabled(st, Pop)
    ensures TakenInv(Next(aes, e, st, Pop), enqueued)
  {
    hide NetworkWriter.LastDisconnect;
    var item := st.queue[0];
    AsQueuedAppend(st.finished, item.packet);
    assert st.finished + [] == st.finished;
    assert st.popped + [item] + st.queue[1..] == st.popped + st.queue;
    hide AsQueued;
    assert AsQueued(st.finished) + [] == AsQueued(st.finished);
    assert AsQueued(st.finished + [item.packet]) + [] == AsQueued(st.finished + [item.packet]);
  }

  lemma StepKeepsTaken(aes: NetworkWriter.Aes, e: Encoder, st: State, step: Step, enqueued: seq<Outbound>)
    requires TakenInv(st, enqueued) && Enabled(st, step)
    ensures TakenInv(Next(aes, e, st, step), enqueued + Enqueues(step))
  {
    hide AsQueued, NetworkWriter.LastDisconnect, NetworkWriter.PollWriter;
    assert !step.Enqueue? ==> enqueued + Enqueues(step) == enqueued;
    match step
    case Pop => PopKeepsTaken(aes, e, st, enqueued);
    case Enqueue(item) => assert st.popped + (st.queue + [item]) == st.popped + st.queue + [item];
    case Finish =>
      if st.phase.Sending? {
        assert st.finished + [st.begun.value] + [] == st.finished + [st.begun.value];
      }
    case SeeClose => assert AsQueued(st.finished + Listed(st.begun)) + [] == AsQueued(st.finished + Listed(st.begun));
    case _ =>
  }

  lemma {:induction false} RunKeepsTaken(
    aes: NetworkWriter.Aes, e: Encoder, st: State, steps: seq<Step>, enqueued: seq<Outbound>)
    requires TakenInv(st, enqueued) && ValidRun(aes, e, st, steps)
    ensures TakenInv(Runs(aes, e, st, steps), enqueued + Enqueued(steps))
    decreases |steps|
  {
    hide TakenInv, Next, Enabled, Enqueues;
    if steps == [] {
      assert enqueued + [] == enqueued;
    } else {
      StepKeepsTaken(aes, e, st, steps[0], enqueued);
      RunKeepsTaken(aes, e, Next(aes, e, st, steps[0]), steps[1..], enqueued + Enqueues(steps[0]));
      assert enqueued + Enqueues(steps[0]) + Enqueued(steps[1..]) == enqueued + Enqueued(steps);
    }
  }

  /** In every run, packets are written in queue order and a disconnect is the last thing taken. */
  lemma DisconnectIsTheLastThingTaken(aes: NetworkWriter.Aes, e: Encoder, queue: seq<Outbound>, steps: seq<Step>)
    requires ValidRun(aes, e, Start(e, queue), steps)
    ensures TakenInv(Runs(aes, e, Start(e, queue), steps), queue + Enqueued(steps))
  {
    assert AsQueued([] + Listed(None)) + [] == [];
    assert [] + queue == queue;
    assert TakenInv(Start(e, queue), queue);
    RunKeepsTaken(aes, e, Start(e, queue), steps, queue);
  }

  lemma {:induction false} ClosedTakesNothing(aes: NetworkWriter.Aes, e: Encoder, st: State, steps: seq<Step>)
    requires ValidRun(aes, e, st, steps) && st.closed
    ensures Runs(aes, e, st, steps).popped == st.popped && Runs(aes, e, st, steps).closed
    decreases |steps|
  {
    if steps != [] {
      hide NetworkWriter.LastDisconnect, NetworkWriter.PollWriter;
      ClosedTakesNothing(aes, e, Next(aes, e, st, steps[0]), steps[1..]);
    }
  }

  /** A close stops the queue, at whatever point of a run it comes. */
  lemma CloseStopsTheQueue(aes: NetworkWriter.Aes, e: Encoder, st: State, later: seq<Step>)
    requires ValidRun(aes, e, Next(aes, e, st, Close), later)
    ensures Runs(aes, e, Next(aes, e, st, Close), later).popped == st.popped
  {
    ClosedTakesNothing(aes, e, Next(aes, e, st, Close), later);
  }

  // ----- When nothing goes wrong -----

  /** Nothing is in flight, and everything finished has been delivered. */
  ghost predicate Ready(aes: NetworkWriter.Aes, e: Encoder, st: State)
  {
    Inv(aes, e, st) && st.phase.Idle? && !st.closed
  }

  /** One packet from the queue is written whole in three steps. */
  lemma PacketIsWritten(aes: NetworkWriter.Aes, e: Encoder, st: State) returns (st': State)
    requires Ready(aes, e, st) && st.queue != [] && st.queue[0].Queued?
    ensures var p := st.queue[0].packet;
            var steps := [Pop, Poll(seq(|p|, _ => Took)), Finish];
            && ValidRun(aes, e, st, steps) && Runs(aes, e, st, steps) == st'
            && Ready(aes, e, st') && st'.finished == st.finished + [p] && st'.queue == st.queue[1..]
  {
    QueueIsSound(aes, e, st);
    var p := st.queue[0].packet;
    var answers := seq(|p|, _ => Took);
    StepKeepsInv(aes, e, st, Pop);
    var s1 := Next(aes, e, st, Pop);
    assert p[0..] == p;
    hide Inv, NetworkWriter.PollWriter, Runs, ValidRun;
    NetworkWriter.AllIsTaken(aes, e, s1.progress, p, answers);
    StepKeepsInv(aes, e, s1, Poll(answers));
    var s2 := Next(aes, e, s1, Poll(answers));
    StepKeepsInv(aes, e, s2, Finish);
    st' := Next(aes, e, s2, Finish);
    hide Next, Enabled;
    ThreeSteps(aes, e, st, Pop, Poll(answers), Finish);
  }

  lemma ThreeSteps(aes: NetworkWriter.Aes, e: Encoder, s0: State, a: Step, b: Step, c: Step)
    requires Enabled(s0, a)
    requires var s1 := Next(aes, e, s0, a); Enabled(s1, b) && Enabled(Next(aes, e, s1, b), c)
    ensures ValidRun(aes, e, s0, [a, b, c])
    ensures Runs(aes, e, s0, [a, b, c]) == Next(aes, e, Next(aes, e, Next(aes, e, s0, a), b), c)
  {
    hide Next, Enabled;
    var s1 := Next(aes, e, s0, a);
    var s2 := Next(aes, e, s1, b);
    OneMore(aes, e, s2, c, []);
    OneMore(aes, e, s1, b, [c]);
    OneMore(aes, e, s0, a, [b, c]);
    assert [c] + [] == [c] && [b] + [c] == [b, c] && [a] + [b, c] == [a, b, c];
  }

  lemma {:induction false} RunsJoin(aes: NetworkWriter.Aes, e: Encoder, st: State, a: seq<Step>, b: seq<Step>)
    requires ValidRun(aes, e, st, a) && ValidRun(aes, e, Runs(aes, e, st, a), b)
    ensures ValidRun(aes, e, st, a + b) && Runs(aes, e, st, a + b) == Runs(aes, e, Runs(aes, e, st, a), b)
    decreases |a|
  {
    hide Next, Enabled;
    if a == [] {
      assert a + b == b;
    } else {
      assert (a + b)[0] == a[0] && (a + b)[1..] == a[1..] + b;
      RunsJoin(aes, e, Next(aes, e, st, a[0]), a[1..], b);
    }
  }

  /** From any ready state, a run that nothing interrupts writes the whole queue in order. */
  lemma {:induction false} WholeQueueIsWritten(aes: NetworkWriter.Aes, e: Encoder, st: State)
    returns (steps: seq<Step>)
    requires Ready(aes, e, st) && forall i | 0 <= i < |st.queue| :: st.queue[i].Queued?
    ensures ValidRun(aes, e, st, steps)
    ensures var st' := Runs(aes, e, st, steps);
            && Ready(aes, e, st') && st'.queue == []
            && st'.finished == st.finished + NetworkWriter.PacketsIn(st.queue)
    decreases |st.queue|
  {
    if st.queue == [] {
      steps := [];
      assert st.finished + NetworkWriter.PacketsIn(st.queue) == st.finished;
    } else {
      var p := st.queue[0].packet;
      var mid := PacketIsWritten(aes, e, st);
      assert NetworkWriter.PacketsIn(st.queue) == [p] + NetworkWriter.PacketsIn(mid.queue);
      assert st.finished + [p] + NetworkWriter.PacketsIn(mid.queue) == st.finished + NetworkWriter.PacketsIn(st.queue);
      hide *;
      var first := [Pop, Poll(seq(|p|, _ => Took)), Finish];
      var rest := WholeQueueIsWritten(aes, e, mid);
      RunsJoin(aes, e, st, first, rest);
      steps := first + rest;
    }
  }

  // ----- What the peer makes of it -----

  lemma StartInv(aes: NetworkWriter.Aes, e: Encoder, queue: seq<Outbound>)
    requires NoEmptyPackets(queue)
    ensures Inv(aes, e, Start(e, queue))
  {
    assert Concat([]) + [] == [];
  }

  /** What a peer reads in chunks of any sizes. */
  ghost function Peer(aes: NetworkWriter.Aes, e: Encoder, chunks: seq<seq<byte>>): (view: seq<byte>)
  {
    if e.Plain? then Concat(chunks) else ReadChunks(aes(e.key), e.register, chunks)
  }

  lemma PeerInverts(aes: NetworkWriter.Aes, e: Encoder, plain: seq<byte>, chunks: seq<seq<byte>>)
    requires Concat(chunks) <= NetworkWriter.Coded(aes, e, plain)
    ensures Peer(aes, e, chunks) <= plain && |Peer(aes, e, chunks)| == |Concat(chunks)|
    ensures Concat(chunks) == NetworkWriter.Coded(aes, e, plain) ==> Peer(aes, e, chunks) == plain
  {
    if e.Keyed? {
      hide Encrypt, Decrypt, ReadChunks, Concat;
      ChunkingIsInvisible(aes(e.key), e.register, chunks);
      DecryptOfPrefix(aes(e.key), e.register, plain, Concat(chunks));
    }
  }

  lemma DeliveredIsCoded(aes: NetworkWriter.Aes, e: Encoder, st: State)
    requires Inv(aes, e, st)
    ensures st.progress.delivered <= NetworkWriter.Coded(aes, e, Plain(st))
    ensures st.parting.Some? && st.accepted == |st.parting.value| ==>
              st.progress.delivered == NetworkWriter.Coded(aes, e, Plain(st))
  {
    if !st.phase.Over? {
      ProgressEnds(aes, e, st.progress, Plain(st), Taken(st));
      if st.phase.Parting? {
        RestIsMasked(aes, e, st);
      }
    }
  }

  /**
    In every run, whatever the peer has read is a prefix of the finished packets followed by the
    packet in flight, the disconnect, or the splice of the two.
   */
  lemma PeerReadsPrefixOfPlain(
    aes: NetworkWriter.Aes, e: Encoder, queue: seq<Outbound>, steps: seq<Step>, chunks: seq<seq<byte>>)
    requires NoEmptyPackets(queue) && ValidRun(aes, e, Start(e, queue), steps)
    requires Concat(chunks) <= Runs(aes, e, Start(e, queue), steps).progress.delivered
    ensures var st := Runs(aes, e, Start(e, queue), steps);
            ShapeOk(st) && Peer(aes, e, chunks) <= Plain(st)
  {
    StartInv(aes, e, queue);
    RunKeepsInv(aes, e, Start(e, queue), steps);
    var st := Runs(aes, e, Start(e, queue), steps);
    assert ShapeOk(st);
    DeliveredIsCoded(aes, e, st);
    hide Inv, Runs, ValidRun, Plain, Peer, Concat, NetworkWriter.Coded;
    PeerInverts(aes, e, Plain(st), chunks);
  }

  /** The close did not come between two bytes of a packet. */
  ghost predicate ClosedAtBoundary(st: State)
    requires ShapeOk(st)
  {
    Spliced(st) ==> AtBoundary(st.begun.value, st.stopped, st.savedThen, st.parting.value)
  }

  /** The peer's plaintext is whole packets: the finished ones, perhaps the one begun, and the disconnect. */
  ghost predicate ReadsWholePackets(st: State, view: seq<byte>)
    requires st.parting.Some?
  {
    || view == Concat(st.finished) + st.parting.value
    || (st.begun.Some? && view == Concat(st.finished) + (st.begun.value + st.parting.value))
  }

  /**
    The exact runs on which a disconnect that was written whole still reaches the peer among whole
    packets: those in which the close came at a packet boundary.
   */
  lemma DisconnectArrivesExactlyAtBoundaries(
    aes: NetworkWriter.Aes, e: Encoder, queue: seq<Outbound>, steps: seq<Step>, chunks: seq<seq<byte>>)
    requires NoEmptyPackets(queue) && ValidRun(aes, e, Start(e, queue), steps)
    requires var st := Runs(aes, e, Start(e, queue), steps);
             && st.parting.Some? && st.accepted == |st.parting.value|
             && Concat(chunks) == st.progress.delivered
    ensures var st := Runs(aes, e, Start(e, queue), steps);
            ShapeOk(st) && (ReadsWholePackets(st, Peer(aes, e, chunks)) <==> ClosedAtBoundary(st))
  {
    StartInv(aes, e, queue);
    RunKeepsInv(aes, e, Start(e, queue), steps);
    var st := Runs(aes, e, Start(e, queue), steps);
    assert ShapeOk(st);
    DeliveredIsCoded(aes, e, st);
    hide Inv, Runs, ValidRun, Peer, Concat, NetworkWriter.Coded;
    PeerInverts(aes, e, Plain(st), chunks);
    WholeExactlyAtBoundaries(st);
  }

  lemma WholeExactlyAtBoundaries(st: State)
    requires ShapeOk(st) && st.parting.Some?
    ensures ReadsWholePackets(st, Plain(st)) <==> ClosedAtBoundary(st)
  {
    hide Concat, AtBoundary, Splice;
    var base, tail := Concat(st.finished), Tail(st);
    forall x: seq<byte> ensures base + tail == base + x <==> tail == x {
      assert (base + tail)[|base|..] == tail && (base + x)[|base|..] == x;
    }
    if Spliced(st) {
      SpliceIsWholeExactlyAtBoundaries(st.begun.value, st.stopped, st.savedThen, st.parting.value);
    }
  }

  /** The packets on the wire when the close came at a boundary, leaving out one of which nothing was sent. */
  ghost function OnTheWire(st: State): (r: seq<seq<byte>>)
  {
    var begun := if Spliced(st) && st.stopped < |st.begun.value| then [] else NetworkWriter.Listed(st.begun);
    st.finished + (begun + NetworkWriter.Listed(st.parting))
  }

  lemma PlainIsOnTheWire(st: State)
    requires ShapeOk(st) && ClosedAtBoundary(st)
    ensures Plain(st) == Concat(OnTheWire(st))
  {
    var begun := if Spliced(st) && st.stopped < |st.begun.value| then [] else NetworkWriter.Listed(st.begun);
    var parting := NetworkWriter.Listed(st.parting);
    ConcatSplit(st.finished, begun + parting);
    ConcatSplit(begun, parting);
    assert forall p: seq<byte> :: Concat([p]) == p + Concat([]);
    assert Concat([]) == [];
    hide Concat;
    assert Concat(begun) + Concat(parting) == Tail(st);
  }

  /** On those runs, the peer decodes a prefix of the packets on the wire, whole and in order. */
  lemma PeerDecodesPlayPackets(
    aes: NetworkWriter.Aes, e: Encoder, z: Framing.Zlib, c: Option<Framing.Compression>, sent: seq<Framing.Sent>,
    queue: seq<Outbound>, steps: seq<Step>, chunks: seq<seq<byte>>)
    requires NoEmptyPackets(queue) && ValidRun(aes, e, Start(e, queue), steps)
    requires z.Inverse() && Framing.AllSendable(z, sent) && Framing.InStepWith(sent, 0, c)
    requires var st := Runs(aes, e, Start(e, queue), steps);
             && ShapeOk(st) && ClosedAtBoundary(st)
             && OnTheWire(st) == Framing.Frames(z, sent)
             && Concat(chunks) <= st.progress.delivered
    ensures var view := Peer(aes, e, chunks);
            Framing.DecodeAll(z, view, 0, Framing.Threshold(c)) ==
            (Framing.PacketsOf(sent)[..Framing.WholeFrames(Framing.Frames(z, sent), |view|)], [])
  {
    var st := Runs(aes, e, Start(e, queue), steps);
    PeerReadsPrefixOfPlain(aes, e, queue, steps, chunks);
    PlainIsOnTheWire(st);
    hide Runs, ValidRun, Plain, Peer, Concat, OnTheWire, ClosedAtBoundary;
    hide Framing.DecodeAll, Framing.WholeFrames, Framing.Frames, Framing.PacketsOf;
    var view := Peer(aes, e, chunks);
    Framing.PrefixDecodesToWholePackets(z, sent, 0, c, |view|);
    assert view == Concat(Framing.Frames(z, sent))[..|view|];
  }

  // ----- What a close inside a packet costs -----

  /** The length field of a frame. */
  ghost function Header(z: Framing.Zlib, s: Framing.Sent): (h: seq<byte>)
    requires Framing.Sendable(z, s)
  {
    VarInts.Write(Framing.BodyLen(z, Framing.PacketData(s.packet.id, s.packet.payload), s.setting))
  }

  /** The peer of a splice whose first frame's length has gone out waits for that many bytes. */
  lemma SplicedFrame(z: Framing.Zlib, s: Framing.Sent, k: nat, saved: bool, next: seq<byte>, threshold: Option<nat>)
    requires Framing.Sendable(z, s) && next != []
    requires |Header(z, s)| <= k < |Framing.Frame(z, s)|
    ensures var frame, h := Framing.Frame(z, s), |Header(z, s)|;
            var input := Splice(frame, k, saved, next);
            && |frame| - h <= Framing.MAX_PACKET_SIZE && |input| == k + |next|
            && Framing.Decode(z, input, threshold) ==
               if |input| < |frame| then (Framing.Err(Framing.ReadFailed), [])
               else (Framing.ParseBody(z, input[h..|frame|], threshold), next[|frame| - k..])
  {
    hide Header, Splice, Framing.Frame, Framing.Decode, Framing.ParseBody, VarInts.Write, Framing.Sendable;
    HeaderLeads(z, s);
    var frame, h := Framing.Frame(z, s), |Header(z, s)|;
    var input := Splice(frame, k, saved, next);
    SpliceShape(frame, k, saved, next);
    SpliceSlices(frame, h, k, input, next);
    Framing.DecodeAfterLength(z, |frame| - h, input[h..], threshold);
  }

  lemma SpliceSlices(frame: seq<byte>, h: nat, k: nat, input: seq<byte>, next: seq<byte>)
    requires h <= k < |frame| && |input| == k + |next| && next != []
    requires input[..k] == frame[..k] && input[k + 1..] == next[1..]
    ensures input == frame[..h] + input[h..]
    ensures |input| >= |frame| ==>
              && input[h..][..|frame| - h] == input[h..|frame|]
              && input[h..][|frame| - h..] == next[|frame| - k..]
  {
    assert input[..h] == input[..k][..h] == frame[..k][..h] == frame[..h];
    if |input| >= |frame| {
      assert input[h..][|frame| - h..] == input[k + 1..][|frame| - k - 1..];
      assert next[|frame| - k..] == next[1..][|frame| - k - 1..];
    }
  }

  lemma HeaderLeads(z: Framing.Zlib, s: Framing.Sent)
    requires Framing.Sendable(z, s)
    ensures var frame, head := Framing.Frame(z, s), Header(z, s);
            && |head| <= |frame| && frame[..|head|] == head && |frame| - |head| <= Framing.MAX_PACKET_SIZE
            && head == VarInts.Write(|frame| - |head|)
  {
    hide VarInts.WriteU32, VarInts.BitLength, Framing.Encode, Framing.Body;
    var data := Framing.PacketData(s.packet.id, s.packet.payload);
    Framing.FrameShape(z, data, s.setting);
    assert Framing.Frame(z, s) == Header(z, s) + Framing.Body(z, data, s.setting);
  }

  /** A run that closed inside a frame, behind its length, and wrote its disconnect whole. */
  ghost predicate ClosedInside(z: Framing.Zlib, st: State, sent: seq<Framing.Sent>, s: Framing.Sent)
  {
    && Framing.AllSendable(z, sent) && Framing.Sendable(z, s)
    && st.finished == Framing.Frames(z, sent) && st.begun == Some(Framing.Frame(z, s))
    && |Header(z, s)| <= st.stopped < |Framing.Frame(z, s)|
    && st.parting.Some? && st.accepted == |st.parting.value|
  }

  /** The packets finished are decoded, and then whatever the tail gives. */
  ghost predicate DecodesThenTail(
    z: Framing.Zlib, t: Option<nat>, sent: seq<Framing.Sent>, st: State, view: seq<byte>)
    requires ShapeOk(st)
  {
    var rest := Framing.DecodeAll(z, Tail(st), 0, t);
    Framing.DecodeAll(z, view, 0, t) == (Framing.PacketsOf(sent) + rest.0, rest.1)
  }

  /** The disconnect's first bytes are parsed as the rest of the begun frame, and the reader goes on inside it. */
  ghost predicate ReadsOnInside(z: Framing.Zlib, t: Option<nat>, st: State, s: Framing.Sent)
    requires ShapeOk(st) && Framing.Sendable(z, s) && st.parting.Some?
  {
    var frame, h := Framing.Frame(z, s), |Header(z, s)|;
    && h <= st.stopped < |frame| <= |Tail(st)| && |frame| - h <= Framing.MAX_PACKET_SIZE
    && |frame| - st.stopped <= |st.parting.value|
    && Framing.Decode(z, Tail(st), t) ==
       (Framing.ParseBody(z, Tail(st)[h..|frame|], t), st.parting.value[|frame| - st.stopped..])
  }

  /** The peer decodes the finished packets, and then whatever the splice gives it. */
  lemma DecodeUpToTheSplice(
    aes: NetworkWriter.Aes, e: Encoder, z: Framing.Zlib, c: Option<Framing.Compression>,
    sent: seq<Framing.Sent>, s: Framing.Sent, queue: seq<Outbound>, steps: seq<Step>, chunks: seq<seq<byte>>)
    requires NoEmptyPackets(queue) && ValidRun(aes, e, Start(e, queue), steps)
    requires z.Inverse() && Framing.InStepWith(sent, 0, c)
    requires var st := Runs(aes, e, Start(e, queue), steps);
             ClosedInside(z, st, sent, s) && Concat(chunks) == st.progress.delivered
    ensures var st := Runs(aes, e, Start(e, queue), steps);
            && ShapeOk(st)
            && DecodesThenTail(z, Framing.Threshold(c), sent, st, Peer(aes, e, chunks))
  {
    StartInv(aes, e, queue);
    RunKeepsInv(aes, e, Start(e, queue), steps);
    var st := Runs(aes, e, Start(e, queue), steps);
    assert ShapeOk(st);
    DeliveredIsCoded(aes, e, st);
    hide Inv, Runs, ValidRun, Peer, Concat, NetworkWriter.Coded, Tail, Framing.DecodeAll;
    PeerInverts(aes, e, Plain(st), chunks);
    Framing.FramesDecodeFirst(z, sent, 0, c, Tail(st));
  }

  /**
    If the disconnect does not fill what the begun frame lacks, the peer waits for the rest of it
    for ever: it has the finished packets, and neither the begun one nor the disconnect.
   */
  lemma DisconnectIsSwallowed(
    aes: NetworkWriter.Aes, e: Encoder, z: Framing.Zlib, c: Option<Framing.Compression>,
    sent: seq<Framing.Sent>, s: Framing.Sent, queue: seq<Outbound>, steps: seq<Step>, chunks: seq<seq<byte>>)
    requires NoEmptyPackets(queue) && ValidRun(aes, e, Start(e, queue), steps)
    requires z.Inverse() && Framing.InStepWith(sent, 0, c)
    requires var st := Runs(aes, e, Start(e, queue), steps);
             && ClosedInside(z, st, sent, s) && Concat(chunks) == st.progress.delivered
             && st.stopped + |st.parting.value| < |Framing.Frame(z, s)|
    ensures Framing.DecodeAll(z, Peer(aes, e, chunks), 0, Framing.Threshold(c)) == (Framing.PacketsOf(sent), [])
  {
    var st := Runs(aes, e, Start(e, queue), steps);
    DecodeUpToTheSplice(aes, e, z, c, sent, s, queue, steps, chunks);
    hide Runs, ValidRun, Peer, Splice, Framing.Decode;
    SplicedFrame(z, s, st.stopped, st.savedThen, st.parting.value, Framing.Threshold(c));
    assert Framing.PacketsOf(sent) + [] == Framing.PacketsOf(sent);
  }

  /**
    If it does, the peer takes its first bytes for the rest of the begun frame, parses that, and goes
    on in the middle of the disconnect.
   */
  lemma DisconnectIsTakenForTheRest(
    aes: NetworkWriter.Aes, e: Encoder, z: Framing.Zlib, c: Option<Framing.Compression>,
    sent: seq<Framing.Sent>, s: Framing.Sent, queue: seq<Outbound>, steps: seq<Step>, chunks: seq<seq<byte>>)
    requires NoEmptyPackets(queue) && ValidRun(aes, e, Start(e, queue), steps)
    requires z.Inverse() && Framing.InStepWith(sent, 0, c)
    requires var st := Runs(aes, e, Start(e, queue), steps);
             && ClosedInside(z, st, sent, s) && Concat(chunks) == st.progress.delivered
             && st.stopped + |st.parting.value| >= |Framing.Frame(z, s)|
    ensures var st := Runs(aes, e, Start(e, queue), steps);
            && ShapeOk(st)
            && DecodesThenTail(z, Framing.Threshold(c), sent, st, Peer(aes, e, chunks))
            && Framing.Sendable(z, s) && st.parting.Some?
            && ReadsOnInside(z, Framing.Threshold(c), st, s)
  {
    var st := Runs(aes, e, Start(e, queue), steps);
    DecodeUpToTheSplice(aes, e, z, c, sent, s, queue, steps, chunks);
    hide Runs, ValidRun, Peer, ShapeOk, DecodesThenTail, ReadsOnInside, Framing.Sendable;
    DecodeOfTheSplice(z, st, sent, s, Framing.Threshold(c));
  }

  lemma DecodeOfTheSplice(z: Framing.Zlib, st: State, sent: seq<Framing.Sent>, s: Framing.Sent, t: Option<nat>)
    requires ShapeOk(st) && ClosedInside(z, st, sent, s)
    requires st.stopped + |st.parting.value| >= |Framing.Frame(z, s)|
    ensures ReadsOnInside(z, t, st, s)
  {
    hide Splice, Header, Framing.Frame, Framing.Decode, Framing.ParseBody;
    SplicedFrame(z, s, st.stopped, st.savedThen, st.parting.value, t);
  }

  // ----- Such a run -----

  /** Two frames, `begun` and `parting`, of which the first is in flight when the connection closes. */
  const BEGUN: seq<byte> := [2, 0, 7]
  const PARTING: seq<byte> := [1, 5]

  const QUEUE: seq<Outbound> := [NetworkWriter.Queued(BEGUN), NetworkWriter.Disconnect(PARTING)]
  const STEPS: seq<Step> := [Pop, Poll([Took, Pending, Pending]), Close, SeeClose, Poll([Took, Took])]

  lemma FramesOfTheRun(z: Framing.Zlib)
    ensures var a, b := Framing.Sent(Framing.Packet(0, [7]), None), Framing.Sent(Framing.Packet(5, []), None);
            && Framing.Sendable(z, a) && Framing.Frame(z, a) == BEGUN
            && Framing.Sendable(z, b) && Framing.Frame(z, b) == PARTING
  {
    SmallWrite(0);
    SmallWrite(1);
    SmallWrite(2);
    SmallWrite(5);
    assert Framing.PacketData(0, [7]) == [0, 7] && Framing.PacketData(5, []) == [5];
  }

  lemma SmallWrite(n: nat)
    requires n < 128
    ensures VarInts.Write(n) == [n as byte] && VarInts.WrittenSize(n) == 1
  {
    VarInts.SmallSizes(n);
  }

  /**
    A connection that closes while the second byte of a packet is saved. The disconnect is written
    whole, the close was not at a boundary, and the peer reads bytes that are neither packet.
   */
  lemma CloseInsideAPacketHappens(aes: NetworkWriter.Aes, key: Register)
    ensures var e := NetworkWriter.Keyed(key, key);
            && NoEmptyPackets(QUEUE) && ValidRun(aes, e, Start(e, QUEUE), STEPS)
            && var st := Runs(aes, e, Start(e, QUEUE), STEPS);
            && st.finished == [] && st.begun == Some(BEGUN) && st.stopped == 1 && st.savedThen
            && st.parting == Some(PARTING) && st.accepted == 2
            && ShapeOk(st) && !ClosedAtBoundary(st) && Plain(st) == [2, 0, 5]
  {
    hide PollFrom, Runs, ValidRun;
    var e := NetworkWriter.Keyed(key, key);
    var queue := QUEUE;
    var p1, p2 := Poll([Took, Pending, Pending]), Poll([Took, Took]);
    var s0 := Start(e, queue);
    var s1 := Next(aes, e, s0, Pop);
    assert BEGUN[0..] == BEGUN && queue[1..] == [NetworkWriter.Disconnect(PARTING)];
    FirstTwoAnswers(aes(key), s1.progress, BEGUN, [Took, Pending, Pending]);
    var s2 := Next(aes, e, s1, p1);
    var s3 := Next(aes, e, s2, Close);
    assert NetworkWriter.LastDisconnect(s3.queue) == Some(PARTING);
    var s4 := Next(aes, e, s3, SeeClose);
    assert PARTING[0..] == PARTING;
    BothTaken(aes(key), s4.progress, PARTING, [Took, Took]);
    var s5 := Next(aes, e, s4, p2);
    FiveSteps(aes, e, s0, Pop, p1, Close, SeeClose, p2);
  }

  lemma FiveSteps(aes: NetworkWriter.Aes, e: Encoder, s0: State, a: Step, b: Step, c: Step, d: Step, f: Step)
    requires Enabled(s0, a)
    requires var s1 := Next(aes, e, s0, a);
             Enabled(s1, b) && var s2 := Next(aes, e, s1, b);
             Enabled(s2, c) && var s3 := Next(aes, e, s2, c);
             Enabled(s3, d) && Enabled(Next(aes, e, s3, d), f)
    ensures ValidRun(aes, e, s0, [a, b, c, d, f])
    ensures var s3 := Next(aes, e, Next(aes, e, Next(aes, e, s0, a), b), c);
            Runs(aes, e, s0, [a, b, c, d, f]) == Next(aes, e, Next(aes, e, s3, d), f)
  {
    hide Next, Enabled;
    var s1 := Next(aes, e, s0, a);
    var s2 := Next(aes, e, s1, b);
    var s3 := Next(aes, e, s2, c);
    var s4 := Next(aes, e, s3, d);
    OneMore(aes, e, s4, f, []);
    OneMore(aes, e, s3, d, [f]);
    OneMore(aes, e, s2, c, [d, f]);
    OneMore(aes, e, s1, b, [c, d, f]);
    OneMore(aes, e, s0, a, [b, c, d, f]);
    assert [f] + [] == [f] && [d] + [f] == [d, f] && [c] + [d, f] == [c, d, f];
    assert [b] + [c, d, f] == [b, c, d, f] && [a] + [b, c, d, f] == [a, b, c, d, f];
  }

  lemma OneMore(aes: NetworkWriter.Aes, e: Encoder, st: State, step: Step, rest: seq<Step>)
    requires Enabled(st, step) && ValidRun(aes, e, Next(aes, e, st, step), rest)
    ensures ValidRun(aes, e, st, [step] + rest)
    ensures Runs(aes, e, st, [step] + rest) == Runs(aes, e, Next(aes, e, st, step), rest)
  {
    hide Next, Enabled;
    assert ([step] + rest)[1..] == rest;
  }

  lemma FirstTwoAnswers(aes: Keystream, s: EncryptorState, buf: seq<byte>, answers: seq<Answer>)
    requires |buf| == |answers| == 3 && answers[0] == Took && answers[1] == Pending && s.saved.None?
    ensures var (s', result) := PollFrom(aes, s, buf, answers, 0); result == PollReady(1) && s'.saved.Some?
  {
    var (out, reg) := NextByte(aes, s, buf[0]);
    var s1 := EncryptorState(reg, None, s.delivered + [out]);
    assert PollFrom(aes, s, buf, answers, 0) == PollFrom(aes, s1, buf[1..], answers[1..], 1);
    assert answers[1..][0] == Pending;
  }

  lemma BothTaken(aes: Keystream, s: EncryptorState, buf: seq<byte>, answers: seq<Answer>)
    requires |buf| == |answers| == 2 && answers[0] == Took && answers[1] == Took
    ensures PollFrom(aes, s, buf, answers, 0).1 == PollReady(2)
  {
    var (out, reg) := NextByte(aes, s, buf[0]);
    var s1 := EncryptorState(reg, None, s.delivered + [out]);
    assert PollFrom(aes, s, buf, answers, 0) == PollFrom(aes, s1, buf[1..], answers[1..], 1);
    var (out1, reg1) := NextByte(aes, s1, buf[1..][0]);
    var s2 := EncryptorState(reg1, None, s1.delivered + [out1]);
    assert buf[1..][1..] == [] && answers[1..][0] == Took;
    assert PollFrom(aes, s1, buf[1..], answers[1..], 1) == PollFrom(aes, s2, [], answers[1..][1..], 2);
  }

  lemma DecodeOfSplicedBytes(z: Framing.Zlib, input: seq<byte>)
    requires input == [2, 0, 5]
    ensures Framing.DecodeAll(z, input, 0, None) == ([Framing.Packet(0, [5])], [])
  {
    hide VarInts.ReadGroups;
    var body: seq<byte> := [0, 5];
    SmallWrite(0);
    SmallWrite(2);
    VarInts.ReadInvertsWrite(0, [5]);
    assert VarInts.Write(0) + [5] == body;
    Framing.DecodeFrame(z, body, None, []);
    assert VarInts.Write(2) + body + [] == input;
    assert body[0..] == body && body[1..] == [5];
    assert Framing.ParseBody(z, body, None) == Framing.Ok(Framing.RawPacket(0, body, 1));
    Framing.DecodeAllStep(z, input, 0, None);
    assert Framing.Decode(z, input, None) == (Framing.Ok(Framing.RawPacket(0, body, 1)), []);
    assert Framing.RawPacket(0, body, 1).Payload() == [5];
    assert Framing.DecodeAll(z, [], 0, None) == ([], []);
    var p := Framing.Packet(0, [5]);
    assert [p] + [] == [p];
    assert Framing.DecodeAll(z, input, 0, None) == ([p] + [], []) == ([p], []);
  }

  /** The peer of that run decodes one packet, which nobody sent. */
  lemma SplicedPacketIsReadAsAnother(aes: NetworkWriter.Aes, key: Register, z: Framing.Zlib, chunks: seq<seq<byte>>)
    requires var e := NetworkWriter.Keyed(key, key);
             && ValidRun(aes, e, Start(e, QUEUE), STEPS)
             && Concat(chunks) == Runs(aes, e, Start(e, QUEUE), STEPS).progress.delivered
    ensures Framing.DecodeAll(z, Peer(aes, NetworkWriter.Keyed(key, key), chunks), 0, None)
         == ([Framing.Packet(0, [5])], [])
  {
    var e := NetworkWriter.Keyed(key, key);
    CloseInsideAPacketHappens(aes, key);
    StartInv(aes, e, QUEUE);
    hide ValidRun, Runs, Inv, Start, Peer, Concat, Plain, Framing.DecodeAll, NetworkWriter.Coded;
    RunKeepsInv(aes, e, Start(e, QUEUE), STEPS);
    var st := Runs(aes, e, Start(e, QUEUE), STEPS);
    DeliveredIsCoded(aes, e, st);
    PeerInverts(aes, e, Plain(st), chunks);
    DecodeOfSplicedBytes(z, Plain(st));
  }
}
