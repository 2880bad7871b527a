/**
  Switching compression on during login, on top of the shared network writer. A sender encodes its
  packet under the setting it loads and only then waits for the lock, while the login task announces
  the threshold in a packet of its own and stores the setting once the write of that packet has
  ended. So a packet may be encoded before the store and written after the announcement.
 */
module CompressionSwitch {
  import opened Bytes
  import opened Framing
  import CipherStream
  import NetworkWriter

  /**
    Where `send_login_compression` stands; `id` is the login task. It is given up when the login
    deadline drops it while the announcement waits for the lock.
   */
  datatype Login = Before | Announcing(id: nat) | Announced(id: nat) | Stored | GivenUp

  /**
    The writer, the setting, and for each packet that waits for the lock or in the queue what it was
    encoded from. `order` lists the packets that got the lock, and `plain` how many of them end with
    the announcement, once that has got it.
   */
  datatype State = State(
    writer: NetworkWriter.State,
    setting: Option<Compression>,
    waiting: map<NetworkWriter.Task, Sent>,
    queued: seq<Sent>,
    login: Login,
    order: seq<Sent>,
    plain: Option<nat>)

  const INITIAL: State := State(NetworkWriter.INITIAL, None, map[], [], Before, [], None)

  datatype Step =
    | Send(id: nat, packet: Packet)
    | Queue(packet: Packet, last: bool)
    | Announce(id: nat, packet: Packet)
    | Store
    | Writer(step: NetworkWriter.Step)

  /** A queued packet; `last` marks a disconnect. */
  function Item(frame: seq<byte>, last: bool): (item: NetworkWriter.Outbound)
  {
    if last then NetworkWriter.Disconnect(frame) else NetworkWriter.Queued(frame)
  }

  ghost predicate Enabled(z: Zlib, st: State, step: Step)
  {
    match step
    case Send(id, packet) => CanSend(z, st, id, packet)
    case Queue(packet, _) => Sendable(z, Sent(packet, st.setting))
    case Announce(id, packet) => st.login.Before? && CanSend(z, st, id, packet)
    case Store =>
      st.login.Announced? && !(st.writer.slot.Taken? && st.writer.slot.task == NetworkWriter.Immediate(st.login.id))
    case Writer(s) =>
      && !s.SendNow? && !s.Enqueue? && NetworkWriter.Enabled(st.writer, s)
      && (s.Acquire? ==> s.task in st.waiting)
      && (s.Pop? ==> st.queued != [])
      && (s.Close? ==> |st.queued| == |st.writer.queue|)
  }

  ghost predicate CanSend(z: Zlib, st: State, id: nat, packet: Packet)
  {
    && Sendable(z, Sent(packet, st.setting))
    && NetworkWriter.Enabled(st.writer, NetworkWriter.SendNow(id, Frame(z, Sent(packet, st.setting))))
  }

  /** What the disconnect packet queued last was encoded from. */
  ghost function LastQueued(queue: seq<NetworkWriter.Outbound>, queued: seq<Sent>): (r: Option<Sent>)
    requires |queue| == |queued|
    ensures r.Some? <==> NetworkWriter.LastDisconnect(queue).Some?
  {
    if queue == [] then None
    else
      var n := |queue| - 1;
      if queue[n].Disconnect? then Some(queued[n]) else LastQueued(queue[..n], queued[..n])
  }

  /** The configured compression is `c`. */
  ghost function Next(aes: NetworkWriter.Aes, z: Zlib, c: Compression, st: State, step: Step): (r: State)
    requires Enabled(z, st, step)
  {
    match step
    case Send(id, packet) => WithSender(aes, z, st, id, Sent(packet, st.setting))
    case Queue(packet, last) =>
      var s := Sent(packet, st.setting);
      st.(writer := NetworkWriter.Next(aes, st.writer, NetworkWriter.Enqueue(Item(Frame(z, s), last))),
          queued := st.queued + [s])
    case Announce(id, packet) => WithSender(aes, z, st, id, Sent(packet, st.setting)).(login := Announcing(id))
    case Store => st.(setting := Some(c), login := Stored)
    case Writer(s) => Relabel(st, s).(writer := NetworkWriter.Next(aes, st.writer, s))
  }

  ghost function WithSender(aes: NetworkWriter.Aes, z: Zlib, st: State, id: nat, s: Sent): (r: State)
    requires Sendable(z, s) && NetworkWriter.Enabled(st.writer, NetworkWriter.SendNow(id, Frame(z, s)))
  {
    st.(writer := NetworkWriter.Next(aes, st.writer, NetworkWriter.SendNow(id, Frame(z, s))),
        waiting := st.waiting[NetworkWriter.Immediate(id) := s])
  }

  /** The task is the login task with its announcement. */
  predicate IsAnnouncer(st: State, task: NetworkWriter.Task)
  {
    st.login.Announcing? && task == NetworkWriter.Immediate(st.login.id)
  }

  /** What a step of the writer does to the records. */
  ghost function Relabel(st: State, s: NetworkWriter.Step): (r: State)
    requires (s.Acquire? ==> s.task in st.waiting) && (s.Pop? ==> st.queued != [])
    requires s.Close? ==> |st.queued| == |st.writer.queue|
  {
    match s
    case Acquire(task) =>
      var granted := st.writer.slot.Full?;
      st.(waiting := st.waiting - {task},
          order := if granted then st.order + [st.waiting[task]] else st.order,
          login := if IsAnnouncer(st, task) then Announced(st.login.id) else st.login,
          plain := if IsAnnouncer(st, task) && granted then Some(|st.order| + 1) else st.plain)
    case GiveUp(id) =>
      var task := NetworkWriter.Immediate(id);
      st.(waiting := st.waiting - {task}, login := if IsAnnouncer(st, task) then GivenUp else st.login)
    case Pop => st.(waiting := st.waiting[NetworkWriter.Outgoing := st.queued[0]], queued := st.queued[1..])
    case Close =>
      var last := LastQueued(st.writer.queue, st.queued);
      var rest := st.waiting - {NetworkWriter.Outgoing};
      st.(waiting := if last.Some? then rest[NetworkWriter.Outgoing := last.value] else rest, queued := [])
    case _ => st
  }

  ghost predicate ValidRun(aes: NetworkWriter.Aes, z: Zlib, c: Compression, st: State, steps: seq<Step>)
    decreases |steps|
  {
    steps == [] || (Enabled(z, st, steps[0]) && ValidRun(aes, z, c, Next(aes, z, c, st, steps[0]), steps[1..]))
  }

  ghost function Run(aes: NetworkWriter.Aes, z: Zlib, c: Compression, st: State, steps: seq<Step>): (r: State)
    requires ValidRun(aes, z, c, st, steps)
    decreases |steps|
  {
    if steps == [] then st else Run(aes, z, c, Next(aes, z, c, st, steps[0]), steps[1..])
  }

  // ----- The writer underneath -----

  /** The step of the writer that a step makes, if any. */
  ghost function WriterStep(z: Zlib, st: State, step: Step): (r: seq<NetworkWriter.Step>)
    requires Enabled(z, st, step)
  {
    match step
    case Send(id, packet) => [NetworkWriter.SendNow(id, Frame(z, Sent(packet, st.setting)))]
    case Queue(packet, last) => [NetworkWriter.Enqueue(Item(Frame(z, Sent(packet, st.setting)), last))]
    case Announce(id, packet) => [NetworkWriter.SendNow(id, Frame(z, Sent(packet, st.setting)))]
    case Store => []
    case Writer(s) => [s]
  }

  ghost function WriterSteps(aes: NetworkWriter.Aes, z: Zlib, c: Compression, st: State, steps: seq<Step>)
    : (r: seq<NetworkWriter.Step>)
    requires ValidRun(aes, z, c, st, steps)
    decreases |steps|
  {
    if steps == [] then []
    else WriterStep(z, st, steps[0]) + WriterSteps(aes, z, c, Next(aes, z, c, st, steps[0]), steps[1..])
  }

  lemma OneWriterStep(
    aes: NetworkWriter.Aes, z: Zlib, c: Compression, st: State, step: Step, later: seq<NetworkWriter.Step>)
    requires Enabled(z, st, step) && NetworkWriter.ValidRun(aes, Next(aes, z, c, st, step).writer, later)
    ensures var all := WriterStep(z, st, step) + later;
            && NetworkWriter.ValidRun(aes, st.writer, all)
            && NetworkWriter.Run(aes, st.writer, all) == NetworkWriter.Run(aes, Next(aes, z, c, st, step).writer, later)
  {
    assert !step.Store? ==> NetworkWriter.Enabled(st.writer, WriterStep(z, st, step)[0]);
    hide NetworkWriter.Next, NetworkWriter.Enabled, Sendable, Frame;
    var all := WriterStep(z, st, step) + later;
    if step.Store? {
      assert all == later;
    } else {
      assert all[0] == WriterStep(z, st, step)[0] && all[1..] == later;
    }
  }

  /** Every run is a run of the writer. */
  lemma {:induction false} RunOfTheWriter(
    aes: NetworkWriter.Aes, z: Zlib, c: Compression, st: State, steps: seq<Step>)
    requires ValidRun(aes, z, c, st, steps)
    ensures var w := WriterSteps(aes, z, c, st, steps);
            && NetworkWriter.ValidRun(aes, st.writer, w)
            && NetworkWriter.Run(aes, st.writer, w) == Run(aes, z, c, st, steps).writer
    decreases |steps|
  {
    hide Next, Enabled, WriterStep;
    if steps != [] {
      var st' := Next(aes, z, c, st, steps[0]);
      RunOfTheWriter(aes, z, c, st', steps[1..]);
      OneWriterStep(aes, z, c, st, steps[0], WriterSteps(aes, z, c, st', steps[1..]));
    }
  }

  // ----- The records are those of the writer -----

  ghost predicate QueueMatches(z: Zlib, queue: seq<NetworkWriter.Outbound>, queued: seq<Sent>)
  {
    && |queue| == |queued|
    && forall i | 0 <= i < |queue| :: Sendable(z, queued[i]) && queue[i].packet == Frame(z, queued[i])
  }

  ghost predicate WaitingMatches(
    z: Zlib, waiting: map<NetworkWriter.Task, seq<byte>>, labels: map<NetworkWriter.Task, Sent>)
  {
    && waiting.Keys == labels.Keys
    && forall t | t in labels :: Sendable(z, labels[t]) && waiting[t] == Frame(z, labels[t])
  }

  ghost predicate Matches(z: Zlib, st: State)
  {
    && AllSendable(z, st.order) && st.writer.lockOrder == Frames(z, st.order)
    && QueueMatches(z, st.writer.queue, st.queued)
    && WaitingMatches(z, st.writer.waiting, st.waiting)
  }

  lemma FramesAppend(z: Zlib, sent: seq<Sent>, s: Sent)
    requires AllSendable(z, sent) && Sendable(z, s)
    ensures AllSendable(z, sent + [s]) && Frames(z, sent + [s]) == Frames(z, sent) + [Frame(z, s)]
  {
    hide Sendable, Frame;
  }

  lemma {:induction false} LastQueuedMatches(z: Zlib, queue: seq<NetworkWriter.Outbound>, queued: seq<Sent>)
    requires QueueMatches(z, queue, queued)
    ensures var last := LastQueued(queue, queued);
            last.Some? ==> Sendable(z, last.value) && NetworkWriter.LastDisconnect(queue) == Some(Frame(z, last.value))
    decreases |queue|
  {
    hide Sendable, Frame;
    if queue != [] {
      var n := |queue| - 1;
      if !queue[n].Disconnect? {
        assert QueueMatches(z, queue[..n], queued[..n]);
        LastQueuedMatches(z, queue[..n], queued[..n]);
      }
    }
  }

  lemma SenderMatches(aes: NetworkWriter.Aes, z: Zlib, st: State, id: nat, s: Sent)
    requires Matches(z, st) && Sendable(z, s)
    requires NetworkWriter.Enabled(st.writer, NetworkWriter.SendNow(id, Frame(z, s)))
    ensures Matches(z, WithSender(aes, z, st, id, s))
  {
    hide Sendable, Frame, Frames, AllSendable, QueueMatches;
  }

  lemma AcquireMatches(aes: NetworkWriter.Aes, z: Zlib, c: Compression, st: State, task: NetworkWriter.Task)
    requires Matches(z, st) && Enabled(z, st, Writer(NetworkWriter.Acquire(task)))
    ensures Matches(z, Next(aes, z, c, st, Writer(NetworkWriter.Acquire(task))))
  {
    hide Sendable, Frame, Frames, AllSendable, QueueMatches;
    if st.writer.slot.Full? {
      FramesAppend(z, st.order, st.waiting[task]);
    }
  }

  lemma PopMatches(aes: NetworkWriter.Aes, z: Zlib, c: Compression, st: State)
    requires Matches(z, st) && Enabled(z, st, Writer(NetworkWriter.Pop))
    ensures Matches(z, Next(aes, z, c, st, Writer(NetworkWriter.Pop)))
  {
    hide Sendable, Frame, Frames, AllSendable;
    assert QueueMatches(z, st.writer.queue[1..], st.queued[1..]);
    hide QueueMatches;
  }

  /** What waits after the close: the parting disconnect in the place of the outgoing task's packet. */
  lemma PartingMatches(
    z: Zlib, waiting: map<NetworkWriter.Task, seq<byte>>, labels: map<NetworkWriter.Task, Sent>, last: Option<Sent>)
    requires WaitingMatches(z, waiting, labels) && (last.Some? ==> Sendable(z, last.value))
    ensures var out := NetworkWriter.Outgoing;
            && WaitingMatches(z, waiting - {out}, labels - {out})
            && (last.Some? ==>
                  WaitingMatches(
                    z, (waiting - {out})[out := Frame(z, last.value)], (labels - {out})[out := last.value]))
  {
    hide Sendable, Frame;
  }

  lemma CloseMatches(aes: NetworkWriter.Aes, z: Zlib, c: Compression, st: State)
    requires Matches(z, st) && Enabled(z, st, Writer(NetworkWriter.Close))
    ensures Matches(z, Next(aes, z, c, st, Writer(NetworkWriter.Close)))
  {
    LastQueuedMatches(z, st.writer.queue, st.queued);
    PartingMatches(z, st.writer.waiting, st.waiting, LastQueued(st.writer.queue, st.queued));
    assert QueueMatches(z, [], []);
    hide Sendable, Frame, Frames, AllSendable, QueueMatches, WaitingMatches, LastQueued, NetworkWriter.LastDisconnect;
  }

  lemma OtherStepMatches(aes: NetworkWriter.Aes, z: Zlib, c: Compression, st: State, s: NetworkWriter.Step)
    requires Matches(z, st) && Enabled(z, st, Writer(s)) && !s.Acquire? && !s.Pop? && !s.Close?
    ensures Matches(z, Next(aes, z, c, st, Writer(s)))
  {
    RequestsStay(aes, st.writer, s);
    hide Sendable, Frame, Frames, AllSendable, QueueMatches, NetworkWriter.Next;
  }

  /** Steps that neither ask for the lock nor grant it leave the requests and the lock order alone. */
  lemma RequestsStay(aes: NetworkWriter.Aes, st: NetworkWriter.State, s: NetworkWriter.Step)
    requires NetworkWriter.Enabled(st, s) && !s.Acquire? && !s.Pop? && !s.Close? && !s.SendNow? && !s.Enqueue?
    ensures var st' := NetworkWriter.Next(aes, st, s);
            && st'.lockOrder == st.lockOrder && st'.queue == st.queue
            && st'.waiting == (if s.GiveUp? then st.waiting - {NetworkWriter.Immediate(s.id)} else st.waiting)
  {
    hide NetworkWriter.PollWriter, NetworkWriter.WriteEnded, NetworkWriter.DropEncoder;
  }

  /** While the records match, they exclude no step of the writer. */
  lemma NothingIsExcluded(z: Zlib, st: State, s: NetworkWriter.Step)
    requires Matches(z, st) && NetworkWriter.Enabled(st.writer, s) && !s.SendNow? && !s.Enqueue?
    ensures Enabled(z, st, Writer(s))
  {
    hide Sendable, Frame, Frames, AllSendable;
  }

  lemma StepMatches(aes: NetworkWriter.Aes, z: Zlib, c: Compression, st: State, step: Step)
    requires Matches(z, st) && Enabled(z, st, step)
    ensures Matches(z, Next(aes, z, c, st, step))
  {
    match step
    case Send(id, packet) => SenderMatches(aes, z, st, id, Sent(packet, st.setting));
    case Announce(id, packet) => SenderMatches(aes, z, st, id, Sent(packet, st.setting));
    case Queue(packet, last) => hide Sendable, Frame, Frames, AllSendable, WaitingMatches;
    case Store =>
    case Writer(s) =>
      match s {
        case Acquire(task) => AcquireMatches(aes, z, c, st, task);
        case Pop => PopMatches(aes, z, c, st);
        case Close => CloseMatches(aes, z, c, st);
        case _ => OtherStepMatches(aes, z, c, st, s);
      }
  }

  // ----- What every run keeps -----

  /** How many packets the peer reads before it expects compression. */
  function PlainCount(st: State): (n: nat)
  {
    if st.plain.Some? then st.plain.value else |st.order|
  }

  predicate Plain(s: Sent)
  {
    s.setting.None?
  }

  predicate PlainOr(s: Sent, c: Compression)
  {
    s.setting.None? || s.setting == Some(c)
  }

  ghost predicate SettingInv(c: Compression, st: State)
  {
    && (st.setting == None || st.setting == Some(c))
    && (st.setting.Some? ==> st.login.Stored?)
    && (st.plain.Some? ==> (st.login.Announced? || st.login.Stored?) && st.plain.value <= |st.order|)
    && ((st.login.Announced? || st.login.Stored?) && st.plain.None? ==> st.writer.slot.Empty?)
    && (forall i | 0 <= i < PlainCount(st) :: Plain(st.order[i]))
    && (forall i | 0 <= i < |st.order| :: PlainOr(st.order[i], c))
    && (forall t | t in st.waiting :: if st.login.Stored? then PlainOr(st.waiting[t], c) else Plain(st.waiting[t]))
    && (forall i | 0 <= i < |st.queued| :: if st.login.Stored? then PlainOr(st.queued[i], c) else Plain(st.queued[i]))
  }

  lemma {:induction false} LastQueuedIsQueued(queue: seq<NetworkWriter.Outbound>, queued: seq<Sent>)
    requires |queue| == |queued|
    ensures var last := LastQueued(queue, queued); last.Some? ==> last.value in queued
    decreases |queue|
  {
    if queue != [] && !queue[|queue| - 1].Disconnect? {
      var n := |queue| - 1;
      LastQueuedIsQueued(queue[..n], queued[..n]);
    }
  }

  lemma EmptyStaysEmpty(aes: NetworkWriter.Aes, st: NetworkWriter.State, s: NetworkWriter.Step)
    requires NetworkWriter.Enabled(st, s) && st.slot.Empty?
    ensures NetworkWriter.Next(aes, st, s).slot.Empty?
  {
    hide NetworkWriter.PollWriter, NetworkWriter.LastDisconnect;
  }

  lemma RelabelKeepsSettings(c: Compression, st: State, s: NetworkWriter.Step)
    requires SettingInv(c, st)
    requires (s.Acquire? ==> s.task in st.waiting) && (s.Pop? ==> st.queued != [])
    requires (s.Close? ==> |st.queued| == |st.writer.queue|) && (s.Acquire? ==> !st.writer.slot.Taken?)
    ensures SettingInv(c, Relabel(st, s))
  {
    if s.Close? {
      LastQueuedIsQueued(st.writer.queue, st.queued);
    }
    hide LastQueued;
  }

  lemma WriterStepKeepsSettings(aes: NetworkWriter.Aes, z: Zlib, c: Compression, st: State, s: NetworkWriter.Step)
    requires SettingInv(c, st) && Enabled(z, st, Writer(s))
    ensures SettingInv(c, Next(aes, z, c, st, Writer(s)))
  {
    RelabelKeepsSettings(c, st, s);
    if st.writer.slot.Empty? {
      EmptyStaysEmpty(aes, st.writer, s);
    }
    assert Relabel(st, s).writer == st.writer;
    hide Relabel, NetworkWriter.Next;
  }

  lemma StepKeepsSettings(aes: NetworkWriter.Aes, z: Zlib, c: Compression, st: State, step: Step)
    requires SettingInv(c, st) && Enabled(z, st, step)
    ensures SettingInv(c, Next(aes, z, c, st, step))
  {
    if step.Writer? {
      WriterStepKeepsSettings(aes, z, c, st, step.step);
    } else {
      hide Frame, Sendable;
      assert Next(aes, z, c, st, step).writer.slot == st.writer.slot;
    }
  }

  ghost predicate Inv(z: Zlib, c: Compression, st: State)
  {
    Matches(z, st) && SettingInv(c, st)
  }

  lemma InitialInv(z: Zlib, c: Compression)
    ensures Inv(z, c, INITIAL)
  {
    assert Frames(z, []) == [];
  }

  lemma {:induction false} RunKeepsInv(aes: NetworkWriter.Aes, z: Zlib, c: Compression, st: State, steps: seq<Step>)
    requires Inv(z, c, st) && ValidRun(aes, z, c, st, steps)
    ensures Inv(z, c, Run(aes, z, c, st, steps))
    decreases |steps|
  {
    hide Matches, SettingInv, Next, Enabled;
    if steps != [] {
      StepMatches(aes, z, c, st, steps[0]);
      StepKeepsSettings(aes, z, c, st, steps[0]);
      RunKeepsInv(aes, z, c, Next(aes, z, c, st, steps[0]), steps[1..]);
    }
  }

  /** Packet `i` was encoded before the setting was stored and written after the announcement. */
  ghost predicate Stale(st: State, i: nat)
  {
    PlainCount(st) <= i < |st.order| && Plain(st.order[i])
  }

  /**
    In every run, the lock order is that of the encoded packets, and sender and peer agree on the
    setting of every packet exactly when none is stale.
   */
  lemma SettingsAgreeExactlyWithoutStale(aes: NetworkWriter.Aes, z: Zlib, c: Compression, steps: seq<Step>)
    requires ValidRun(aes, z, c, INITIAL, steps)
    ensures var st := Run(aes, z, c, INITIAL, steps);
            && AllSendable(z, st.order) && st.writer.lockOrder == Frames(z, st.order)
            && (InStepWith(st.order, PlainCount(st), Some(c)) <==> forall i :: !Stale(st, i))
  {
    InitialInv(z, c);
    RunKeepsInv(aes, z, c, INITIAL, steps);
    var st := Run(aes, z, c, INITIAL, steps);
    hide Run, ValidRun, AllSendable, Frames, QueueMatches, WaitingMatches;
    if InStepWith(st.order, PlainCount(st), Some(c)) {
      assert forall i: nat :: i < |st.order| ==> st.order[i].setting == if i < PlainCount(st) then None else Some(c);
    } else {
      var i :| 0 <= i < |st.order| && st.order[i].setting != if i < PlainCount(st) then None else Some(c);
      assert Stale(st, i);
    }
  }

  // ----- What the peer makes of it -----

  /** Packet by packet: encoded as the peer expects it, or stale and yet read as itself. */
  ghost predicate ReadAsSent(z: Zlib, sent: seq<Sent>, plain: nat, c: Compression)
  {
    forall i | plain <= i < |sent| :: sent[i].setting == Some(c) || InflatesToItself(z, sent[i].packet)
  }

  lemma ReadAsSentTail(z: Zlib, sent: seq<Sent>, plain: nat, c: Compression)
    requires sent != []
    ensures ReadAsSent(z, sent, plain, c) <==>
            (plain > 0 || sent[0].setting == Some(c) || InflatesToItself(z, sent[0].packet))
            && ReadAsSent(z, sent[1..], Pred(plain), c)
  {
    hide InflatesToItself;
    var tail := sent[1..];
    assert forall i | 0 <= i < |tail| :: tail[i] == sent[i + 1];
    if ReadAsSent(z, tail, Pred(plain), c) {
      forall i | plain <= i < |sent| && i > 0
        ensures sent[i].setting == Some(c) || InflatesToItself(z, sent[i].packet)
      {
        assert sent[i] == tail[i - 1];
      }
    }
  }

  /** Settings as every run leaves them: none before the announcement, then none or `c`. */
  ghost predicate Settings(sent: seq<Sent>, plain: nat, c: Compression)
  {
    forall i | 0 <= i < |sent| :: sent[i].setting == None || (plain <= i && sent[i].setting == Some(c))
  }

  lemma SettingsTail(sent: seq<Sent>, plain: nat, c: Compression)
    requires sent != [] && Settings(sent, plain, c)
    ensures Settings(sent[1..], Pred(plain), c)
  {
    assert forall i | 0 <= i < |sent[1..]| :: sent[1..][i] == sent[i + 1];
  }

  /** One frame at its place: received intact exactly when it is read as sent. */
  lemma OneFrameAtItsPlace(z: Zlib, s: Sent, plain: nat, c: Compression, rest: seq<byte>)
    requires z.Inverse() && Sendable(z, s) && (s.setting == None || (plain == 0 && s.setting == Some(c)))
    ensures var r := Decode(z, Frame(z, s) + rest, ReaderAt(plain, Some(c.threshold)));
            Received(r, s.packet.id, s.packet.payload, rest) <==>
            plain > 0 || s.setting == Some(c) || InflatesToItself(z, s.packet)
    ensures var r := Decode(z, Frame(z, s) + rest, ReaderAt(plain, Some(c.threshold))); r.0.Ok? ==> r.1 == rest
  {
    hide Decode, Received, Frame;
    if plain > 0 || s.setting == Some(c) {
      OneFrame(z, s, rest);
      assert Threshold(s.setting) == ReaderAt(plain, Some(c.threshold));
    } else {
      StaleFrameIsMisread(z, s.packet, c.threshold, rest);
    }
    RestIsUntouched(z, s, ReaderAt(plain, Some(c.threshold)), rest);
  }

  lemma RestIsUntouched(z: Zlib, s: Sent, threshold: Option<nat>, rest: seq<byte>)
    requires Sendable(z, s)
    ensures Decode(z, Frame(z, s) + rest, threshold).1 == rest
  {
    hide VarInts.WriteU32, VarInts.ReadGroups, VarInts.BitLength, ParseBody, Encode, Body;
    var data := PacketData(s.packet.id, s.packet.payload);
    FrameShape(z, data, s.setting);
    DecodeFrame(z, Body(z, data, s.setting), threshold, rest);
  }

  /** A peer that has everything decodes exactly the packets sent, if and only if each is read as sent. */
  lemma {:induction false} DecodesAllIffReadAsSent(z: Zlib, sent: seq<Sent>, plain: nat, c: Compression)
    requires z.Inverse() && AllSendable(z, sent) && Settings(sent, plain, c)
    ensures DecodeAll(z, Concat(Frames(z, sent)), plain, Some(c.threshold)) == (PacketsOf(sent), [])
       <==> ReadAsSent(z, sent, plain, c)
    decreases |sent|
  {
    if sent == [] {
      assert Frames(z, sent) == [] && PacketsOf(sent) == [];
    } else {
      hide Decode, Frame, Sendable, Frames, PacketsOf, ReadAsSent, InflatesToItself;
      FramesSplit(z, sent);
      SettingsTail(sent, plain, c);
      ReadAsSentTail(z, sent, plain, c);
      var s := sent[0];
      var rest := Concat(Frames(z, sent[1..]));
      OneFrameAtItsPlace(z, s, plain, c, rest);
      DecodesAllIffReadAsSent(z, sent[1..], Pred(plain), c);
      FirstDecides(z, Frame(z, s) + rest, plain, Some(c.threshold), s.packet, PacketsOf(sent[1..]), rest);
    }
  }

  lemma FirstDecides(
    z: Zlib, input: seq<byte>, plain: nat, threshold: Option<nat>, p: Packet, more: seq<Packet>, rest: seq<byte>)
    requires input != [] && VarInts.IsI32(p.id)
    requires var r := Decode(z, input, ReaderAt(plain, threshold)); r.0.Ok? ==> r.1 == rest
    ensures DecodeAll(z, input, plain, threshold) == ([p] + more, [])
       <==> Received(Decode(z, input, ReaderAt(plain, threshold)), p.id, p.payload, rest)
            && DecodeAll(z, rest, Pred(plain), threshold) == (more, [])
  {
    hide Decode;
    var (first, _) := Decode(z, input, ReaderAt(plain, threshold));
    if first.Ok? {
      var q := Packet(first.value.id, first.value.Payload());
      var tail := DecodeAll(z, rest, Pred(plain), threshold);
      assert DecodeAll(z, input, plain, threshold) == ([q] + tail.0, tail.1);
      assert ([q] + tail.0)[0] == q && ([q] + tail.0)[1..] == tail.0;
      assert ([p] + more)[0] == p && ([p] + more)[1..] == more;
    }
  }

  /**
    In every run, a peer that has read all packets that got the lock has decoded exactly those
    packets if and only if none is stale, self-inflating ones aside.
   */
  lemma PeerDecodesAllIffNothingStale(aes: NetworkWriter.Aes, z: Zlib, c: Compression, steps: seq<Step>)
    requires z.Inverse() && ValidRun(aes, z, c, INITIAL, steps)
    ensures var st := Run(aes, z, c, INITIAL, steps);
            var decoded := DecodeAll(z, Concat(st.writer.lockOrder), PlainCount(st), Some(c.threshold));
            decoded == (PacketsOf(st.order), []) <==>
            forall i: nat :: Stale(st, i) ==> InflatesToItself(z, st.order[i].packet)
  {
    InitialInv(z, c);
    RunKeepsInv(aes, z, c, INITIAL, steps);
    var st := Run(aes, z, c, INITIAL, steps);
    assert Settings(st.order, PlainCount(st), c);
    DecodesAllIffReadAsSent(z, st.order, PlainCount(st), c);
    hide Run, ValidRun, DecodeAll, InflatesToItself, AllSendable, Frames, QueueMatches, WaitingMatches;
    if ReadAsSent(z, st.order, PlainCount(st), c) {
      forall i: nat | Stale(st, i) ensures InflatesToItself(z, st.order[i].packet) {}
    }
  }

  // ----- One sender at a time -----

  /**
    The login handlers send one packet after the other, and the store follows the end of the
    announcement's write without an await in between, unless the writer is gone.
   */
  ghost predicate InTurn(st: State, step: Step)
  {
    step.Send? || step.Queue? || step.Announce? ==>
      && st.waiting == map[] && st.queued == []
      && (st.login.Announced? ==> st.writer.slot.Empty?)
  }

  ghost predicate InTurnRun(aes: NetworkWriter.Aes, z: Zlib, c: Compression, st: State, steps: seq<Step>)
    requires ValidRun(aes, z, c, st, steps)
    decreases |steps|
  {
    steps == [] || (InTurn(st, steps[0]) && InTurnRun(aes, z, c, Next(aes, z, c, st, steps[0]), steps[1..]))
  }

  /** Nothing waits or is queued but packets encoded under `c`. */
  ghost predicate OnlyCompressed(c: Compression, st: State)
  {
    && (forall t | t in st.waiting :: st.waiting[t].setting == Some(c))
    && (forall i | 0 <= i < |st.queued| :: st.queued[i].setting == Some(c))
  }

  ghost predicate TurnInv(c: Compression, st: State)
  {
    && SettingInv(c, st)
    && (st.login.Stored? ==> st.setting == Some(c))
    && (st.login.Announcing? ==> st.waiting.Keys == {NetworkWriter.Immediate(st.login.id)} && st.queued == [])
    && (st.login.Announced? || st.login.Stored? ==> st.writer.slot.Empty? || OnlyCompressed(c, st))
    && (forall i: nat :: !Stale(st, i))
  }

  lemma RelabelInTurn(c: Compression, st: State, s: NetworkWriter.Step)
    requires TurnInv(c, st)
    requires (s.Acquire? ==> s.task in st.waiting) && (s.Pop? ==> st.queued != [])
    requires (s.Close? ==> |st.queued| == |st.writer.queue|) && (s.Acquire? ==> !st.writer.slot.Taken?)
    ensures TurnInv(c, Relabel(st, s))
  {
    RelabelKeepsSettings(c, st, s);
    if s.Close? {
      LastQueuedIsQueued(st.writer.queue, st.queued);
    }
    var st' := Relabel(st, s);
    forall i: nat ensures !Stale(st', i) {
      assert !Stale(st, i);
    }
    hide LastQueued;
  }

  lemma TurnKeepsInv(aes: NetworkWriter.Aes, z: Zlib, c: Compression, st: State, step: Step)
    requires TurnInv(c, st) && Enabled(z, st, step) && InTurn(st, step)
    ensures TurnInv(c, Next(aes, z, c, st, step))
  {
    StepKeepsSettings(aes, z, c, st, step);
    var st' := Next(aes, z, c, st, step);
    if step.Writer? {
      RelabelInTurn(c, st, step.step);
      assert Relabel(st, step.step).writer == st.writer;
      if st.writer.slot.Empty? {
        EmptyStaysEmpty(aes, st.writer, step.step);
      }
      hide Relabel, NetworkWriter.Next, SettingInv;
      assert forall i: nat :: Stale(st', i) <==> Stale(Relabel(st, step.step), i);
    } else {
      hide Frame, Sendable, SettingInv;
      assert st'.writer.slot == st.writer.slot;
      assert forall i: nat :: Stale(st', i) <==> Stale(st, i);
    }
  }

  lemma {:induction false} TurnsKeepInv(aes: NetworkWriter.Aes, z: Zlib, c: Compression, st: State, steps: seq<Step>)
    requires TurnInv(c, st) && ValidRun(aes, z, c, st, steps) && InTurnRun(aes, z, c, st, steps)
    ensures TurnInv(c, Run(aes, z, c, st, steps))
    decreases |steps|
  {
    hide TurnInv, Next, Enabled, InTurn;
    if steps != [] {
      TurnKeepsInv(aes, z, c, st, steps[0]);
      TurnsKeepInv(aes, z, c, Next(aes, z, c, st, steps[0]), steps[1..]);
    }
  }

  /** Sending in turn, no packet is ever stale: sender and peer agree on every packet. */
  lemma SendingInTurnAgrees(aes: NetworkWriter.Aes, z: Zlib, c: Compression, steps: seq<Step>)
    requires ValidRun(aes, z, c, INITIAL, steps) && InTurnRun(aes, z, c, INITIAL, steps)
    ensures var st := Run(aes, z, c, INITIAL, steps); InStepWith(st.order, PlainCount(st), Some(c))
  {
    assert TurnInv(c, INITIAL);
    TurnsKeepInv(aes, z, c, INITIAL, steps);
    SettingsAgreeExactlyWithoutStale(aes, z, c, steps);
  }

  /** Compression is announced at most once, also when the first attempt was given up. */
  lemma {:induction false} AnnouncedOnce(
    aes: NetworkWriter.Aes, z: Zlib, c: Compression, st: State, steps: seq<Step>, i: nat, j: nat)
    requires ValidRun(aes, z, c, st, steps) && i < j < |steps| && steps[i].Announce?
    ensures !steps[j].Announce?
    decreases |steps|
  {
    var st' := Next(aes, z, c, st, steps[0]);
    assert steps[i] == if i == 0 then steps[0] else steps[1..][i - 1];
    assert steps[j] == steps[1..][j - 1];
    if i == 0 {
      hide Next, Enabled;
      NeverAgain(aes, z, c, st', steps[1..], j - 1);
    } else {
      hide Next, Enabled;
      AnnouncedOnce(aes, z, c, st', steps[1..], i - 1, j - 1);
    }
  }

  lemma {:induction false} NeverAgain(
    aes: NetworkWriter.Aes, z: Zlib, c: Compression, st: State, steps: seq<Step>, j: nat)
    requires ValidRun(aes, z, c, st, steps) && !st.login.Before? && j < |steps|
    ensures !steps[j].Announce?
    decreases |steps|
  {
    if j > 0 {
      assert !Next(aes, z, c, st, steps[0]).login.Before?;
      hide Next, Enabled;
      NeverAgain(aes, z, c, Next(aes, z, c, st, steps[0]), steps[1..], j - 1);
    }
  }

  // ----- Two senders at once -----

  /** A run from the start, and where it ends. */
  ghost predicate Reaches(aes: NetworkWriter.Aes, z: Zlib, c: Compression, steps: seq<Step>, st: State)
  {
    ValidRun(aes, z, c, INITIAL, steps) && Run(aes, z, c, INITIAL, steps) == st
  }

  lemma {:induction false} RunAppend(
    aes: NetworkWriter.Aes, z: Zlib, c: Compression, st: State, steps: seq<Step>, step: Step)
    requires ValidRun(aes, z, c, st, steps) && Enabled(z, Run(aes, z, c, st, steps), step)
    ensures ValidRun(aes, z, c, st, steps + [step])
    ensures Run(aes, z, c, st, steps + [step]) == Next(aes, z, c, Run(aes, z, c, st, steps), step)
    decreases |steps|
  {
    hide Next, Enabled;
    var all := steps + [step];
    if steps == [] {
      assert all[1..] == [];
    } else {
      assert all[0] == steps[0] && all[1..] == steps[1..] + [step];
      RunAppend(aes, z, c, Next(aes, z, c, st, steps[0]), steps[1..], step);
    }
  }

  lemma OneMore(aes: NetworkWriter.Aes, z: Zlib, c: Compression, steps: seq<Step>, st: State, step: Step)
    requires Reaches(aes, z, c, steps, st) && Enabled(z, st, step)
    ensures Reaches(aes, z, c, steps + [step], Next(aes, z, c, st, step))
  {
    hide Next, Enabled, Run, ValidRun;
    RunAppend(aes, z, c, INITIAL, steps, step);
  }

  /** Two senders wait for a free lock: the login task with its announcement, and another. */
  ghost predicate TwoWait(z: Zlib, st: State, a: Sent, b: Sent)
    requires Sendable(z, a) && Sendable(z, b)
  {
    var first, second := NetworkWriter.Immediate(0), NetworkWriter.Immediate(1);
    && st.login == Announcing(0) && st.setting == None && st.order == [] && st.plain == None
    && st.waiting == map[first := a, second := b]
    && st.writer.waiting == map[first := Frame(z, a), second := Frame(z, b)]
    && st.writer.slot == NetworkWriter.Full(NetworkWriter.Plain) && st.writer.wire == [] && st.writer.sent == 0
  }

  /** The login task has got the lock: `taken` bytes of its packet are in the buffer, `sent` on the socket. */
  ghost predicate Announces(z: Zlib, st: State, a: Sent, b: Sent, taken: nat, sent: nat)
    requires Sendable(z, a) && Sendable(z, b)
  {
    var slot := st.writer.slot;
    && OneWaits(z, st, a, b) && st.login == Announced(0)
    && slot.Taken? && slot.task == NetworkWriter.Immediate(0) && slot.packet == Frame(z, a)
    && slot.encoder == NetworkWriter.Plain
    && taken <= |Frame(z, a)| && slot.accepted == taken && slot.progress.delivered == Frame(z, a)[..taken]
    && st.writer.wire == [] && st.writer.sent == sent
  }

  ghost predicate OneWaits(z: Zlib, st: State, a: Sent, b: Sent)
    requires Sendable(z, b)
  {
    var second := NetworkWriter.Immediate(1);
    && st.order == [a] && st.plain == Some(1)
    && st.waiting == map[second := b] && st.writer.waiting == map[second := Frame(z, b)]
  }

  lemma BothWait(aes: NetworkWriter.Aes, z: Zlib, c: Compression, a: Sent, b: Sent)
    returns (steps: seq<Step>, st: State)
    requires Sendable(z, a) && Sendable(z, b) && Plain(a) && Plain(b)
    ensures Reaches(aes, z, c, steps, st) && TwoWait(z, st, a, b)
  {
    hide Sendable, Frame, Run, ValidRun;
    assert a == Sent(a.packet, None) && b == Sent(b.packet, None);
    EndOfRun(aes, z, c, INITIAL);
    OneMore(aes, z, c, [], INITIAL, Announce(0, a.packet));
    var s1 := Next(aes, z, c, INITIAL, Announce(0, a.packet));
    OneMore(aes, z, c, [] + [Announce(0, a.packet)], s1, Send(1, b.packet));
    st := Next(aes, z, c, s1, Send(1, b.packet));
    steps := [] + [Announce(0, a.packet)] + [Send(1, b.packet)];
  }

  lemma EndOfRun(aes: NetworkWriter.Aes, z: Zlib, c: Compression, st: State)
    ensures ValidRun(aes, z, c, st, []) && Run(aes, z, c, st, []) == st
  {
  }

  lemma LockIsGranted(aes: NetworkWriter.Aes, z: Zlib, c: Compression, st: State, a: Sent, b: Sent)
    requires Sendable(z, a) && Sendable(z, b) && TwoWait(z, st, a, b)
    ensures var step := Writer(NetworkWriter.Acquire(NetworkWriter.Immediate(0)));
            Enabled(z, st, step) && Announces(z, Next(aes, z, c, st, step), a, b, 0, 0)
  {
    hide Sendable, Frame;
    assert [] + [a] == [a];
  }

  lemma PacketIsTaken(aes: NetworkWriter.Aes, z: Zlib, c: Compression, st: State, a: Sent, b: Sent)
    requires Sendable(z, a) && Sendable(z, b) && Announces(z, st, a, b, 0, 0)
    ensures var n := |Frame(z, a)|;
            var step := Writer(NetworkWriter.Poll(seq(n, _ => CipherStream.Took)));
            Enabled(z, st, step) && Announces(z, Next(aes, z, c, st, step), a, b, n, 0)
  {
    var f := Frame(z, a);
    NetworkWriter.AllTookLeads(seq(|f|, _ => CipherStream.Took));
    hide Sendable, Frame, OneWaits, NetworkWriter.LeadingTook;
    assert f[0..] == f && f[..|f|] == f && f[..0] + f == f;
    var step := Writer(NetworkWriter.Poll(seq(|f|, _ => CipherStream.Took)));
    var st' := Next(aes, z, c, st, step);
    assert OneWaits(z, st', a, b) by { WaitsAlike(z, st, st', a, b); }
  }

  lemma WaitsAlike(z: Zlib, st: State, st': State, a: Sent, b: Sent)
    requires Sendable(z, b) && OneWaits(z, st, a, b)
    requires st'.order == st.order && st'.plain == st.plain && st'.waiting == st.waiting
    requires st'.writer.waiting == st.writer.waiting
    ensures OneWaits(z, st', a, b)
  {
    hide Sendable, Frame;
  }

  lemma PacketIsDrained(aes: NetworkWriter.Aes, z: Zlib, c: Compression, st: State, a: Sent, b: Sent)
    requires Sendable(z, a) && Sendable(z, b) && Announces(z, st, a, b, |Frame(z, a)|, 0)
    ensures var n := |Frame(z, a)|;
            var step := Writer(NetworkWriter.Drain(n));
            Enabled(z, st, step) && Announces(z, Next(aes, z, c, st, step), a, b, n, n)
  {
    hide Sendable, Frame;
  }

  lemma WriteIsFinished(aes: NetworkWriter.Aes, z: Zlib, c: Compression, st: State, a: Sent, b: Sent)
    requires Sendable(z, a) && Sendable(z, b) && Announces(z, st, a, b, |Frame(z, a)|, |Frame(z, a)|)
    ensures var step := Writer(NetworkWriter.Finish);
            && Enabled(z, st, step)
            && var st' := Next(aes, z, c, st, step);
            && OneWaits(z, st', a, b) && st'.login == Announced(0)
            && st'.writer.slot == NetworkWriter.Full(NetworkWriter.Plain)
  {
    hide Sendable, Frame;
  }

  /** The announcement has been written, the setting stored, and the other packet gets the lock. */
  lemma StaleIsGranted(aes: NetworkWriter.Aes, z: Zlib, c: Compression, st: State, a: Sent, b: Sent)
    requires Sendable(z, b) && OneWaits(z, st, a, b) && st.login == Announced(0) && Plain(b)
    requires st.writer.slot == NetworkWriter.Full(NetworkWriter.Plain)
    ensures var last := Writer(NetworkWriter.Acquire(NetworkWriter.Immediate(1)));
            && Enabled(z, st, Store) && Enabled(z, Next(aes, z, c, st, Store), last)
            && var st' := Next(aes, z, c, Next(aes, z, c, st, Store), last);
            && st'.order == [a, b] && st'.login == Stored && Stale(st', 1)
  {
    hide Sendable, Frame;
    assert [a] + [b] == [a, b];
  }

  /**
    Two senders at once are enough for a stale packet: one encodes while the announcement waits, and
    gets the lock after the store.
   */
  lemma StalePacketsHappen(aes: NetworkWriter.Aes, z: Zlib, c: Compression, a: Sent, b: Sent)
    returns (steps: seq<Step>)
    requires Sendable(z, a) && Sendable(z, b) && Plain(a) && Plain(b)
    ensures ValidRun(aes, z, c, INITIAL, steps)
    ensures var st := Run(aes, z, c, INITIAL, steps); st.order == [a, b] && st.login == Stored && Stale(st, 1)
  {
    hide Next, Enabled, Sendable, Frame, Run, ValidRun, TwoWait, OneWaits, Announces;
    var n := |Frame(z, a)|;
    var st: State;
    steps, st := BothWait(aes, z, c, a, b);
    LockIsGranted(aes, z, c, st, a, b);
    steps, st := Take(aes, z, c, steps, st, Writer(NetworkWriter.Acquire(NetworkWriter.Immediate(0))));
    PacketIsTaken(aes, z, c, st, a, b);
    steps, st := Take(aes, z, c, steps, st, Writer(NetworkWriter.Poll(seq(n, _ => CipherStream.Took))));
    PacketIsDrained(aes, z, c, st, a, b);
    steps, st := Take(aes, z, c, steps, st, Writer(NetworkWriter.Drain(n)));
    WriteIsFinished(aes, z, c, st, a, b);
    steps, st := Take(aes, z, c, steps, st, Writer(NetworkWriter.Finish));
    StaleIsGranted(aes, z, c, st, a, b);
    steps, st := Take(aes, z, c, steps, st, Store);
    steps, st := Take(aes, z, c, steps, st, Writer(NetworkWriter.Acquire(NetworkWriter.Immediate(1))));
  }

  lemma Take(aes: NetworkWriter.Aes, z: Zlib, c: Compression, steps: seq<Step>, st: State, step: Step)
    returns (steps': seq<Step>, st': State)
    requires Reaches(aes, z, c, steps, st) && Enabled(z, st, step)
    ensures st' == Next(aes, z, c, st, step) && Reaches(aes, z, c, steps', st')
  {
    OneMore(aes, z, c, steps, st, step);
    steps', st' := steps + [step], Next(aes, z, c, st, step);
  }
}
