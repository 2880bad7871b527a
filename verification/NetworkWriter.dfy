/**
  The shared network writer of a connection: one encoder in a slot behind a lock, used by
  immediate senders and by the task that drains the outgoing queue. A sender takes the encoder
  out, writes, and puts it back; failure or cancellation at any await drops it instead.

  The protocol is a state machine whose steps are the awaits of the tasks.
 */
module NetworkWriter {
  import opened Bytes
  import opened CipherStream

  /** The AES block function of each key. Key and IV are the same bytes. */
  type Aes = Register -> Keystream

  datatype Outbound = Queued(packet: seq<byte>) | Disconnect(packet: seq<byte>)

  datatype Task = Outgoing | Immediate(id: nat)

  /** An encoder at a packet boundary. */
  datatype Encoder = Plain | Keyed(key: Register, register: Register)

  /**
    The lock and the slot together: free with an encoder in the slot, held by a task that has
    taken the encoder out, or free with an empty slot.
   */
  datatype Slot =
    | Full(encoder: Encoder)
    | Taken(task: Task, packet: seq<byte>, encoder: Encoder, progress: EncryptorState, accepted: nat)
    | Empty

  /**
    Where the outgoing-packet task stands. `last` marks a queued disconnect, after which it closes;
    `Parting` is the disconnect that it tries to write when the token was cancelled.
   */
  datatype Pc = Looping | Writing(last: bool) | Parting | Releasing | Ended | Upgraded

  /**
    `wire` holds the bytes handed to the socket's buffer before the packet in flight, and `sent`
    counts how many bytes have left that buffer. The fields from `history` on only record what
    happened: the finished packets before and after encryption was switched on, the packet in
    flight when the encoder was dropped, the packets in the order in which the lock was granted
    for them and to whom, those popped from the queue, which of those the outgoing task got the
    lock for, the parting disconnect it got the lock for, what it found in the queue when it saw the
    close, and whether some write has failed.
   */
  datatype State = State(
    slot: Slot,
    wire: seq<byte>,
    sent: nat,
    waiting: map<Task, seq<byte>>,
    queue: seq<Outbound>,
    cancelled: bool,
    pc: Pc,
    history: History,
    cut: Option<seq<byte>>,
    lockOrder: seq<seq<byte>>,
    lockTasks: seq<Task>,
    popped: seq<Outbound>,
    outgoingTook: seq<seq<byte>>,
    parting: seq<seq<byte>>,
    drained: Option<seq<Outbound>>,
    failed: bool)
  {
    /** Everything handed to the socket's buffer so far. */
    function Handed(): (r: seq<byte>)
    {
      if slot.Taken? then wire + slot.progress.delivered else wire
    }

    /** What the peer can have received. */
    function Socket(): (r: seq<byte>)
      requires sent <= |Handed()|
    {
      Handed()[..sent]
    }

    /** The packet whose write was begun and not finished, if any. */
    function Unfinished(): (r: Option<seq<byte>>)
    {
      match slot
      case Full(_) => None
      case Taken(_, packet, _, _, _) => Some(packet)
      case Empty => cut
    }
  }

  datatype History = History(clear: seq<seq<byte>>, key: Option<Register>, sealed: seq<seq<byte>>)

  const INITIAL: State :=
    State(Full(Plain), [], 0, map[], [], false, Looping, History([], None, []), None, [], [], [], [], [], None, false)

  // ----- Draining the queue on close -----

  /** The disconnect packet queued last, if any. */
  function LastDisconnect(queue: seq<Outbound>): (r: Option<seq<byte>>)
    ensures r.Some? <==> exists o :: o in queue && o.Disconnect?
  {
    if queue == [] then None
    else
      var last := queue[|queue| - 1];
      if last.Disconnect? then Some(last.packet) else LastDisconnect(queue[..|queue| - 1])
  }

  /** `write_queued_disconnect`: receives until the queue is empty, keeping only disconnects. */
  method TakeQueuedDisconnect(queue: seq<Outbound>) returns (packet: Option<seq<byte>>)
    ensures packet == LastDisconnect(queue)
  {
    packet := None;
    for i := 0 to |queue|
      invariant packet == LastDisconnect(queue[..i])
    {
      assert queue[..i + 1][..i] == queue[..i];
      if queue[i].Disconnect? {
        packet := Some(queue[i].packet);
      }
    }
    assert queue[..|queue|] == queue;
  }

  // ----- Steps -----

  datatype Step =
    | SendNow(id: nat, packet: seq<byte>)    // an immediate sender starts waiting for the lock
    | Enqueue(item: Outbound)
    | Acquire(task: Task)                    // the lock is granted; the slot is emptied
    | Poll(answers: seq<Answer>)             // the holder polls its write
    | Drain(n: nat)                          // the buffer passes bytes on to the socket
    | Finish                                 // written and flushed: the encoder goes back
    | Fail                                   // the holder's write or flush fails
    | Drop                                   // an immediate sender is cancelled while it holds the lock
    | GiveUp(id: nat)                        // an immediate sender is cancelled while waiting
    | Cancel                                 // the connection's token is cancelled
    | Pop                                    // the outgoing task takes the next item
    | Close                                  // the outgoing task sees the token cancelled
    | Release                                // the outgoing task empties the slot and ends
    | EnableEncryption(key: Register)
    | Upgrade

  /** The bytes of one poll on a plain encoder: as many as the inner writer takes. */
  function LeadingTook(answers: seq<Answer>): (n: nat)
    ensures n <= |answers|
  {
    if answers == [] || answers[0] != Took then 0 else 1 + LeadingTook(answers[1..])
  }

  function PollPlain(s: EncryptorState, buf: seq<byte>, answers: seq<Answer>): (r: (EncryptorState, PollResult))
    requires |answers| == |buf| > 0
  {
    var n := LeadingTook(answers);
    if n > 0 then (s.(delivered := s.delivered + buf[..n]), PollReady(n))
    else (s, if answers[0] == Pending then PollPending else PollError)
  }

  function PollWriter(aes: Aes, e: Encoder, s: EncryptorState, buf: seq<byte>, answers: seq<Answer>)
    : (r: (EncryptorState, PollResult))
    requires |answers| == |buf| > 0
  {
    if e.Plain? then PollPlain(s, buf, answers) else PollFrom(aes(e.key), s, buf, answers, 0)
  }

  lemma {:induction false} AllTookLeads(answers: seq<Answer>)
    requires forall i | 0 <= i < |answers| :: answers[i] == Took
    ensures LeadingTook(answers) == |answers|
  {
    if answers != [] {
      AllTookLeads(answers[1..]);
    }
  }

  /** A writer that takes every byte takes them all in one poll. */
  lemma AllIsTaken(aes: Aes, e: Encoder, s: EncryptorState, buf: seq<byte>, answers: seq<Answer>)
    requires |answers| == |buf| > 0 && forall i | 0 <= i < |answers| :: answers[i] == Took
    ensures PollWriter(aes, e, s, buf, answers).1 == PollReady(|buf|)
  {
    if e.Plain? {
      AllTookLeads(answers);
    } else {
      AllTookIsReady(aes(e.key), s, buf, answers, 0);
    }
  }

  function StartRegister(e: Encoder): (r: Register)
  {
    if e.Keyed? then e.register else [0, 0, 0, 0, 0, 0, 0, 0, 0, 0, 0, 0, 0, 0, 0, 0]
  }

  /** The encoder after a packet that was written whole. */
  function After(e: Encoder, s: EncryptorState): (r: Encoder)
  {
    if e.Plain? then Plain else Keyed(e.key, s.register)
  }

  predicate Enabled(st: State, step: Step)
  {
    match step
    case SendNow(id, _) => Immediate(id) !in st.waiting && !(st.slot.Taken? && st.slot.task == Immediate(id))
    case Enqueue(_) => true
    case Acquire(task) => task in st.waiting && !st.slot.Taken?
    case Poll(answers) =>
      && st.slot.Taken?
      && |answers| == |st.slot.packet| - st.slot.accepted > 0
      && Lossless(answers)
    case Drain(n) => st.slot.Taken? && st.sent + n <= |st.Handed()|
    case Finish => st.slot.Taken? && st.slot.accepted == |st.slot.packet| && st.sent == |st.Handed()|
    case Fail => st.slot.Taken?
    case Drop => st.slot.Taken? && st.slot.task.Immediate?
    case GiveUp(id) => Immediate(id) in st.waiting
    case Cancel => true
    case Pop => st.pc == Looping && !st.cancelled && st.queue != []
    case Close => st.cancelled && (st.pc == Looping || st.pc == Writing(false))
    case Release => st.pc == Releasing && !st.slot.Taken?
    case EnableEncryption(_) => st.pc == Looping && st.slot.Full? && st.slot.encoder.Plain?
    case Upgrade => st.pc == Looping
  }

  /**
    How a task reacts to the end of its write: a failure cancels the connection, and the outgoing
    task goes on with the queue, or closes behind a disconnect.
   */
  function WriteEnded(st: State, task: Task, ok: bool): (r: State)
    ensures r == st.(cancelled := r.cancelled, failed := r.failed, pc := r.pc) && (st.cancelled ==> r.cancelled)
  {
    var st' := st.(cancelled := st.cancelled || !ok, failed := st.failed || !ok);
    if task.Immediate? || !(st.pc.Writing? || st.pc.Parting?) then st'
    else if st.pc.Parting? || st.pc.last then st'.(cancelled := true, pc := Releasing)
    else st'.(pc := Looping)
  }

  /** The encoder is gone, and with it the packet in flight. */
  function DropEncoder(st: State): (r: State)
    requires st.slot.Taken?
    ensures r == st.(slot := Empty, wire := r.wire, cut := r.cut)
  {
    st.(slot := Empty, wire := st.Handed(), cut := Some(st.slot.packet))
  }

  /** The outgoing task on close: the pending write is abandoned, the queue drained, and a disconnect tried. */
  function CloseOutgoing(st: State): (r: State)
  {
    var stopped := if st.slot.Taken? && st.slot.task == Outgoing then DropEncoder(st) else st;
    var rest := stopped.(waiting := stopped.waiting - {Outgoing}, queue := [], drained := Some(st.queue));
    var last := LastDisconnect(st.queue);
    if last.None? then rest.(pc := Releasing)
    else rest.(pc := Parting, waiting := rest.waiting[Outgoing := last.value])
  }

  function Next(aes: Aes, st: State, step: Step): (r: State)
    requires Enabled(st, step)
  {
    match step
    case SendNow(id, packet) => st.(waiting := st.waiting[Immediate(id) := packet])
    case Enqueue(item) => st.(queue := st.queue + [item])
    case Acquire(task) =>
      var packet := st.waiting[task];
      var st' := st.(waiting := st.waiting - {task});
      if st.slot.Empty? then WriteEnded(st', task, false)
      else
        st'.(slot := Taken(task, packet, st.slot.encoder,
                           EncryptorState(StartRegister(st.slot.encoder), None, []), 0),
             lockOrder := st.lockOrder + [packet],
             lockTasks := st.lockTasks + [task],
             outgoingTook := if task == Outgoing && st.pc.Writing? then st.outgoingTook + [packet] else st.outgoingTook,
             parting := if task == Outgoing && st.pc.Parting? then st.parting + [packet] else st.parting)
    case Poll(answers) =>
      var t := st.slot;
      var (s, result) := PollWriter(aes, t.encoder, t.progress, t.packet[t.accepted..], answers);
      var st' := st.(slot := t.(progress := s));
      match result {
        case PollPending => st'
        case PollReady(n) => st'.(slot := t.(progress := s, accepted := t.accepted + n))
        case PollError => WriteEnded(DropEncoder(st'), t.task, false)
      }
    case Drain(n) => st.(sent := st.sent + n)
    case Finish =>
      var t := st.slot;
      var h := if t.encoder.Plain? then st.history.(clear := st.history.clear + [t.packet])
               else st.history.(sealed := st.history.sealed + [t.packet]);
      WriteEnded(st.(slot := Full(After(t.encoder, t.progress)), wire := st.Handed(), history := h), t.task, true)
    case Fail => WriteEnded(DropEncoder(st), st.slot.task, false)
    case Drop => DropEncoder(st)
    case GiveUp(id) => st.(waiting := st.waiting - {Immediate(id)})
    case Cancel => st.(cancelled := true)
    case Pop =>
      var item := st.queue[0];
      st.(queue := st.queue[1..], pc := Writing(item.Disconnect?),
          waiting := st.waiting[Outgoing := item.packet], popped := st.popped + [item])
    case Close => CloseOutgoing(st)
    case Release => st.(slot := Empty, pc := Ended)
    case EnableEncryption(key) =>
      st.(slot := Full(Keyed(key, key)), history := st.history.(key := Some(key)))
    case Upgrade => st.(pc := Upgraded)
  }

  /** A run is a list of steps, each enabled where it is taken. */
  ghost predicate ValidRun(aes: Aes, st: State, steps: seq<Step>)
    decreases |steps|
  {
    steps == [] || (Enabled(st, steps[0]) && ValidRun(aes, Next(aes, st, steps[0]), steps[1..]))
  }

  ghost function Run(aes: Aes, st: State, steps: seq<Step>): (r: State)
    requires ValidRun(aes, st, steps)
    decreases |steps|
  {
    if steps == [] then st else Run(aes, Next(aes, st, steps[0]), steps[1..])
  }

  // ----- What the wire holds -----

  /** The finished packets on the wire: first in clear, then as one CFB-8 stream under the key. */
  ghost function HistoryWire(aes: Aes, h: History): (r: seq<byte>)
  {
    Concat(h.clear) + if h.key.Some? then Encrypt(aes(h.key.value), h.key.value, Concat(h.sealed)) else []
  }

  /** The encoder that belongs behind those packets. */
  ghost function HistoryEncoder(aes: Aes, h: History): (r: Encoder)
  {
    if h.key.None? then Plain
    else Keyed(h.key.value, Advance(h.key.value, Encrypt(aes(h.key.value), h.key.value, Concat(h.sealed))))
  }

  /** A packet as an encoder puts it on the wire. */
  ghost function Coded(aes: Aes, e: Encoder, packet: seq<byte>): (r: seq<byte>)
  {
    if e.Plain? then packet else Encrypt(aes(e.key), e.register, packet)
  }

  ghost predicate Progressing(aes: Aes, e: Encoder, s: EncryptorState, packet: seq<byte>, accepted: nat)
  {
    && accepted <= |packet|
    && if e.Plain? then s.delivered == packet[..accepted] else InStep(aes(e.key), e.register, s, packet, accepted)
  }

  ghost function Packets(h: History): (r: seq<seq<byte>>)
  {
    h.clear + h.sealed
  }

  ghost function Listed(p: Option<seq<byte>>): (r: seq<seq<byte>>)
  {
    if p.Some? then [p.value] else []
  }

  /** The wire is right for the history, in each state of the slot. */
  ghost predicate WireInv(aes: Aes, st: State)
  {
    var done := HistoryWire(aes, st.history);
    var enc := HistoryEncoder(aes, st.history);
    && (st.history.key.None? ==> st.history.sealed == [])
    && (!st.slot.Empty? ==> st.cut.None?)
    && st.lockOrder == Packets(st.history) + Listed(st.Unfinished())
    && |done| <= st.sent <= |st.Handed()|
    && match st.slot
       case Full(e) => e == enc && st.wire == done
       case Taken(_, packet, e, s, k) => e == enc && st.wire == done && Progressing(aes, e, s, packet, k)
       case Empty =>
         && done <= st.wire
         && st.wire[|done|..] <= (if st.cut.Some? then Coded(aes, enc, st.cut.value) else [])
  }

  lemma ProgressIsPrefix(aes: Aes, e: Encoder, s: EncryptorState, packet: seq<byte>, accepted: nat)
    requires Progressing(aes, e, s, packet, accepted)
    ensures s.delivered <= Coded(aes, e, packet)
  {
    if e.Keyed? {
      EncryptPrefix(aes(e.key), e.register, packet, accepted);
    }
  }

  /** One poll of a write in progress: it stays in step, or fails having delivered a prefix. */
  lemma PollProgresses(
    aes: Aes, e: Encoder, s: EncryptorState, packet: seq<byte>, k: nat, answers: seq<Answer>)
    requires Progressing(aes, e, s, packet, k)
    requires |answers| == |packet| - k > 0 && Lossless(answers)
    ensures var (s', result) := PollWriter(aes, e, s, packet[k..], answers);
            match result
            case PollPending => Progressing(aes, e, s', packet, k) && |s'.delivered| >= |s.delivered|
            case PollReady(n) => Progressing(aes, e, s', packet, k + n) && |s'.delivered| >= |s.delivered|
            case PollError => s'.delivered <= Coded(aes, e, packet) && |s'.delivered| >= |s.delivered|
  {
    hide Encrypt, Advance;
    if e.Plain? {
      var n := LeadingTook(answers);
      assert packet[..k] + packet[k..][..n] == packet[..k + n];
    } else {
      assert packet[k..] == packet[k..k + |answers|];
      PollKeepsStep(aes(e.key), e.register, s, packet, k, |answers|, answers, 0);
      var end := PollFrom(aes(e.key), s, packet[k..], answers, 0);
      assert PollOutcome(aes(e.key), e.register, packet, k, |answers|, 0, end);
      if end.1.PollError? {
        EncryptPrefix(aes(e.key), e.register, packet, |end.0.delivered|);
      }
    }
  }

  /** A packet that was written whole extends the encrypted stream. */
  lemma StreamExtends(aes: Aes, key: Register, sealed: seq<seq<byte>>, s: EncryptorState, packet: seq<byte>)
    requires var e := Encrypt(aes(key), key, Concat(sealed));
             InStep(aes(key), Advance(key, e), s, packet, |packet|)
    ensures var e := Encrypt(aes(key), key, Concat(sealed));
            && Encrypt(aes(key), key, Concat(sealed + [packet])) == e + s.delivered
            && s.register == Advance(key, e + s.delivered)
  {
    var e := Encrypt(aes(key), key, Concat(sealed));
    assert packet[..|packet|] == packet;
    hide Encrypt, Advance, Concat;
    ConcatAppend(sealed, packet);
    EncryptSplit(aes(key), key, Concat(sealed), packet);
    AdvanceSplit(key, e, s.delivered);
  }

  lemma FinishExtendsHistory(aes: Aes, h: History, s: EncryptorState, packet: seq<byte>)
    requires h.key.None? ==> h.sealed == []
    requires Progressing(aes, HistoryEncoder(aes, h), s, packet, |packet|)
    ensures var e := HistoryEncoder(aes, h);
            var h' := if e.Plain? then h.(clear := h.clear + [packet]) else h.(sealed := h.sealed + [packet]);
            && HistoryWire(aes, h') == HistoryWire(aes, h) + s.delivered
            && HistoryEncoder(aes, h') == After(e, s)
            && Packets(h') == Packets(h) + [packet]
  {
    hide Encrypt, Advance, Concat, InStep;
    if h.key.None? {
      assert packet[..|packet|] == packet;
      ConcatAppend(h.clear, packet);
    } else {
      var key := h.key.value;
      StreamExtends(aes, key, h.sealed, s, packet);
      Associative(Concat(h.clear), Encrypt(aes(key), key, Concat(h.sealed)), s.delivered);
    }
  }

  lemma DropKeepsWire(aes: Aes, st: State)
    requires st.slot.Taken? && (st.history.key.None? ==> st.history.sealed == [])
    requires st.slot.encoder == HistoryEncoder(aes, st.history) && st.wire == HistoryWire(aes, st.history)
    requires st.lockOrder == Packets(st.history) + [st.slot.packet]
    requires |st.wire| <= st.sent <= |st.Handed()|
    requires st.slot.progress.delivered <= Coded(aes, st.slot.encoder, st.slot.packet)
    ensures WireInv(aes, DropEncoder(st)) && WireInv(aes, WriteEnded(DropEncoder(st), st.slot.task, false))
  {
    hide Encrypt, Advance, Concat;
    assert st.Handed()[|st.wire|..] == st.slot.progress.delivered;
  }

  lemma PollKeepsWire(aes: Aes, st: State, answers: seq<Answer>)
    requires WireInv(aes, st) && Enabled(st, Poll(answers))
    ensures WireInv(aes, Next(aes, st, Poll(answers)))
  {
    hide Encrypt, Advance, Concat, PollFrom, InStep;
    var t := st.slot;
    PollProgresses(aes, t.encoder, t.progress, t.packet, t.accepted, answers);
    var (s, result) := PollWriter(aes, t.encoder, t.progress, t.packet[t.accepted..], answers);
    if result.PollError? {
      DropKeepsWire(aes, st.(slot := t.(progress := s)));
    }
  }

  lemma CloseKeepsWire(aes: Aes, st: State)
    requires WireInv(aes, st) && Enabled(st, Close)
    ensures WireInv(aes, Next(aes, st, Close))
  {
    hide Encrypt, Advance, Concat, PollFrom, LastDisconnect;
    if st.slot.Taken? && st.slot.task == Outgoing {
      ProgressIsPrefix(aes, st.slot.encoder, st.slot.progress, st.slot.packet, st.slot.accepted);
      DropKeepsWire(aes, st);
    }
  }

  lemma StepKeepsWire(aes: Aes, st: State, step: Step)
    requires WireInv(aes, st) && Enabled(st, step)
    ensures WireInv(aes, Next(aes, st, step))
  {
    match step
    case Poll(answers) => PollKeepsWire(aes, st, answers);
    case Close => CloseKeepsWire(aes, st);
    case Fail =>
      ProgressIsPrefix(aes, st.slot.encoder, st.slot.progress, st.slot.packet, st.slot.accepted);
      DropKeepsWire(aes, st);
    case Drop =>
      ProgressIsPrefix(aes, st.slot.encoder, st.slot.progress, st.slot.packet, st.slot.accepted);
      DropKeepsWire(aes, st);
    case Finish => FinishKeepsWire(aes, st);
    case Acquire(task) => AcquireKeepsWire(aes, st, task);
    case EnableEncryption(key) => KeyKeepsWire(aes, st, key);
    case _ => OtherStepKeepsWire(aes, st, step);
  }

  lemma FinishKeepsWire(aes: Aes, st: State)
    requires WireInv(aes, st) && Enabled(st, Finish)
    ensures WireInv(aes, Next(aes, st, Finish))
  {
    hide Encrypt, Advance, Concat, InStep;
    FinishExtendsHistory(aes, st.history, st.slot.progress, st.slot.packet);
  }

  lemma OtherStepKeepsWire(aes: Aes, st: State, step: Step)
    requires WireInv(aes, st) && Enabled(st, step)
    requires step.SendNow? || step.Enqueue? || step.Drain? || step.GiveUp? || step.Cancel?
             || step.Pop? || step.Release? || step.Upgrade?
    ensures WireInv(aes, Next(aes, st, step))
  {
    hide Encrypt, Advance, Concat, InStep, HistoryWire, HistoryEncoder, Coded;
  }

  lemma AcquireKeepsWire(aes: Aes, st: State, task: Task)
    requires WireInv(aes, st) && Enabled(st, Acquire(task))
    ensures WireInv(aes, Next(aes, st, Acquire(task)))
  {
    hide Concat;
    if st.slot.Full? {
      assert st.waiting[task][..0] == [];
    }
  }

  lemma KeyKeepsWire(aes: Aes, st: State, key: Register)
    requires WireInv(aes, st) && Enabled(st, EnableEncryption(key))
    ensures WireInv(aes, Next(aes, st, EnableEncryption(key)))
  {
    assert Concat([]) == [];
  }

  lemma {:induction false} RunKeepsWire(aes: Aes, st: State, steps: seq<Step>)
    requires WireInv(aes, st) && ValidRun(aes, st, steps)
    ensures WireInv(aes, Run(aes, st, steps))
    decreases |steps|
  {
    hide WireInv, Next;
    if steps != [] {
      StepKeepsWire(aes, st, steps[0]);
      RunKeepsWire(aes, Next(aes, st, steps[0]), steps[1..]);
    }
  }

  /** What the peer can have received, given the history and the packet in flight. */
  ghost predicate WholePacketsThenOneCut(aes: Aes, st: State)
  {
    var done := HistoryWire(aes, st.history);
    && |done| <= st.sent <= |st.Handed()|
    && done <= st.Socket()
    && (st.Unfinished().None? ==> st.Socket() == done && st.lockOrder == Packets(st.history))
    && (st.Unfinished().Some? ==>
          && st.lockOrder == Packets(st.history) + [st.Unfinished().value]
          && st.Socket()[|done|..] <= Coded(aes, HistoryEncoder(aes, st.history), st.Unfinished().value))
  }

  /** A saved byte is the encryption of the next byte of the packet in flight. */
  ghost predicate SavedByteIsOfThisPacket(aes: Aes, st: State)
  {
    st.slot.Taken? && st.slot.encoder.Keyed? && st.slot.progress.saved.Some? ==>
      && st.slot.accepted < |st.slot.packet|
      && st.slot.progress.delivered + [st.slot.progress.saved.value]
      == Encrypt(aes(st.slot.encoder.key), st.slot.encoder.register, st.slot.packet[..st.slot.accepted + 1])
  }

  /** Receiving less of a wire that is right leaves it right. */
  lemma CutWire(done: seq<byte>, wire: seq<byte>, sent: nat, tail: seq<byte>)
    requires done <= wire && wire[|done|..] <= tail && |done| <= sent <= |wire|
    ensures done <= wire[..sent] && wire[..sent][|done|..] <= tail
    ensures tail == [] ==> wire[..sent] == done
  {
    assert wire[..sent][|done|..] == wire[|done|..][..sent - |done|];
  }

  /** The unfinished packet as it would go on the wire. */
  ghost function InFlight(aes: Aes, st: State): (r: seq<byte>)
  {
    if st.Unfinished().None? then []
    else Coded(aes, HistoryEncoder(aes, st.history), st.Unfinished().value)
  }

  /** What follows the finished packets on the wire belongs to the unfinished one. */
  lemma HandedShape(aes: Aes, st: State)
    requires WireInv(aes, st)
    ensures var done := HistoryWire(aes, st.history);
            done <= st.Handed() && st.Handed()[|done|..] <= InFlight(aes, st)
  {
    hide Coded, HistoryWire, HistoryEncoder, Progressing;
    if st.slot.Taken? {
      ProgressIsPrefix(aes, st.slot.encoder, st.slot.progress, st.slot.packet, st.slot.accepted);
      assert st.Handed()[|st.wire|..] == st.slot.progress.delivered;
    }
  }

  lemma WireInvMeans(aes: Aes, st: State)
    requires WireInv(aes, st)
    ensures WholePacketsThenOneCut(aes, st)
  {
    HandedShape(aes, st);
    hide Coded, HistoryWire, HistoryEncoder, Progressing, Packets;
    var done := HistoryWire(aes, st.history);
    var tail := InFlight(aes, st);
    CutWire(done, st.Handed(), st.sent, tail);
    assert Packets(st.history) + [] == Packets(st.history);
  }

  /**
    In every interleaving, the socket holds the finished packets whole and in lock order, then at
    most a prefix of one further packet, the last one the lock was granted for. A saved cipher
    byte belongs to the packet in flight.
   */
  lemma SocketHoldsWholePacketsThenOneCut(aes: Aes, steps: seq<Step>)
    requires ValidRun(aes, INITIAL, steps)
    ensures WholePacketsThenOneCut(aes, Run(aes, INITIAL, steps))
    ensures SavedByteIsOfThisPacket(aes, Run(aes, INITIAL, steps))
  {
    InitialWire(aes);
    hide WholePacketsThenOneCut, Next, Run, Encrypt, Advance, Concat;
    RunKeepsWire(aes, INITIAL, steps);
    WireInvMeans(aes, Run(aes, INITIAL, steps));
  }

  lemma InitialWire(aes: Aes)
    ensures WireInv(aes, INITIAL)
  {
    assert Concat([]) == [];
  }

  /** Nothing is encrypted before a key is set, and the lock order is the finished packets and the last one. */
  lemma ReachableHistory(aes: Aes, steps: seq<Step>)
    requires ValidRun(aes, INITIAL, steps)
    ensures var st := Run(aes, INITIAL, steps);
            && (st.history.key.None? ==> st.history.sealed == [])
            && st.lockOrder == Packets(st.history) + Listed(st.Unfinished())
  {
    InitialWire(aes);
    hide Next, Run;
    RunKeepsWire(aes, INITIAL, steps);
  }

  /** Once the encoder is gone, nothing reaches the socket again. */
  lemma {:induction false} EmptySlotIsFinal(aes: Aes, st: State, steps: seq<Step>)
    requires st.slot.Empty? && ValidRun(aes, st, steps)
    ensures var st' := Run(aes, st, steps);
            st'.slot.Empty? && st'.wire == st.wire && st'.sent == st.sent && st'.lockOrder == st.lockOrder
    decreases |steps|
  {
    if steps != [] {
      hide LastDisconnect, PollWriter, WriteEnded, DropEncoder;
      EmptySlotIsFinal(aes, Next(aes, st, steps[0]), steps[1..]);
    }
  }

  // ----- The outgoing queue -----

  /** The packets of queued items, in order. */
  ghost function PacketsIn(queue: seq<Outbound>): (r: seq<seq<byte>>)
  {
    seq(|queue|, i requires 0 <= i < |queue| => queue[i].packet)
  }

  lemma PacketsInAppend(items: seq<Outbound>, item: Outbound)
    ensures PacketsIn(items + [item]) == PacketsIn(items) + [item.packet]
  {
  }

  /** The packets of the grants that went to the outgoing task, in order. */
  ghost function OutgoingShare(tasks: seq<Task>, packets: seq<seq<byte>>): (r: seq<seq<byte>>)
    requires |tasks| == |packets|
  {
    if tasks == [] then []
    else
      var n := |tasks| - 1;
      OutgoingShare(tasks[..n], packets[..n]) + if tasks[n] == Outgoing then [packets[n]] else []
  }

  ghost function Butlast(s: seq<seq<byte>>): (r: seq<seq<byte>>)
    requires s != []
  {
    s[..|s| - 1]
  }

  ghost predicate OutgoingInv(st: State)
  {
    var busy := st.slot.Taken? && st.slot.task == Outgoing;
    var pending := Outgoing in st.waiting;
    var popped := PacketsIn(st.popped);
    && !(busy && pending)
    && ((st.pc.Writing? || st.pc.Parting?) <==> busy || pending)
    && |st.lockTasks| == |st.lockOrder|
    && OutgoingShare(st.lockTasks, st.lockOrder) == st.outgoingTook + st.parting
    && |st.parting| <= 1
    && (st.parting != [] ==> (st.pc.Parting? && busy) || st.pc.Releasing? || st.pc.Ended?)
    && (st.outgoingTook == popped || (popped != [] && st.outgoingTook == Butlast(popped)))
    && (st.pc.Writing? && pending ==>
          && popped != [] && st.outgoingTook == Butlast(popped)
          && st.waiting[Outgoing] == popped[|popped| - 1])
    && (st.pc.Writing? && busy ==> st.outgoingTook == popped)
    && (st.pc == Looping && !st.cancelled ==> st.outgoingTook == popped)
    && (st.pc == Ended ==> st.slot.Empty?)
  }

  lemma GrantKeepsShare(st: State, task: Task)
    requires OutgoingInv(st) && Enabled(st, Acquire(task)) && st.slot.Full?
    ensures OutgoingShare(st.lockTasks + [task], st.lockOrder + [st.waiting[task]])
         == st.outgoingTook + st.parting + if task == Outgoing then [st.waiting[task]] else []
  {
    var tasks, packets := st.lockTasks + [task], st.lockOrder + [st.waiting[task]];
    assert tasks[..|tasks| - 1] == st.lockTasks && packets[..|packets| - 1] == st.lockOrder;
  }

  lemma AcquireKeepsOutgoing(aes: Aes, st: State, task: Task)
    requires OutgoingInv(st) && Enabled(st, Acquire(task))
    ensures OutgoingInv(Next(aes, st, Acquire(task)))
  {
    hide OutgoingShare, PacketsIn;
    if st.slot.Full? {
      GrantKeepsShare(st, task);
      if task == Outgoing && st.pc.Writing? {
        assert st.outgoingTook + [st.waiting[task]] == PacketsIn(st.popped);
        assert st.parting == [];
      }
    }
  }

  /** A write of the outgoing task that ends, well or badly, leaves its record in order. */
  lemma EndKeepsOutgoing(st: State, slot: Slot, wire: seq<byte>, h: History, cut: Option<seq<byte>>, ok: bool)
    requires OutgoingInv(st) && st.slot.Taken? && !slot.Taken?
    ensures OutgoingInv(WriteEnded(st.(slot := slot, wire := wire, history := h, cut := cut), st.slot.task, ok))
  {
    hide OutgoingShare, PacketsIn;
  }

  lemma DropKeepsOutgoing(st: State)
    requires OutgoingInv(st) && Enabled(st, Drop)
    ensures OutgoingInv(DropEncoder(st))
  {
    hide OutgoingShare, PacketsIn;
  }

  /** So does one that goes on, whatever it has handed over so far. */
  lemma ResumeKeepsOutgoing(st: State, slot: Slot)
    requires OutgoingInv(st) && st.slot.Taken? && slot.Taken? && slot.task == st.slot.task
    ensures OutgoingInv(st.(slot := slot))
  {
    hide OutgoingShare, PacketsIn;
  }

  lemma PollKeepsOutgoing(aes: Aes, st: State, answers: seq<Answer>)
    requires OutgoingInv(st) && Enabled(st, Poll(answers))
    ensures OutgoingInv(Next(aes, st, Poll(answers)))
  {
    hide OutgoingInv, PollWriter, WriteEnded;
    var t := st.slot;
    var (s, result) := PollWriter(aes, t.encoder, t.progress, t.packet[t.accepted..], answers);
    match result
    case PollError => EndKeepsOutgoing(st, Empty, st.wire + s.delivered, st.history, Some(t.packet), false);
    case PollPending => ResumeKeepsOutgoing(st, t.(progress := s));
    case PollReady(n) => ResumeKeepsOutgoing(st, t.(progress := s, accepted := t.accepted + n));
  }

  lemma CloseKeepsOutgoing(aes: Aes, st: State)
    requires OutgoingInv(st) && Enabled(st, Close)
    ensures OutgoingInv(Next(aes, st, Close))
  {
    hide OutgoingShare, PacketsIn, LastDisconnect;
  }

  lemma StepKeepsOutgoing(aes: Aes, st: State, step: Step)
    requires OutgoingInv(st) && Enabled(st, step)
    ensures OutgoingInv(Next(aes, st, step))
  {
    hide OutgoingShare, PacketsIn, LastDisconnect, PollWriter, CloseOutgoing, WriteEnded;
    match step
    case Acquire(task) => AcquireKeepsOutgoing(aes, st, task);
    case Poll(answers) => PollKeepsOutgoing(aes, st, answers);
    case Finish =>
      var st' := Next(aes, st, Finish);
      EndKeepsOutgoing(st, Full(After(st.slot.encoder, st.slot.progress)), st.Handed(),
        if st.slot.encoder.Plain? then st.history.(clear := st.history.clear + [st.slot.packet])
        else st.history.(sealed := st.history.sealed + [st.slot.packet]), st.cut, true);
    case Fail => EndKeepsOutgoing(st, Empty, st.Handed(), st.history, Some(st.slot.packet), false);
    case Drop => DropKeepsOutgoing(st);
    case Close => CloseKeepsOutgoing(aes, st);
    case Pop =>
      PacketsInAppend(st.popped, st.queue[0]);
      assert Butlast(PacketsIn(Next(aes, st, step).popped)) == PacketsIn(st.popped);
    case _ =>
  }

  lemma {:induction false} RunKeepsOutgoing(aes: Aes, st: State, steps: seq<Step>)
    requires OutgoingInv(st) && ValidRun(aes, st, steps)
    ensures OutgoingInv(Run(aes, st, steps))
    decreases |steps|
  {
    hide OutgoingInv, Next;
    if steps != [] {
      StepKeepsOutgoing(aes, st, steps[0]);
      RunKeepsOutgoing(aes, Next(aes, st, steps[0]), steps[1..]);
    }
  }

  /** The items that a run puts into the queue, in order. */
  ghost function Enqueued(steps: seq<Step>): (r: seq<Outbound>)
  {
    if steps == [] then [] else Enqueues(steps[0]) + Enqueued(steps[1..])
  }

  ghost function Enqueues(step: Step): (r: seq<Outbound>)
  {
    if step.Enqueue? then [step.item] else []
  }

  /** Of the items enqueued, a prefix has been popped; the queue holds the others until the close drains it. */
  ghost predicate QueueInv(st: State, enqueued: seq<Outbound>)
  {
    && st.popped <= enqueued
    && (st.pc.Looping? || st.pc.Writing? ==> st.popped + st.queue == enqueued)
    && (st.drained.Some? ==> st.popped + st.drained.value <= enqueued)
    && (st.pc.Looping? || st.pc.Writing? || st.pc.Upgraded? ==> st.drained.None?)
  }

  /** Where the task may go without touching the queue. */
  ghost predicate SameQueue(st: State, st': State)
  {
    && st'.popped == st.popped && st'.queue == st.queue && st'.drained == st.drained
    && (st'.pc.Looping? || st'.pc.Writing? ==> st.pc.Looping? || st.pc.Writing?)
    && (st'.pc.Upgraded? ==> st.pc.Looping? || st.pc.Upgraded?)
  }

  lemma WriteEndedSameQueue(st: State, task: Task, ok: bool)
    ensures SameQueue(st, WriteEnded(st, task, ok))
  {
  }

  lemma OtherStepSameQueue(aes: Aes, st: State, step: Step)
    requires Enabled(st, step) && !step.Enqueue? && !step.Pop? && !step.Close?
    ensures SameQueue(st, Next(aes, st, step))
  {
    hide PollWriter, WriteEnded;
    match step
    case Acquire(task) => WriteEndedSameQueue(st.(waiting := st.waiting - {task}), task, false);
    case Poll(answers) =>
      var t := st.slot;
      var (s, _) := PollWriter(aes, t.encoder, t.progress, t.packet[t.accepted..], answers);
      WriteEndedSameQueue(DropEncoder(st.(slot := t.(progress := s))), t.task, false);
    case Finish =>
      var t := st.slot;
      var h := if t.encoder.Plain? then st.history.(clear := st.history.clear + [t.packet])
               else st.history.(sealed := st.history.sealed + [t.packet]);
      WriteEndedSameQueue(
        st.(slot := Full(After(t.encoder, t.progress)), wire := st.Handed(), history := h), t.task, true);
    case Fail => WriteEndedSameQueue(DropEncoder(st), st.slot.task, false);
    case _ =>
  }

  lemma OtherStepKeepsQueue(aes: Aes, st: State, step: Step, enqueued: seq<Outbound>)
    requires QueueInv(st, enqueued) && Enabled(st, step) && !step.Enqueue? && !step.Pop?
    ensures QueueInv(Next(aes, st, step), enqueued)
  {
    if step.Close? {
      hide LastDisconnect;
    } else {
      OtherStepSameQueue(aes, st, step);
      hide Next;
    }
  }

  lemma StepKeepsQueue(aes: Aes, st: State, step: Step, enqueued: seq<Outbound>)
    requires QueueInv(st, enqueued) && Enabled(st, step)
    ensures QueueInv(Next(aes, st, step), enqueued + Enqueues(step))
  {
    if step.Enqueue? {
      assert st.popped + (st.queue + [step.item]) == st.popped + st.queue + [step.item];
    } else {
      assert enqueued + [] == enqueued;
      if step.Pop? {
        assert st.popped + [st.queue[0]] + st.queue[1..] == st.popped + st.queue;
      } else {
        hide Next, QueueInv;
        OtherStepKeepsQueue(aes, st, step, enqueued);
      }
    }
  }

  lemma {:induction false} RunKeepsQueue(aes: Aes, st: State, steps: seq<Step>, enqueued: seq<Outbound>)
    requires QueueInv(st, enqueued) && ValidRun(aes, st, steps)
    ensures QueueInv(Run(aes, st, steps), enqueued + Enqueued(steps))
    decreases |steps|
  {
    hide QueueInv, Next, Enqueues;
    if steps == [] {
      assert enqueued + [] == enqueued;
    } else {
      StepKeepsQueue(aes, st, steps[0], enqueued);
      RunKeepsQueue(aes, Next(aes, st, steps[0]), steps[1..], enqueued + Enqueues(steps[0]));
      assert enqueued + Enqueues(steps[0]) + Enqueued(steps[1..]) == enqueued + Enqueued(steps);
    }
  }

  /**
    The outgoing task gets the lock for the packets in the order in which they were enqueued,
    without gaps, missing at most the packet it popped last, and then for at most one parting
    disconnect. When the task has ended, the slot is empty.
   */
  lemma QueuedPacketsKeepTheirOrder(aes: Aes, steps: seq<Step>)
    requires ValidRun(aes, INITIAL, steps)
    ensures var st := Run(aes, INITIAL, steps);
            && |st.lockTasks| == |st.lockOrder|
            && OutgoingShare(st.lockTasks, st.lockOrder) == st.outgoingTook + st.parting
            && st.popped <= Enqueued(steps)
            && st.outgoingTook <= PacketsIn(st.popped) && |st.outgoingTook| + 1 >= |st.popped|
            && |st.parting| <= 1
            && (st.pc == Ended ==> st.slot.Empty?)
  {
    assert PacketsIn([]) == [];
    assert OutgoingInv(INITIAL);
    RunKeepsOutgoing(aes, INITIAL, steps);
    assert QueueInv(INITIAL, []);
    RunKeepsQueue(aes, INITIAL, steps, []);
    assert [] + Enqueued(steps) == Enqueued(steps);
  }

  // ----- How the outgoing task ends -----

  /** The disconnect queued last: none stands behind it. */
  lemma {:induction false} LastDisconnectIsTheLast(queue: seq<Outbound>, packet: seq<byte>)
    ensures LastDisconnect(queue) == Some(packet) <==>
            exists i :: 0 <= i < |queue| && queue[i] == Disconnect(packet)
                        && forall j | i < j < |queue| :: !queue[j].Disconnect?
    decreases |queue|
  {
    if queue != [] {
      var n := |queue| - 1;
      var front := queue[..n];
      LastDisconnectIsTheLast(front, packet);
      if queue[n].Disconnect? {
        assert LastDisconnect(queue) == Some(queue[n].packet);
        assert queue[n] == Disconnect(queue[n].packet);
      } else {
        assert forall i | 0 <= i < n :: front[i] == queue[i];
        if LastDisconnect(front) == Some(packet) {
          var i :| 0 <= i < |front| && front[i] == Disconnect(packet)
                   && forall j | i < j < |front| :: !front[j].Disconnect?;
          assert queue[i] == Disconnect(packet) && forall j | i < j < |queue| :: !queue[j].Disconnect?;
        }
        if i :| 0 <= i < |queue| && queue[i] == Disconnect(packet)
                && forall j | i < j < |queue| :: !queue[j].Disconnect? {
          assert front[i] == Disconnect(packet) && forall j | i < j < |front| :: !front[j].Disconnect?;
        }
      }
    }
  }

  /** Only the item popped last can be a disconnect. */
  ghost predicate OneDisconnect(popped: seq<Outbound>)
  {
    forall i | 0 <= i < |popped| - 1 :: !popped[i].Disconnect?
  }

  ghost predicate PoppedDisconnect(st: State)
  {
    st.popped != [] && st.popped[|st.popped| - 1].Disconnect?
  }

  /** The disconnect found in the queue when the close was seen. */
  ghost function Drained(st: State): (r: Option<seq<byte>>)
  {
    if st.drained.Some? then LastDisconnect(st.drained.value) else None
  }

  /**
    What a disconnect means to the task. One that it popped is the last thing it writes: it goes on
    to write it, or it is closing with the connection cancelled. When it sees the close first, it
    drains the queue and writes the disconnect queued last, if any and if there is still an encoder.
    A write that fails cancels the connection. The encoder is lost only with a packet in flight, or
    released by a task that ends with the connection cancelled.
   */
  ghost predicate EndingInv(st: State)
  {
    && OneDisconnect(st.popped)
    && (st.pc.Writing? ==> st.popped != [] && st.pc.last == PoppedDisconnect(st))
    && (PoppedDisconnect(st) ==>
          && st.parting == [] && st.drained.None?
          && (st.pc == Writing(true) || ((st.pc == Releasing || st.pc == Ended) && st.cancelled)))
    && (st.drained.Some? ==> st.cancelled && (st.pc == Parting || st.pc == Releasing || st.pc == Ended))
    && (st.pc == Parting ==> Drained(st).Some?)
    && (st.pc == Parting && Outgoing in st.waiting ==> Drained(st) == Some(st.waiting[Outgoing]) && st.parting == [])
    && (st.pc == Parting && Outgoing !in st.waiting ==> st.parting == Listed(Drained(st)))
    && (st.parting != [] ==> st.parting == Listed(Drained(st)))
    && (Drained(st).Some? && (st.pc == Releasing || st.pc == Ended) ==>
          st.parting == Listed(Drained(st)) || st.slot.Empty?)
    && (st.failed ==> st.cancelled)
    && (st.pc == Releasing || st.pc == Ended ==> st.cancelled)
    && (st.slot.Empty? ==> st.cut.Some? || st.pc == Ended)
  }

  /** The fields that the task's ending depends on, besides the slot. */
  ghost predicate SameTask(st: State, st': State)
  {
    && st'.popped == st.popped && st'.pc == st.pc && st'.parting == st.parting && st'.drained == st.drained
    && (st.cancelled ==> st'.cancelled) && (st'.failed ==> st.failed)
    && (Outgoing in st'.waiting <==> Outgoing in st.waiting)
    && (Outgoing in st.waiting ==> st'.waiting[Outgoing] == st.waiting[Outgoing])
    && (st.slot.Empty? ==> st'.slot.Empty?)
    && (st'.slot.Empty? ==> st'.cut.Some? || (st.slot.Empty? && st'.cut == st.cut))
  }

  lemma SameTaskKeepsEnding(st: State, st': State)
    requires EndingInv(st) && SameTask(st, st')
    ensures EndingInv(st')
  {
    hide LastDisconnect;
  }

  lemma WriteEndedKeepsEnding(st: State, task: Task, ok: bool)
    requires EndingInv(st)
    requires task == Outgoing ==> Outgoing !in st.waiting || (st.slot.Empty? && !ok)
    ensures EndingInv(WriteEnded(st, task, ok))
  {
    hide LastDisconnect;
  }

  lemma AcquireKeepsEnding(aes: Aes, st: State, task: Task)
    requires EndingInv(st) && Enabled(st, Acquire(task)) && OutgoingInv(st)
    ensures EndingInv(Next(aes, st, Acquire(task)))
  {
    hide LastDisconnect, OutgoingShare, PacketsIn;
    if st.slot.Empty? {
      if task == Outgoing {
        WriteEndedKeepsEnding(st, task, false);
      }
    }
  }

  lemma PollKeepsEnding(aes: Aes, st: State, answers: seq<Answer>)
    requires EndingInv(st) && Enabled(st, Poll(answers)) && OutgoingInv(st)
    ensures EndingInv(Next(aes, st, Poll(answers)))
  {
    hide LastDisconnect, OutgoingShare, PacketsIn, PollWriter;
    var t := st.slot;
    var (s, result) := PollWriter(aes, t.encoder, t.progress, t.packet[t.accepted..], answers);
    if result.PollError? {
      var st1 := DropEncoder(st.(slot := t.(progress := s)));
      SameTaskKeepsEnding(st, st1);
      WriteEndedKeepsEnding(st1, t.task, false);
    } else {
      SameTaskKeepsEnding(st, Next(aes, st, Poll(answers)));
    }
  }

  lemma StepKeepsEnding(aes: Aes, st: State, step: Step)
    requires EndingInv(st) && Enabled(st, step) && OutgoingInv(st)
    ensures EndingInv(Next(aes, st, step))
  {
    hide LastDisconnect, OutgoingShare, PacketsIn, PollWriter;
    match step
    case Acquire(task) => AcquireKeepsEnding(aes, st, task);
    case Poll(answers) => PollKeepsEnding(aes, st, answers);
    case Fail =>
      SameTaskKeepsEnding(st, DropEncoder(st));
      WriteEndedKeepsEnding(DropEncoder(st), st.slot.task, false);
    case Drop => SameTaskKeepsEnding(st, DropEncoder(st));
    case Finish => FinishKeepsEnding(aes, st);
    case _ =>
  }

  lemma FinishKeepsEnding(aes: Aes, st: State)
    requires EndingInv(st) && Enabled(st, Finish) && OutgoingInv(st)
    ensures EndingInv(Next(aes, st, Finish))
  {
    hide LastDisconnect, OutgoingShare, PacketsIn;
    var t := st.slot;
    var h := if t.encoder.Plain? then st.history.(clear := st.history.clear + [t.packet])
             else st.history.(sealed := st.history.sealed + [t.packet]);
    var st1 := st.(slot := Full(After(t.encoder, t.progress)), wire := st.Handed(), history := h);
    SameTaskKeepsEnding(st, st1);
    WriteEndedKeepsEnding(st1, t.task, true);
  }

  lemma {:induction false} RunKeepsEnding(aes: Aes, st: State, steps: seq<Step>)
    requires EndingInv(st) && OutgoingInv(st) && ValidRun(aes, st, steps)
    ensures EndingInv(Run(aes, st, steps))
    decreases |steps|
  {
    hide EndingInv, OutgoingInv, Next;
    if steps != [] {
      StepKeepsEnding(aes, st, steps[0]);
      StepKeepsOutgoing(aes, st, steps[0]);
      RunKeepsEnding(aes, Next(aes, st, steps[0]), steps[1..]);
    }
  }

  /** In every run, a disconnect ends the outgoing task's writing, and a failed write cancels the connection. */
  lemma DisconnectIsTheLastThingWritten(aes: Aes, steps: seq<Step>)
    requires ValidRun(aes, INITIAL, steps)
    ensures EndingInv(Run(aes, INITIAL, steps))
  {
    assert PacketsIn([]) == [];
    RunKeepsEnding(aes, INITIAL, steps);
  }

  /** Once the connection is cancelled, nothing more is taken from the queue to be written. */
  lemma {:induction false} CancelledTakesNothing(aes: Aes, st: State, steps: seq<Step>)
    requires ValidRun(aes, st, steps) && st.cancelled
    ensures Run(aes, st, steps).popped == st.popped && Run(aes, st, steps).cancelled
    decreases |steps|
  {
    if steps != [] {
      hide LastDisconnect, PollWriter, WriteEnded, DropEncoder;
      CancelledTakesNothing(aes, Next(aes, st, steps[0]), steps[1..]);
    }
  }

  /** So a cancel stops the queue, at whatever point of a run it comes. */
  lemma CancelStopsTheQueue(aes: Aes, st: State, later: seq<Step>)
    requires ValidRun(aes, Next(aes, st, Cancel), later)
    ensures Run(aes, Next(aes, st, Cancel), later).popped == st.popped
  {
    CancelledTakesNothing(aes, Next(aes, st, Cancel), later);
  }
}
