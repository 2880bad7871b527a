/**
  What the outgoing-packet task does when nothing goes wrong: every queued packet is written, and
  the writer is ready for the next one. A disconnect is written and then ends the task.
 */
module WriterProgress {
  import opened Bytes
  import opened CipherStream
  import opened NetworkWriter

  /** The task is idle, the lock is free with the encoder in its slot, and nobody waits for it. */
  ghost predicate Ready(aes: Aes, st: State)
  {
    WireInv(aes, st) && st.pc == Looping && !st.cancelled && st.slot.Full? && st.waiting == map[]
  }

  /** The task writes an item; `slot` is where the encoder is. */
  ghost predicate WritesItem(aes: Aes, st: State, item: Outbound, before: State)
    requires before.queue != []
  {
    && WireInv(aes, st) && st.pc == Writing(item.Disconnect?) && !st.cancelled
    && st.history == before.history && st.queue == before.queue[1..]
  }

  ghost predicate Holds(aes: Aes, st: State, item: Outbound, before: State, accepted: nat)
    requires before.queue != []
  {
    && WritesItem(aes, st, item, before) && st.waiting == map[]
    && st.slot.Taken? && st.slot.task == Outgoing && st.slot.packet == item.packet && st.slot.accepted == accepted
  }

  lemma {:induction false} RunAppend(aes: Aes, st: State, steps: seq<Step>, step: Step)
    requires ValidRun(aes, st, steps) && Enabled(NetworkWriter.Run(aes, st, steps), step)
    ensures ValidRun(aes, st, steps + [step])
    ensures NetworkWriter.Run(aes, st, steps + [step]) == Next(aes, NetworkWriter.Run(aes, st, steps), step)
    decreases |steps|
  {
    hide Next, Enabled;
    var all := steps + [step];
    if steps == [] {
      assert all[1..] == [];
    } else {
      assert all[0] == steps[0] && all[1..] == steps[1..] + [step];
      RunAppend(aes, Next(aes, st, steps[0]), steps[1..], step);
    }
  }

  lemma {:induction false} RunJoin(aes: Aes, st: State, a: seq<Step>, b: seq<Step>)
    requires ValidRun(aes, st, a) && ValidRun(aes, NetworkWriter.Run(aes, st, a), b)
    ensures ValidRun(aes, st, a + b)
    ensures NetworkWriter.Run(aes, st, a + b) == NetworkWriter.Run(aes, NetworkWriter.Run(aes, st, a), b)
    decreases |a|
  {
    hide Next, Enabled;
    if a == [] {
      assert a + b == b;
    } else {
      assert (a + b)[0] == a[0] && (a + b)[1..] == a[1..] + b;
      RunJoin(aes, Next(aes, st, a[0]), a[1..], b);
    }
  }

  lemma PopItem(aes: Aes, st: State)
    requires Ready(aes, st) && st.queue != []
    ensures Enabled(st, Pop)
    ensures var st' := Next(aes, st, Pop);
            && WritesItem(aes, st', st.queue[0], st)
            && st'.slot == st.slot && st'.waiting == map[Outgoing := st.queue[0].packet]
  {
    StepKeepsWire(aes, st, Pop);
    hide WireInv;
  }

  lemma GetTheLock(aes: Aes, st: State, item: Outbound, before: State)
    requires before.queue != [] && WritesItem(aes, st, item, before)
    requires st.slot.Full? && st.waiting == map[Outgoing := item.packet]
    ensures Enabled(st, Acquire(Outgoing)) && Holds(aes, Next(aes, st, Acquire(Outgoing)), item, before, 0)
  {
    StepKeepsWire(aes, st, Acquire(Outgoing));
    hide WireInv;
  }

  lemma WriteItem(aes: Aes, st: State, item: Outbound, before: State, answers: seq<Answer>)
    requires before.queue != [] && Holds(aes, st, item, before, 0) && item.packet != []
    requires |answers| == |item.packet| && forall i | 0 <= i < |answers| :: answers[i] == Took
    ensures Enabled(st, Poll(answers)) && Holds(aes, Next(aes, st, Poll(answers)), item, before, |item.packet|)
  {
    assert item.packet[0..] == item.packet;
    AllIsTaken(aes, st.slot.encoder, st.slot.progress, item.packet, answers);
    StepKeepsWire(aes, st, Poll(answers));
    hide WireInv, PollWriter;
  }

  lemma DrainItem(aes: Aes, st: State, item: Outbound, before: State)
    requires before.queue != [] && Holds(aes, st, item, before, |item.packet|)
    ensures st.sent <= |st.Handed()|
    ensures var step := Drain(|st.Handed()| - st.sent);
            && Enabled(st, step)
            && var st' := Next(aes, st, step);
               Holds(aes, st', item, before, |item.packet|) && st'.sent == |st'.Handed()|
  {
    assert st.sent <= |st.Handed()|;
    StepKeepsWire(aes, st, Drain(|st.Handed()| - st.sent));
    hide WireInv;
  }

  /** The state of the task behind an item: ready again, or closing behind a disconnect. */
  ghost predicate Wrote(aes: Aes, st: State, item: Outbound, before: State)
    requires before.queue != []
  {
    && WireInv(aes, st) && st.slot.Full? && st.waiting == map[] && st.queue == before.queue[1..]
    && Packets(st.history) == Packets(before.history) + [item.packet]
    && if item.Disconnect? then st.cancelled && st.pc == Releasing else Ready(aes, st)
  }

  lemma FinishItem(aes: Aes, st: State, item: Outbound, before: State)
    requires before.queue != [] && Holds(aes, st, item, before, |item.packet|) && st.sent == |st.Handed()|
    ensures Enabled(st, Finish) && Wrote(aes, Next(aes, st, Finish), item, before)
  {
    StepKeepsWire(aes, st, Finish);
    var h := st.history;
    assert h.key.None? ==> h.sealed == [] && st.slot.encoder == Plain;
    assert h.key.Some? ==> st.slot.encoder.Keyed?;
    hide WireInv;
    assert h.clear + [item.packet] + [] == h.clear + [] + [item.packet];
    assert h.clear + (h.sealed + [item.packet]) == h.clear + h.sealed + [item.packet];
  }

  /** One item: popped, written whole and flushed. */
  lemma ItemIsWritten(aes: Aes, st: State) returns (steps: seq<Step>, st': State)
    requires Ready(aes, st) && st.queue != [] && st.queue[0].packet != []
    ensures ValidRun(aes, st, steps) && NetworkWriter.Run(aes, st, steps) == st' && Wrote(aes, st', st.queue[0], st)
  {
    assert st.slot.Full?;
    hide Next, Enabled, Ready, WritesItem, Holds, Wrote;
    var item := st.queue[0];
    steps, st' := [], st;
    assert ValidRun(aes, st, []) && NetworkWriter.Run(aes, st, []) == st;
    hide NetworkWriter.Run, ValidRun;
    PopItem(aes, st);
    steps, st' := Go(aes, st, steps, st', Pop);
    GetTheLock(aes, st', item, st);
    steps, st' := Go(aes, st, steps, st', Acquire(Outgoing));
    var answers := seq(|item.packet|, _ => Took);
    WriteItem(aes, st', item, st, answers);
    steps, st' := Go(aes, st, steps, st', Poll(answers));
    DrainItem(aes, st', item, st);
    steps, st' := Go(aes, st, steps, st', Drain(|st'.Handed()| - st'.sent));
    FinishItem(aes, st', item, st);
    steps, st' := Go(aes, st, steps, st', Finish);
  }

  lemma Go(aes: Aes, from: State, steps: seq<Step>, st: State, step: Step) returns (steps': seq<Step>, st': State)
    requires ValidRun(aes, from, steps) && NetworkWriter.Run(aes, from, steps) == st && Enabled(st, step)
    ensures ValidRun(aes, from, steps') && NetworkWriter.Run(aes, from, steps') == st' && st' == Next(aes, st, step)
  {
    hide Next, Enabled, NetworkWriter.Run, ValidRun;
    RunAppend(aes, from, steps, step);
    steps', st' := steps + [step], Next(aes, st, step);
  }

  /**
    From any state in which the task is ready, a run that nothing interrupts writes the whole queue
    in order and leaves the writer ready again.
   */
  lemma {:induction false} WholeQueueIsWritten(aes: Aes, st: State) returns (steps: seq<Step>)
    requires Ready(aes, st)
    requires forall i | 0 <= i < |st.queue| :: st.queue[i].Queued? && st.queue[i].packet != []
    ensures ValidRun(aes, st, steps)
    ensures var st' := NetworkWriter.Run(aes, st, steps);
            && Ready(aes, st') && st'.queue == []
            && Packets(st'.history) == Packets(st.history) + PacketsIn(st.queue)
    decreases |st.queue|
  {
    if st.queue == [] {
      steps := [];
      assert Packets(st.history) + PacketsIn(st.queue) == Packets(st.history);
    } else {
      var first, mid := ItemIsWritten(aes, st);
      assert Packets(mid.history) == Packets(st.history) + [st.queue[0].packet];
      assert mid.queue == st.queue[1..] && Ready(aes, mid);
      hide *;
      var rest := WholeQueueIsWritten(aes, mid);
      RunJoin(aes, st, first, rest);
      steps := first + rest;
      PacketsInCons(st.queue);
      Join(Packets(st.history), [st.queue[0].packet], PacketsIn(mid.queue));
    }
  }

  lemma PacketsInCons(queue: seq<Outbound>)
    requires queue != []
    ensures PacketsIn(queue) == [queue[0].packet] + PacketsIn(queue[1..])
  {
  }

  lemma Join<T>(x: seq<T>, y: seq<T>, z: seq<T>)
    ensures (x + y) + z == x + (y + z)
  {
  }
}
