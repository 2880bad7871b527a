/**
  From the senders' lock to the peer's packets: framing, encryption and the writer protocol
  together.
 */
module EndToEnd {
  import opened Bytes
  import opened CipherStream
  import Framing
  import NetworkWriter
  import CompressionSwitch

  /**
    What the peer has read, in chunks of any sizes: the socket's bytes as they are, up to the point
    where encryption was switched on, and what it has read since, decrypted with the key.
   */
  ghost predicate PeerHasRead(aes: NetworkWriter.Aes, st: NetworkWriter.State, chunks: seq<seq<byte>>, view: seq<byte>)
    requires st.sent <= |st.Handed()|
  {
    var clear := |Concat(st.history.clear)|;
    match st.history.key
    case None => view == Concat(chunks) && view <= st.Socket()
    case Some(key) =>
      || (view == Concat(chunks) && view <= st.Socket() && |view| <= clear)
      || (&& clear <= |st.Socket()|
          && Concat(chunks) <= st.Socket()[clear..]
          && view == st.Socket()[..clear] + ReadChunks(aes(key), key, chunks))
  }

  /** The encrypted part of the socket is one CFB-8 stream over the finished packets and the one in flight. */
  lemma SealedPartIsOneStream(
    aes: NetworkWriter.Aes, h: NetworkWriter.History, last: Option<seq<byte>>, socket: seq<byte>)
    requires h.key.Some?
    requires NetworkWriter.HistoryWire(aes, h) <= socket
    requires socket[|NetworkWriter.HistoryWire(aes, h)|..]
          <= (if last.Some? then NetworkWriter.Coded(aes, NetworkWriter.HistoryEncoder(aes, h), last.value) else [])
    ensures Concat(h.clear) <= socket
    ensures socket[|Concat(h.clear)|..]
         <= Encrypt(aes(h.key.value), h.key.value, Concat(h.sealed + NetworkWriter.Listed(last)))
  {
    hide Encrypt, Concat, Advance;
    var key := h.key.value;
    var done := NetworkWriter.HistoryWire(aes, h);
    var enc := Encrypt(aes(key), key, Concat(h.sealed));
    var tail := socket[|done|..];
    assert socket == done + tail;
    assert socket[|Concat(h.clear)|..] == enc + tail;
    if last.Some? {
      ConcatAppend(h.sealed, last.value);
      EncryptSplit(aes(key), key, Concat(h.sealed), last.value);
    } else {
      assert h.sealed + [] == h.sealed;
    }
  }

  /** In every run, the peer's plaintext is a prefix of the packets in lock order, one after the other. */
  lemma PeerReadsPrefixOfLockOrder(
    aes: NetworkWriter.Aes, steps: seq<NetworkWriter.Step>, chunks: seq<seq<byte>>, view: seq<byte>)
    requires NetworkWriter.ValidRun(aes, NetworkWriter.INITIAL, steps)
    requires var st := NetworkWriter.Run(aes, NetworkWriter.INITIAL, steps);
             st.sent <= |st.Handed()| && PeerHasRead(aes, st, chunks, view)
    ensures view <= Concat(NetworkWriter.Run(aes, NetworkWriter.INITIAL, steps).lockOrder)
  {
    hide NetworkWriter.Next, NetworkWriter.Run, NetworkWriter.WholePacketsThenOneCut, PeerHasRead;
    var st := NetworkWriter.Run(aes, NetworkWriter.INITIAL, steps);
    NetworkWriter.SocketHoldsWholePacketsThenOneCut(aes, steps);
    NetworkWriter.ReachableHistory(aes, steps);
    ViewIsPrefix(aes, st, chunks, view);
  }

  lemma ViewIsPrefix(aes: NetworkWriter.Aes, st: NetworkWriter.State, chunks: seq<seq<byte>>, view: seq<byte>)
    requires NetworkWriter.WholePacketsThenOneCut(aes, st) && PeerHasRead(aes, st, chunks, view)
    requires st.history.key.None? ==> st.history.sealed == []
    requires st.lockOrder == NetworkWriter.Packets(st.history) + NetworkWriter.Listed(st.Unfinished())
    ensures view <= Concat(st.lockOrder)
  {
    hide Encrypt, Advance, Concat, ReadChunks, NetworkWriter.HistoryWire, NetworkWriter.HistoryEncoder;
    var h := st.history;
    var last := NetworkWriter.Listed(st.Unfinished());
    assert st.lockOrder == h.clear + (h.sealed + last);
    ConcatSplit(h.clear, h.sealed + last);
    if h.key.None? {
      ClearPartIsPlain(aes, h, st.Unfinished(), st.Socket());
    } else {
      var key := h.key.value;
      SealedPartIsOneStream(aes, h, st.Unfinished(), st.Socket());
      if !(view <= st.Socket() && |view| <= |Concat(h.clear)|) {
        ChunkingIsInvisible(aes(key), key, chunks);
        DecryptOfPrefix(aes(key), key, Concat(h.sealed + last), Concat(chunks));
      }
    }
  }

  lemma ClearPartIsPlain(aes: NetworkWriter.Aes, h: NetworkWriter.History, last: Option<seq<byte>>, socket: seq<byte>)
    requires h.key.None? && h.sealed == []
    requires NetworkWriter.HistoryWire(aes, h) <= socket
    requires socket[|NetworkWriter.HistoryWire(aes, h)|..]
          <= (if last.Some? then NetworkWriter.Coded(aes, NetworkWriter.HistoryEncoder(aes, h), last.value) else [])
    ensures socket <= Concat(h.clear) + Concat(h.sealed + NetworkWriter.Listed(last))
  {
    assert h.sealed + NetworkWriter.Listed(last) == NetworkWriter.Listed(last);
    assert Concat([]) == [];
    assert last.Some? ==> Concat([last.value]) == last.value + Concat([]);
    hide Concat;
    var done := Concat(h.clear);
    assert NetworkWriter.HistoryWire(aes, h) == done;
    assert socket == done + socket[|done|..];
  }

  /**
    The whole path. If every packet that got the lock is a frame, encoded under the setting that the
    peer has when it gets there, then whatever the interleaving of senders, failures and
    cancellations, wherever compression and encryption are switched on, and however the peer's reads
    are chunked, the peer decodes a prefix of those packets, whole and in lock order, and nothing else.
   */
  lemma PeerDecodesPacketsInLockOrder(
    aes: NetworkWriter.Aes, z: Framing.Zlib, plain: nat, c: Option<Framing.Compression>, sent: seq<Framing.Sent>,
    steps: seq<NetworkWriter.Step>, chunks: seq<seq<byte>>, view: seq<byte>)
    requires z.Inverse() && Framing.AllSendable(z, sent) && Framing.InStepWith(sent, plain, c)
    requires NetworkWriter.ValidRun(aes, NetworkWriter.INITIAL, steps)
    requires var st := NetworkWriter.Run(aes, NetworkWriter.INITIAL, steps);
             && st.lockOrder == Framing.Frames(z, sent)
             && st.sent <= |st.Handed()| && PeerHasRead(aes, st, chunks, view)
    ensures Framing.DecodeAll(z, view, plain, Framing.Threshold(c))
         == (Framing.PacketsOf(sent)[..Framing.WholeFrames(Framing.Frames(z, sent), |view|)], [])
  {
    hide Framing.DecodeAll, Framing.WholeFrames, NetworkWriter.Run, NetworkWriter.Next, PeerHasRead, Concat;
    PeerReadsPrefixOfLockOrder(aes, steps, chunks, view);
    Framing.PrefixDecodesToWholePackets(z, sent, plain, c, |view|);
    assert view == Concat(Framing.Frames(z, sent))[..|view|];
  }

  /**
    In particular for any login that sends in turn and switches compression on: one machine of
    senders, announcement, store and writer, with no assumption on the packets beyond their encoding.
   */
  lemma PeerDecodesAcrossTheSwitch(
    aes: NetworkWriter.Aes, z: Framing.Zlib, c: Framing.Compression, steps: seq<CompressionSwitch.Step>,
    chunks: seq<seq<byte>>, view: seq<byte>)
    requires z.Inverse() && CompressionSwitch.ValidRun(aes, z, c, CompressionSwitch.INITIAL, steps)
    requires CompressionSwitch.InTurnRun(aes, z, c, CompressionSwitch.INITIAL, steps)
    requires var st := CompressionSwitch.Run(aes, z, c, CompressionSwitch.INITIAL, steps).writer;
             st.sent <= |st.Handed()| && PeerHasRead(aes, st, chunks, view)
    ensures var end := CompressionSwitch.Run(aes, z, c, CompressionSwitch.INITIAL, steps);
            var n := Framing.WholeFrames(end.writer.lockOrder, |view|);
            && n <= |end.order|
            && Framing.DecodeAll(z, view, CompressionSwitch.PlainCount(end), Some(c.threshold)) ==
               (Framing.PacketsOf(end.order)[..n], [])
  {
    hide NetworkWriter.Run, NetworkWriter.Next, NetworkWriter.ValidRun, PeerHasRead;
    hide CompressionSwitch.Run, CompressionSwitch.ValidRun, CompressionSwitch.InTurnRun;
    var end := CompressionSwitch.Run(aes, z, c, CompressionSwitch.INITIAL, steps);
    CompressionSwitch.SettingsAgreeExactlyWithoutStale(aes, z, c, steps);
    CompressionSwitch.SendingInTurnAgrees(aes, z, c, steps);
    CompressionSwitch.RunOfTheWriter(aes, z, c, CompressionSwitch.INITIAL, steps);
    PeerDecodesPacketsInLockOrder(
      aes, z, CompressionSwitch.PlainCount(end), Some(c), end.order,
      CompressionSwitch.WriterSteps(aes, z, c, CompressionSwitch.INITIAL, steps), chunks, view);
  }

  lemma {:induction false} WholeFramesCoverFinished(frames: seq<seq<byte>>, m: nat, n: nat)
    requires m <= |frames| && |Concat(frames[..m])| <= n
    ensures Framing.WholeFrames(frames, n) >= m
    decreases m
  {
    if m > 0 {
      assert frames[..m][1..] == frames[1..][..m - 1];
      WholeFramesCoverFinished(frames[1..], m - 1, n - |frames[0]|);
    }
  }

  /** A peer that has read all of the socket has every packet whose write was finished. */
  lemma FinishedPacketsAreReceived(
    aes: NetworkWriter.Aes, steps: seq<NetworkWriter.Step>, chunks: seq<seq<byte>>, view: seq<byte>)
    requires NetworkWriter.ValidRun(aes, NetworkWriter.INITIAL, steps)
    requires var st := NetworkWriter.Run(aes, NetworkWriter.INITIAL, steps);
             st.sent <= |st.Handed()| && PeerHasRead(aes, st, chunks, view) && |view| == st.sent
    ensures var st := NetworkWriter.Run(aes, NetworkWriter.INITIAL, steps);
            Framing.WholeFrames(st.lockOrder, |view|) >= |NetworkWriter.Packets(st.history)|
  {
    hide Encrypt, Advance, NetworkWriter.Next, NetworkWriter.Run, ReadChunks;
    var st := NetworkWriter.Run(aes, NetworkWriter.INITIAL, steps);
    NetworkWriter.SocketHoldsWholePacketsThenOneCut(aes, steps);
    NetworkWriter.ReachableHistory(aes, steps);
    var finished := NetworkWriter.Packets(st.history);
    assert st.lockOrder[..|finished|] == finished;
    ConcatSplit(st.history.clear, st.history.sealed);
    assert |Concat(finished)| == |NetworkWriter.HistoryWire(aes, st.history)|;
    WholeFramesCoverFinished(st.lockOrder, |finished|, |view|);
  }
}
