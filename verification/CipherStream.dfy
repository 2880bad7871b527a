/**
  The encrypted byte stream: AES-128 in CFB-8 mode (section 6.3 of NIST SP 800-38A), written one
  byte at a time over an inner writer that may answer `Pending` at any byte, and decrypted in
  place by the reader.

  AES is an uninterpreted function `Keystream` from the 16-byte shift register to the first byte
  of the encrypted block; fixing a key fixes that function.
 */
module CipherStream {
  import opened Bytes

  type Register = r: seq<byte> | |r| == 16
    witness [0, 0, 0, 0, 0, 0, 0, 0, 0, 0, 0, 0, 0, 0, 0, 0]

  type Keystream = Register -> byte

  // ----- CFB-8 as mathematics -----

  function Shift(reg: Register, c: byte): (r: Register)
  {
    reg[1..] + [c]
  }

  /** The shift register after the given ciphertext has gone past. */
  function Advance(reg: Register, cipher: seq<byte>): (r: Register)
    decreases |cipher|
  {
    if cipher == [] then reg else Advance(Shift(reg, cipher[0]), cipher[1..])
  }

  function Encrypt(aes: Keystream, reg: Register, plain: seq<byte>): (cipher: seq<byte>)
    ensures |cipher| == |plain|
    decreases |plain|
  {
    if plain == [] then []
    else
      var c := Xor(plain[0], aes(reg));
      [c] + Encrypt(aes, Shift(reg, c), plain[1..])
  }

  function Decrypt(aes: Keystream, reg: Register, cipher: seq<byte>): (plain: seq<byte>)
    ensures |plain| == |cipher|
    decreases |cipher|
  {
    if cipher == [] then []
    else [Xor(cipher[0], aes(reg))] + Decrypt(aes, Shift(reg, cipher[0]), cipher[1..])
  }

  /** The 16 bytes that precede position `j` of the ciphertext, the IV standing in front of it. */
  function Window(iv: Register, cipher: seq<byte>, j: nat): (r: Register)
    requires j <= |cipher|
  {
    (iv + cipher[..j])[j..]
  }

  /**
    The standard's own wording: the j-th input block is the last 16 bytes of the IV followed by
    the ciphertext so far, and the j-th ciphertext byte is the j-th plaintext byte masked with the
    first byte of the encrypted block.
   */
  ghost predicate IsCfb8(aes: Keystream, iv: Register, plain: seq<byte>, cipher: seq<byte>)
  {
    && |cipher| == |plain|
    && forall j | 0 <= j < |plain| :: cipher[j] == Xor(plain[j], aes(Window(iv, cipher, j)))
  }

  lemma {:induction false} AdvanceIsWindow(reg: Register, cipher: seq<byte>)
    ensures Advance(reg, cipher) == (reg + cipher)[|cipher|..]
    decreases |cipher|
  {
    if cipher != [] {
      AdvanceIsWindow(Shift(reg, cipher[0]), cipher[1..]);
      assert Shift(reg, cipher[0]) + cipher[1..] == (reg + cipher)[1..];
    }
  }

  lemma {:induction false} AdvanceSplit(reg: Register, a: seq<byte>, b: seq<byte>)
    ensures Advance(reg, a + b) == Advance(Advance(reg, a), b)
    decreases |a|
  {
    if a == [] {
      assert a + b == b;
    } else {
      assert (a + b)[1..] == a[1..] + b;
      AdvanceSplit(Shift(reg, a[0]), a[1..], b);
    }
  }

  lemma {:induction false} EncryptSplit(aes: Keystream, reg: Register, a: seq<byte>, b: seq<byte>)
    ensures Encrypt(aes, reg, a + b)
         == Encrypt(aes, reg, a) + Encrypt(aes, Advance(reg, Encrypt(aes, reg, a)), b)
    decreases |a|
  {
    if a == [] {
      assert a + b == b;
    } else {
      var c := Xor(a[0], aes(reg));
      var tail := Encrypt(aes, Shift(reg, c), a[1..]);
      assert (a + b)[0] == a[0] && (a + b)[1..] == a[1..] + b;
      EncryptSplit(aes, Shift(reg, c), a[1..], b);
      assert Encrypt(aes, reg, a + b) == [c] + (tail + Encrypt(aes, Advance(Shift(reg, c), tail), b));
      assert Encrypt(aes, reg, a) == [c] + tail;
      assert ([c] + tail)[1..] == tail;
      assert Advance(reg, [c] + tail) == Advance(Shift(reg, c), tail);
    }
  }

  lemma {:induction false} DecryptSplit(aes: Keystream, reg: Register, a: seq<byte>, b: seq<byte>)
    ensures Decrypt(aes, reg, a + b) == Decrypt(aes, reg, a) + Decrypt(aes, Advance(reg, a), b)
    decreases |a|
  {
    if a == [] {
      assert a + b == b;
    } else {
      assert (a + b)[1..] == a[1..] + b;
      DecryptSplit(aes, Shift(reg, a[0]), a[1..], b);
    }
  }

  lemma {:induction false} DecryptInvertsEncrypt(aes: Keystream, reg: Register, plain: seq<byte>)
    ensures Decrypt(aes, reg, Encrypt(aes, reg, plain)) == plain
    decreases |plain|
  {
    if plain != [] {
      var c := Xor(plain[0], aes(reg));
      XorCancels(plain[0], aes(reg));
      DecryptInvertsEncrypt(aes, Shift(reg, c), plain[1..]);
      assert Encrypt(aes, reg, plain)[1..] == Encrypt(aes, Shift(reg, c), plain[1..]);
    }
  }

  /** `Encrypt` computes CFB-8 as the standard words it, and nothing else satisfies that wording. */
  lemma {:induction false} EncryptIsCfb8(aes: Keystream, iv: Register, plain: seq<byte>, cipher: seq<byte>)
    ensures IsCfb8(aes, iv, plain, cipher) <==> cipher == Encrypt(aes, iv, plain)
    decreases |plain|
  {
    if |plain| != 0 && |cipher| == |plain| {
      var n := |plain| - 1;
      var e := Encrypt(aes, iv, plain[..n]);
      EncryptIsCfb8(aes, iv, plain[..n], cipher[..n]);
      EncryptSplit(aes, iv, plain[..n], [plain[n]]);
      AdvanceIsWindow(iv, e);
      assert plain == plain[..n] + [plain[n]] && cipher == cipher[..n] + [cipher[n]];
      assert Encrypt(aes, iv, plain) == e + [Xor(plain[n], aes((iv + e)[n..]))];
      assert forall j | 0 <= j < n :: cipher[..n][..j] == cipher[..j];
      assert IsCfb8(aes, iv, plain, cipher) <==>
             IsCfb8(aes, iv, plain[..n], cipher[..n]) && cipher[n] == Xor(plain[n], aes(Window(iv, cipher, n))) by {
        assert forall j | 0 <= j < n :: plain[..n][j] == plain[j] && cipher[..n][j] == cipher[j];
        assert forall j | 0 <= j < n :: Window(iv, cipher[..n], j) == Window(iv, cipher, j);
      }
      assert Window(iv, cipher, n) == (iv + cipher[..n])[n..];
    }
  }

  // ----- The encrypting writer -----

  /** What the inner writer may answer to a one-byte write. `TookNothing` is `Ready(Ok(0))`. */
  datatype Answer = Pending | Took | TookNothing | Failed

  /** `Poll<io::Result<usize>>`. */
  datatype PollResult = PollPending | PollReady(written: nat) | PollError

  /** The encryptor's fields, with the bytes its inner writer has taken so far. */
  datatype EncryptorState = EncryptorState(register: Register, saved: Option<byte>, delivered: seq<byte>)

  /** The byte to put on the wire and the register afterwards: a saved byte is used before `p`. */
  function NextByte(aes: Keystream, s: EncryptorState, p: byte): (r: (byte, Register))
  {
    if s.saved.Some? then (s.saved.value, s.register)
    else var c := Xor(p, aes(s.register)); (c, Shift(s.register, c))
  }

  /** The rest of one `poll_write`, `total` bytes of it already taken. */
  function PollFrom(aes: Keystream, s: EncryptorState, buf: seq<byte>, answers: seq<Answer>, total: nat)
    : (r: (EncryptorState, PollResult))
    requires |answers| >= |buf|
    ensures r.1.PollReady? ==> total <= r.1.written <= total + |buf|
    decreases |buf|
  {
    if buf == [] then (s, PollReady(total))
    else
      var (out, reg) := NextByte(aes, s, buf[0]);
      match answers[0]
      case Pending =>
        (s.(register := reg, saved := Some(out)), if total == 0 then PollPending else PollReady(total))
      case Failed =>
        (s.(register := reg, saved := None), PollError)
      case Took =>
        PollFrom(aes, EncryptorState(reg, None, s.delivered + [out]), buf[1..], answers[1..], total + 1)
      case TookNothing =>
        PollFrom(aes, s.(register := reg, saved := None), buf[1..], answers[1..], total)
  }

  class StreamEncryptor {
    const aes: Keystream
    var register: Register
    var saved: Option<byte>
    var delivered: seq<byte>

    ghost function State(): EncryptorState
      reads this
    {
      EncryptorState(register, saved, delivered)
    }

    constructor (aes: Keystream, iv: Register)
      ensures this.aes == aes && State() == EncryptorState(iv, None, [])
    {
      this.aes := aes;
      register, saved, delivered := iv, None, [];
    }

    method PollWrite(buf: seq<byte>, answers: seq<Answer>) returns (result: PollResult)
      requires |answers| >= |buf|
      modifies this
      ensures (State(), result) == PollFrom(aes, old(State()), buf, answers, 0)
    {
      var totalWritten := 0;
      var i := 0;
      while i < |buf|
        invariant 0 <= i <= |buf|
        invariant PollFrom(aes, old(State()), buf, answers, 0)
               == PollFrom(aes, State(), buf[i..], answers[i..], totalWritten)
      {
        var out: byte;
        if saved.Some? {
          out := saved.value;
        } else {
          out := Xor(buf[i], aes(register));
          register := Shift(register, out);
        }
        assert buf[i..][1..] == buf[i + 1..] && answers[i..][1..] == answers[i + 1..];
        match answers[i] {
          case Pending =>
            saved := Some(out);
            if totalWritten == 0 {
              return PollPending;
            }
            return PollReady(totalWritten);
          case Failed =>
            saved := None;
            return PollError;
          case Took =>
            saved := None;
            delivered := delivered + [out];
            totalWritten := totalWritten + 1;
          case TookNothing =>
            saved := None;
        }
        i := i + 1;
      }
      return PollReady(totalWritten);
    }
  }

  // ----- What one poll does to the stream -----

  /**
    The encryptor stands exactly after `plain[..k]`: the wire holds its encryption, and the cipher
    is one byte ahead exactly when it holds the encryption of the next byte.
   */
  ghost predicate InStep(aes: Keystream, iv: Register, s: EncryptorState, plain: seq<byte>, k: nat)
  {
    && k <= |plain|
    && s.delivered == Encrypt(aes, iv, plain[..k])
    && (s.saved.None? ==> s.register == Advance(iv, s.delivered))
    && (s.saved.Some? ==>
          && k < |plain|
          && s.delivered + [s.saved.value] == Encrypt(aes, iv, plain[..k + 1])
          && s.register == Advance(iv, s.delivered + [s.saved.value]))
  }

  /** An error mid-byte: the cipher has moved past `plain[k]`, and that byte is lost. */
  ghost predicate OneByteLost(aes: Keystream, iv: Register, s: EncryptorState, plain: seq<byte>, k: nat)
  {
    && k < |plain|
    && s.delivered == Encrypt(aes, iv, plain[..k])
    && s.saved.None?
    && s.register == Advance(iv, Encrypt(aes, iv, plain[..k + 1]))
  }

  predicate Lossless(answers: seq<Answer>)
  {
    forall i | 0 <= i < |answers| :: answers[i] != TookNothing
  }

  lemma NextByteIsCfb8(aes: Keystream, iv: Register, s: EncryptorState, plain: seq<byte>, k: nat)
    requires InStep(aes, iv, s, plain, k) && k < |plain|
    ensures var (out, reg) := NextByte(aes, s, plain[k]);
            && s.delivered + [out] == Encrypt(aes, iv, plain[..k + 1])
            && reg == Advance(iv, s.delivered + [out])
  {
    assert plain[..k + 1] == plain[..k] + [plain[k]];
    EncryptSplit(aes, iv, plain[..k], [plain[k]]);
    var (out, reg) := NextByte(aes, s, plain[k]);
    if s.saved.None? {
      assert Encrypt(aes, Advance(iv, s.delivered), [plain[k]]) == [out];
      AdvanceSplit(iv, s.delivered, [out]);
      assert Advance(s.register, [out]) == Advance(Shift(s.register, out), []);
    }
  }

  /** What each inner answer to one byte leaves behind. */
  lemma OneByteStep(aes: Keystream, iv: Register, s: EncryptorState, plain: seq<byte>, k: nat)
    requires InStep(aes, iv, s, plain, k) && k < |plain|
    ensures var (out, reg) := NextByte(aes, s, plain[k]);
            && InStep(aes, iv, s.(register := reg, saved := Some(out)), plain, k)
            && InStep(aes, iv, EncryptorState(reg, None, s.delivered + [out]), plain, k + 1)
            && OneByteLost(aes, iv, s.(register := reg, saved := None), plain, k)
  {
    NextByteIsCfb8(aes, iv, s, plain, k);
  }

  lemma StepIsInside(aes: Keystream, iv: Register, s: EncryptorState, plain: seq<byte>, k: nat)
    requires InStep(aes, iv, s, plain, k)
    ensures |s.delivered| == k <= |plain|
  {
  }

  /** How one poll may end, given where it began. */
  ghost predicate PollOutcome(
    aes: Keystream, iv: Register, plain: seq<byte>, k: nat, len: nat, total: nat, end: (EncryptorState, PollResult))
  {
    match end.1
    case PollPending => total == 0 && end.0.saved.Some? && InStep(aes, iv, end.0, plain, k)
    case PollReady(n) => total <= n <= total + len && InStep(aes, iv, end.0, plain, k + (n - total))
    case PollError => k <= |end.0.delivered| && OneByteLost(aes, iv, end.0, plain, |end.0.delivered|)
  }

  /** One poll over the next `len` unaccepted bytes, starting in step. */
  lemma {:induction false} PollKeepsStep(
    aes: Keystream, iv: Register, s: EncryptorState, plain: seq<byte>, k: nat,
    len: nat, answers: seq<Answer>, total: nat)
    requires InStep(aes, iv, s, plain, k) && k + len <= |plain|
    requires |answers| >= len && Lossless(answers)
    ensures PollOutcome(aes, iv, plain, k, len, total, PollFrom(aes, s, plain[k..k + len], answers, total))
    decreases len
  {
    hide InStep, OneByteLost, NextByte;
    var buf := plain[k..k + len];
    if len != 0 {
      StepIsInside(aes, iv, s, plain, k);
      OneByteStep(aes, iv, s, plain, k);
      var (out, reg) := NextByte(aes, s, buf[0]);
      if answers[0] == Took {
        assert buf[1..] == plain[k + 1..(k + 1) + (len - 1)];
        PollKeepsStep(aes, iv, EncryptorState(reg, None, s.delivered + [out]), plain, k + 1,
          len - 1, answers[1..], total + 1);
      }
    }
  }

  /** A writer that takes every byte takes them all in one poll. */
  lemma {:induction false} AllTookIsReady(
    aes: Keystream, s: EncryptorState, buf: seq<byte>, answers: seq<Answer>, total: nat)
    requires |answers| == |buf| && forall i | 0 <= i < |answers| :: answers[i] == Took
    ensures PollFrom(aes, s, buf, answers, total).1 == PollReady(total + |buf|)
    decreases |buf|
  {
    if buf != [] {
      var (out, reg) := NextByte(aes, s, buf[0]);
      AllTookIsReady(aes, EncryptorState(reg, None, s.delivered + [out]), buf[1..], answers[1..], total + 1);
    }
  }

  // ----- Whole runs -----

  /** One call: how much of the unaccepted suffix it presents, and the inner answers it meets. */
  datatype Call = Call(len: nat, answers: seq<Answer>)

  ghost predicate CallsFit(calls: seq<Call>)
  {
    forall i | 0 <= i < |calls| :: |calls[i].answers| >= calls[i].len && Lossless(calls[i].answers)
  }

  function Min(a: nat, b: nat): (r: nat)
  {
    if a <= b then a else b
  }

  /** The run ends early, with `failed`, at the first poll that reports an error. */
  datatype Run = Run(state: EncryptorState, accepted: nat, failed: bool)

  /** The poll that one call makes. */
  ghost function PollOf(aes: Keystream, s: EncryptorState, plain: seq<byte>, k: nat, call: Call)
    : (r: (EncryptorState, PollResult))
    requires k <= |plain| && |call.answers| >= call.len
    ensures r.1.PollReady? ==> k + r.1.written <= |plain|
  {
    var len := Min(call.len, |plain| - k);
    PollFrom(aes, s, plain[k..k + len], call.answers, 0)
  }

  /** Polls a writer with successive unaccepted suffixes of `plain`. */
  ghost function RunCalls(aes: Keystream, s: EncryptorState, plain: seq<byte>, k: nat, calls: seq<Call>): (r: Run)
    requires k <= |plain| && CallsFit(calls)
    decreases |calls|
  {
    if calls == [] then Run(s, k, false)
    else
      var end := PollOf(aes, s, plain, k, calls[0]);
      match end.1
      case PollPending => RunCalls(aes, end.0, plain, k, calls[1..])
      case PollReady(n) => RunCalls(aes, end.0, plain, k + n, calls[1..])
      case PollError => Run(end.0, k, true)
  }

  lemma RunStep(aes: Keystream, s: EncryptorState, plain: seq<byte>, k: nat, calls: seq<Call>)
    requires k <= |plain| && CallsFit(calls) && calls != []
    ensures |calls[0].answers| >= calls[0].len && Lossless(calls[0].answers) && CallsFit(calls[1..])
    ensures var r := PollOf(aes, s, plain, k, calls[0]);
            && RunCalls(aes, s, plain, k, calls) ==
               match r.1
               case PollPending => RunCalls(aes, r.0, plain, k, calls[1..])
               case PollReady(n) => RunCalls(aes, r.0, plain, k + n, calls[1..])
               case PollError => Run(r.0, k, true)
  {
    hide PollFrom;
  }

  ghost predicate RunOutcome(aes: Keystream, iv: Register, plain: seq<byte>, k: nat, r: Run)
  {
    && k <= r.accepted <= |plain|
    && (!r.failed ==> InStep(aes, iv, r.state, plain, r.accepted))
    && (r.failed ==> r.accepted <= |r.state.delivered| && OneByteLost(aes, iv, r.state, plain, |r.state.delivered|))
  }

  lemma OutcomeFromLater(aes: Keystream, iv: Register, plain: seq<byte>, k: nat, later: nat, r: Run)
    requires k <= later && RunOutcome(aes, iv, plain, later, r)
    ensures RunOutcome(aes, iv, plain, k, r)
  {
    hide InStep, OneByteLost;
  }

  lemma OutcomeOfFailure(aes: Keystream, iv: Register, plain: seq<byte>, k: nat, s: EncryptorState)
    requires k <= |s.delivered| && OneByteLost(aes, iv, s, plain, |s.delivered|)
    ensures RunOutcome(aes, iv, plain, k, Run(s, k, true))
  {
  }

  lemma PollOfKeepsStep(aes: Keystream, iv: Register, s: EncryptorState, plain: seq<byte>, k: nat, call: Call)
    requires InStep(aes, iv, s, plain, k) && k <= |plain| && |call.answers| >= call.len && Lossless(call.answers)
    ensures var end := PollOf(aes, s, plain, k, call);
            match end.1
            case PollPending => InStep(aes, iv, end.0, plain, k)
            case PollReady(n) => InStep(aes, iv, end.0, plain, k + n)
            case PollError => RunOutcome(aes, iv, plain, k, Run(end.0, k, true))
  {
    hide InStep, OneByteLost, PollFrom, RunOutcome;
    PollKeepsStep(aes, iv, s, plain, k, Min(call.len, |plain| - k), call.answers, 0);
    var end := PollOf(aes, s, plain, k, call);
    if end.1.PollError? {
      OutcomeOfFailure(aes, iv, plain, k, end.0);
    }
  }

  lemma {:induction false} RunKeepsStep(
    aes: Keystream, iv: Register, s: EncryptorState, plain: seq<byte>, k: nat, calls: seq<Call>)
    requires InStep(aes, iv, s, plain, k) && k <= |plain| && CallsFit(calls)
    ensures RunOutcome(aes, iv, plain, k, RunCalls(aes, s, plain, k, calls))
    decreases |calls|
  {
    if calls != [] {
      RunStep(aes, s, plain, k, calls);
      hide InStep, PollOf, RunCalls, RunOutcome, CallsFit;
      PollOfKeepsStep(aes, iv, s, plain, k, calls[0]);
      var end := PollOf(aes, s, plain, k, calls[0]);
      match end.1
      case PollPending => RunKeepsStep(aes, iv, end.0, plain, k, calls[1..]);
      case PollReady(n) =>
        RunKeepsStep(aes, iv, end.0, plain, k + n, calls[1..]);
        OutcomeFromLater(aes, iv, plain, k, k + n, RunCalls(aes, end.0, plain, k + n, calls[1..]));
      case PollError =>
    }
  }

  /**
    For every poll schedule: the bytes delivered are the CFB-8 encryption of exactly the accepted
    plaintext, and a saved byte is held exactly when the cipher is one byte ahead of the wire.
   */
  lemma DeliveredIsEncryptionOfAccepted(aes: Keystream, iv: Register, plain: seq<byte>, calls: seq<Call>)
    requires CallsFit(calls)
    ensures var r := RunCalls(aes, EncryptorState(iv, None, []), plain, 0, calls);
            && r.accepted <= |plain|
            && (!r.failed ==>
                  && IsCfb8(aes, iv, plain[..r.accepted], r.state.delivered)
                  && match r.state.saved
                     case None => r.state.register == Advance(iv, r.state.delivered)
                     case Some(c) =>
                       && r.accepted < |plain|
                       && IsCfb8(aes, iv, plain[..r.accepted + 1], r.state.delivered + [c])
                       && r.state.register == Advance(iv, r.state.delivered + [c]))
            && (r.failed ==>
                  && r.accepted <= |r.state.delivered| < |plain|
                  && IsCfb8(aes, iv, plain[..|r.state.delivered|], r.state.delivered))
  {
    var s := EncryptorState(iv, None, []);
    assert plain[..0] == [];
    assert InStep(aes, iv, s, plain, 0);
    RunKeepsStep(aes, iv, s, plain, 0, calls);
    var r := RunCalls(aes, s, plain, 0, calls);
    if !r.failed {
      EncryptIsCfb8(aes, iv, plain[..r.accepted], r.state.delivered);
      if r.state.saved.Some? {
        EncryptIsCfb8(aes, iv, plain[..r.accepted + 1], r.state.delivered + [r.state.saved.value]);
      }
    } else {
      EncryptIsCfb8(aes, iv, plain[..|r.state.delivered|], r.state.delivered);
    }
  }

  // ----- Why `Ready(Ok(0))` is excluded -----

  /** How many bytes of a poll the inner writer disposes of before it answers otherwise. */
  function Disposed(answers: seq<Answer>, len: nat): (m: nat)
    requires len <= |answers|
    ensures m <= len
  {
    if len == 0 || answers[0] == Pending || answers[0] == Failed then 0 else 1 + Disposed(answers[1..], len - 1)
  }

  /** The bytes that were really taken, of those disposed of. */
  function Kept(cipher: seq<byte>, answers: seq<Answer>): (r: seq<byte>)
    requires |cipher| <= |answers|
    ensures |r| <= |cipher|
  {
    if cipher == [] then [] else (if answers[0] == Took then [cipher[0]] else []) + Kept(cipher[1..], answers[1..])
  }

  /** The cipher stands at byte `p` of `plain`, whatever the wire holds. */
  ghost predicate CipherAt(aes: Keystream, iv: Register, s: EncryptorState, plain: seq<byte>, p: nat)
  {
    var e := Encrypt(aes, iv, plain);
    && p <= |plain|
    && (s.saved.None? ==> s.register == Advance(iv, e[..p]))
    && (s.saved.Some? ==> p < |plain| && s.saved.value == e[p] && s.register == Advance(iv, e[..p + 1]))
  }

  /** The encryption of a prefix is a prefix of the encryption. */
  lemma EncryptPrefix(aes: Keystream, reg: Register, plain: seq<byte>, k: nat)
    requires k <= |plain|
    ensures Encrypt(aes, reg, plain[..k]) == Encrypt(aes, reg, plain)[..k]
  {
    assert plain == plain[..k] + plain[k..];
    EncryptSplit(aes, reg, plain[..k], plain[k..]);
  }

  /** Being in step is standing at the right byte with the right wire. */
  lemma InStepIsCipherAt(aes: Keystream, iv: Register, s: EncryptorState, plain: seq<byte>, k: nat)
    requires k <= |plain|
    ensures InStep(aes, iv, s, plain, k) <==>
            s.delivered == Encrypt(aes, iv, plain)[..k] && CipherAt(aes, iv, s, plain, k)
  {
    var e := Encrypt(aes, iv, plain);
    EncryptPrefix(aes, iv, plain, k);
    if k < |plain| {
      EncryptPrefix(aes, iv, plain, k + 1);
      assert e[..k + 1] == e[..k] + [e[k]];
    }
    hide Encrypt, Advance;
    if s.saved.Some? && k < |plain| && s.delivered == e[..k] {
      assert s.delivered + [s.saved.value] == e[..k + 1] <==> s.saved.value == e[k] by {
        assert (s.delivered + [s.saved.value])[k] == s.saved.value;
      }
    }
  }

  lemma CipherNext(aes: Keystream, iv: Register, s: EncryptorState, plain: seq<byte>, p: nat, d: seq<byte>)
    requires CipherAt(aes, iv, s, plain, p) && p < |plain|
    ensures var (out, reg) := NextByte(aes, s, plain[p]);
            && out == Encrypt(aes, iv, plain)[p]
            && CipherAt(aes, iv, EncryptorState(reg, None, d), plain, p + 1)
            && CipherAt(aes, iv, EncryptorState(reg, Some(out), d), plain, p)
  {
    var e := Encrypt(aes, iv, plain);
    var s' := s.(delivered := e[..p]);
    InStepIsCipherAt(aes, iv, s', plain, p);
    NextByteIsCfb8(aes, iv, s', plain, p);
    EncryptPrefix(aes, iv, plain, p + 1);
    hide Encrypt, Advance;
    var out := NextByte(aes, s, plain[p]).0;
    assert (e[..p] + [out])[p] == out;
  }

  /** What a poll reports: whether it got to the end, failed, or was stopped with something or nothing taken. */
  function Reported(stop: Option<Answer>, taken: nat): (r: PollResult)
  {
    if stop == Some(Failed) then PollError
    else if stop == Some(Pending) && taken == 0 then PollPending
    else PollReady(taken)
  }

  /** The answer that ended a poll before its last byte, if any. */
  function Stop(answers: seq<Answer>, len: nat): (r: Option<Answer>)
    requires len <= |answers|
  {
    if Disposed(answers, len) == len then None else Some(answers[Disposed(answers, len)])
  }

  /** How a poll ends, for any answers at all: `m` bytes disposed of, of which `kept` were taken. */
  ghost predicate LossyOutcome(
    aes: Keystream, iv: Register, plain: seq<byte>, p: nat, m: nat, kept: nat, total: nat,
    stop: Option<Answer>, end: (EncryptorState, PollResult))
  {
    && end.1 == Reported(stop, total + kept)
    && (end.1.PollPending? || stop == Some(Pending) ==> end.0.saved.Some?)
    && (end.1.PollError? ==> end.0.saved.None?)
    && (!end.1.PollError? ==> CipherAt(aes, iv, end.0, plain, p + m))
  }

  ghost predicate DeliversKept(
    aes: Keystream, iv: Register, before: seq<byte>, plain: seq<byte>, p: nat,
    len: nat, answers: seq<Answer>, total: nat, end: (EncryptorState, PollResult))
    requires p + len <= |plain| && len <= |answers|
  {
    var m := Disposed(answers, len);
    var kept := Kept(Encrypt(aes, iv, plain)[p..p + m], answers);
    end.0.delivered == before + kept && LossyOutcome(aes, iv, plain, p, m, |kept|, total, Stop(answers, len), end)
  }

  lemma DeliversKeptCons(
    aes: Keystream, iv: Register, before: seq<byte>, plain: seq<byte>, p: nat,
    len: nat, answers: seq<Answer>, total: nat, d: seq<byte>, end: (EncryptorState, PollResult))
    requires p + len <= |plain| && 0 < len <= |answers| && (answers[0] == Took || answers[0] == TookNothing)
    requires d == if answers[0] == Took then [Encrypt(aes, iv, plain)[p]] else []
    requires DeliversKept(aes, iv, before + d, plain, p + 1, len - 1, answers[1..], total + |d|, end)
    ensures DeliversKept(aes, iv, before, plain, p, len, answers, total, end)
  {
    var e := Encrypt(aes, iv, plain);
    var m := Disposed(answers[1..], len - 1);
    assert Disposed(answers, len) == m + 1;
    KeptCons(e, p, m, answers);
    hide Encrypt, CipherAt, Kept, Disposed;
    Associative(before, d, Kept(e[p + 1..p + 1 + m], answers[1..]));
  }

  lemma PollStops(
    aes: Keystream, iv: Register, s: EncryptorState, plain: seq<byte>, p: nat,
    len: nat, answers: seq<Answer>, total: nat)
    requires CipherAt(aes, iv, s, plain, p) && p + len <= |plain| && len <= |answers|
    requires len == 0 || answers[0] == Pending || answers[0] == Failed
    ensures DeliversKept(
              aes, iv, s.delivered, plain, p, len, answers, total, PollFrom(aes, s, plain[p..p + len], answers, total))
  {
    if len > 0 {
      CipherNext(aes, iv, s, plain, p, s.delivered);
    }
    hide Encrypt, CipherAt, NextByte;
    assert Encrypt(aes, iv, plain)[p..p + 0] == [];
    assert s.delivered + [] == s.delivered;
  }

  lemma PollGoesOn(
    aes: Keystream, iv: Register, s: EncryptorState, plain: seq<byte>, p: nat,
    len: nat, answers: seq<Answer>, total: nat)
    returns (s1: EncryptorState, d: seq<byte>)
    requires CipherAt(aes, iv, s, plain, p) && p + len <= |plain| && 0 < len <= |answers|
    requires answers[0] == Took || answers[0] == TookNothing
    ensures d == if answers[0] == Took then [Encrypt(aes, iv, plain)[p]] else []
    ensures CipherAt(aes, iv, s1, plain, p + 1) && s1.delivered == s.delivered + d
    ensures PollFrom(aes, s, plain[p..p + len], answers, total)
         == PollFrom(aes, s1, plain[p + 1..(p + 1) + (len - 1)], answers[1..], total + |d|)
  {
    var buf := plain[p..p + len];
    var (out, reg) := NextByte(aes, s, buf[0]);
    d := if answers[0] == Took then [out] else [];
    s1 := EncryptorState(reg, None, s.delivered + d);
    CipherNext(aes, iv, s, plain, p, s1.delivered);
    hide Encrypt, CipherAt, NextByte;
    assert buf[1..] == plain[p + 1..(p + 1) + (len - 1)];
    assert d == [] ==> s.delivered + d == s.delivered;
  }

  /**
    Whatever the inner writer answers, a poll delivers the encryption of the bytes it disposes of,
    without those for which the answer was `Ready(Ok(0))`, and the cipher moves past all of them.
   */
  lemma {:induction false} PollDeliversKept(
    aes: Keystream, iv: Register, s: EncryptorState, plain: seq<byte>, p: nat,
    len: nat, answers: seq<Answer>, total: nat)
    requires CipherAt(aes, iv, s, plain, p) && p + len <= |plain| && len <= |answers|
    ensures DeliversKept(
              aes, iv, s.delivered, plain, p, len, answers, total, PollFrom(aes, s, plain[p..p + len], answers, total))
    decreases len
  {
    hide CipherAt, PollFrom, Encrypt, DeliversKept;
    if len == 0 || answers[0] == Pending || answers[0] == Failed {
      PollStops(aes, iv, s, plain, p, len, answers, total);
    } else {
      var s1, d := PollGoesOn(aes, iv, s, plain, p, len, answers, total);
      PollDeliversKept(aes, iv, s1, plain, p + 1, len - 1, answers[1..], total + |d|);
      DeliversKeptCons(aes, iv, s.delivered, plain, p, len, answers, total, d,
        PollFrom(aes, s, plain[p..p + len], answers, total));
    }
  }

  lemma Associative(x: seq<byte>, y: seq<byte>, z: seq<byte>)
    ensures (x + y) + z == x + (y + z)
  {
  }

  lemma KeptCons(e: seq<byte>, p: nat, m: nat, answers: seq<Answer>)
    requires p + m + 1 <= |e| && m + 1 <= |answers|
    ensures Kept(e[p..p + (m + 1)], answers)
         == (if answers[0] == Took then [e[p]] else []) + Kept(e[p + 1..p + 1 + m], answers[1..])
  {
    assert e[p..p + (m + 1)][1..] == e[p + 1..p + 1 + m];
  }

  /** The cipher cannot tell standing at byte `a` from standing at byte `b`. */
  ghost predicate SameCipher(iv: Register, e: seq<byte>, saved: bool, a: nat, b: nat)
  {
    if saved then a < |e| && b < |e| && e[a] == e[b] && Advance(iv, e[..a + 1]) == Advance(iv, e[..b + 1])
    else a <= |e| && b <= |e| && Advance(iv, e[..a]) == Advance(iv, e[..b])
  }

  /**
    After a poll from `k` that ended in `end`, the stream is in step with what was reported if and
    only if the bytes taken happen to be the next ones of the encryption and the cipher cannot tell
    the difference.
   */
  ghost predicate InStepByChance(
    aes: Keystream, iv: Register, plain: seq<byte>, k: nat, len: nat, answers: seq<Answer>,
    end: (EncryptorState, PollResult))
    requires k + len <= |plain| && len <= |answers|
  {
    var e := Encrypt(aes, iv, plain);
    var m := Disposed(answers, len);
    var kept := Kept(e[k..k + m], answers);
    var n := if end.1.PollReady? then end.1.written else 0;
    && n == |kept|
    && end.0.delivered == e[..k] + kept
    && (InStep(aes, iv, end.0, plain, k + n) <==>
          kept == e[k..k + n] && SameCipher(iv, e, end.0.saved.Some?, k + m, k + n))
  }

  /**
    For any answers of the inner writer, of which any number may be `Ready(Ok(0))`: the exact
    condition for a poll that does not fail to leave the stream in step.
   */
  lemma ZeroLengthWriteLosesStep(
    aes: Keystream, iv: Register, s: EncryptorState, plain: seq<byte>, k: nat, len: nat, answers: seq<Answer>)
    requires InStep(aes, iv, s, plain, k) && k + len <= |plain| && len <= |answers|
    requires !PollFrom(aes, s, plain[k..k + len], answers, 0).1.PollError?
    ensures InStepByChance(aes, iv, plain, k, len, answers, PollFrom(aes, s, plain[k..k + len], answers, 0))
  {
    InStepIsCipherAt(aes, iv, s, plain, k);
    hide InStep, PollFrom, Encrypt, CipherAt, DeliversKept, InStepByChance;
    PollDeliversKept(aes, iv, s, plain, k, len, answers, 0);
    LossDecidesStep(aes, iv, plain, k, len, answers, PollFrom(aes, s, plain[k..k + len], answers, 0));
  }

  lemma LossDecidesStep(
    aes: Keystream, iv: Register, plain: seq<byte>, k: nat, len: nat, answers: seq<Answer>,
    end: (EncryptorState, PollResult))
    requires k + len <= |plain| && len <= |answers| && !end.1.PollError?
    requires DeliversKept(aes, iv, Encrypt(aes, iv, plain)[..k], plain, k, len, answers, 0, end)
    ensures InStepByChance(aes, iv, plain, k, len, answers, end)
  {
    hide InStep, Encrypt, CipherAt, SameCipher;
    var m := Disposed(answers, len);
    InStepAfterLoss(aes, iv, end.0, plain, k, m, Kept(Encrypt(aes, iv, plain)[k..k + m], answers));
  }

  lemma InStepAfterLoss(
    aes: Keystream, iv: Register, s: EncryptorState, plain: seq<byte>, k: nat, m: nat, kept: seq<byte>)
    requires CipherAt(aes, iv, s, plain, k + m) && k + m <= |plain| && |kept| <= m
    requires s.delivered == Encrypt(aes, iv, plain)[..k] + kept
    ensures var e := Encrypt(aes, iv, plain);
            var n := |kept|;
            InStep(aes, iv, s, plain, k + n) <==>
            kept == e[k..k + n] && SameCipher(iv, e, s.saved.Some?, k + m, k + n)
  {
    var e := Encrypt(aes, iv, plain);
    var n := |kept|;
    InStepIsCipherAt(aes, iv, s, plain, k + n);
    hide Encrypt, Advance, InStep;
    assert e[..k + n] == e[..k] + e[k..k + n];
    assert e[..k] + kept == e[..k] + e[k..k + n] <==> kept == e[k..k + n] by {
      assert (e[..k] + kept)[k..] == kept && (e[..k] + e[k..k + n])[k..] == e[k..k + n];
    }
  }

  // ----- The decrypting reader -----

  lemma AdvanceByOne(reg: Register, data: seq<byte>, i: nat)
    requires i < |data|
    ensures Advance(reg, data[..i + 1]) == Shift(Advance(reg, data[..i]), data[i])
  {
    assert data[..i + 1] == data[..i] + [data[i]];
    AdvanceSplit(reg, data[..i], [data[i]]);
    assert Advance(Advance(reg, data[..i]), [data[i]]) == Advance(Shift(Advance(reg, data[..i]), data[i]), []);
  }

  lemma DecryptAt(aes: Keystream, reg: Register, data: seq<byte>, i: nat)
    requires i < |data|
    ensures Decrypt(aes, reg, data)[i] == Xor(data[i], aes(Advance(reg, data[..i])))
  {
    assert data == data[..i] + data[i..];
    DecryptSplit(aes, reg, data[..i], data[i..]);
  }

  /** What the inner reader may answer: nothing yet, bytes appended to the buffer, or an error. */
  datatype Incoming = ReadPending | ReadData(data: seq<byte>) | ReadError

  class StreamDecryptor {
    const aes: Keystream
    var register: Register

    constructor (aes: Keystream, iv: Register)
      ensures this.aes == aes && register == iv
    {
      this.aes := aes;
      register := iv;
    }

    /** `buf[..filled]` already holds data; only what the inner reader appends is decrypted. */
    method PollRead(buf: array<byte>, filled: nat, incoming: Incoming) returns (newFilled: nat)
      requires filled <= buf.Length
      requires incoming.ReadData? ==> filled + |incoming.data| <= buf.Length
      modifies this, buf
      ensures filled <= newFilled <= buf.Length
      ensures buf[..filled] == old(buf[..filled]) && buf[newFilled..] == old(buf[newFilled..])
      ensures incoming.ReadData? ==>
                && newFilled == filled + |incoming.data|
                && buf[filled..newFilled] == Decrypt(aes, old(register), incoming.data)
                && register == Advance(old(register), incoming.data)
      ensures !incoming.ReadData? ==> newFilled == filled && register == old(register)
    {
      newFilled := filled;
      if incoming.ReadData? {
        newFilled := InnerRead(buf, filled, incoming.data);
        DecryptInPlace(buf, filled, newFilled);
      }
    }

    /** The inner reader appends to the filled part of the buffer. */
    method InnerRead(buf: array<byte>, filled: nat, data: seq<byte>) returns (newFilled: nat)
      requires filled + |data| <= buf.Length
      modifies buf
      ensures newFilled == filled + |data| && buf[filled..newFilled] == data
      ensures buf[..filled] == old(buf[..filled]) && buf[newFilled..] == old(buf[newFilled..])
    {
      newFilled := filled + |data|;
      forall j | 0 <= j < |data| {
        buf[filled + j] := data[j];
      }
      assert forall j | 0 <= j < |data| :: buf[filled..newFilled][j] == data[j];
    }

    /** A block is one byte. */
    method DecryptBlock(buf: array<byte>, i: nat)
      requires i < buf.Length
      modifies this, buf
      ensures buf[..] == old(buf[..])[i := Xor(old(buf[..])[i], aes(old(register)))]
      ensures register == Shift(old(register), old(buf[..])[i])
    {
      var c := buf[i];
      buf[i] := Xor(c, aes(register));
      register := Shift(register, c);
    }

    /** Decrypts a stretch of the buffer, one byte after the other. */
    method DecryptInPlace(buf: array<byte>, start: nat, end: nat)
      requires start <= end <= buf.Length
      modifies this, buf
      ensures buf[start..end] == Decrypt(aes, old(register), old(buf[start..end]))
      ensures buf[..start] == old(buf[..start]) && buf[end..] == old(buf[end..])
      ensures register == Advance(old(register), old(buf[start..end]))
    {
      hide Advance, Decrypt, Overwritten;
      ghost var all, data := buf[..], buf[start..end];
      assert data == all[start..end];
      OverwrittenParts(all, start, Decrypt(aes, register, data));
      DecryptStretch(buf, start, end);
      ghost var now := buf[..];
      assert buf[start..end] == now[start..end] && buf[..start] == now[..start] && buf[end..] == now[end..];
    }

    method DecryptStretch(buf: array<byte>, start: nat, end: nat)
      requires start <= end <= buf.Length
      modifies this, buf
      ensures var data := old(buf[..])[start..end];
              && buf[..] == Overwritten(old(buf[..]), start, Decrypt(aes, old(register), data))
              && register == Advance(old(register), data)
    {
      ghost var all, data := buf[..], buf[..][start..end];
      ghost var plain := Decrypt(aes, register, data);
      assert data[..0] == [] && plain[..0] == [];
      assert Advance(register, []) == register;
      assert Overwritten(all, start, []) == all;
      hide Advance, Decrypt, Overwritten;
      for i := start to end
        invariant register == Advance(old(register), data[..i - start])
        invariant buf[..] == Overwritten(all, start, plain[..i - start])
      {
        DecryptOne(aes, old(register), all, start, data, i - start);
        DecryptBlock(buf, i);
      }
      assert data[..end - start] == data && plain[..end - start] == plain;
    }
  }

  /** One more byte of the stretch. */
  lemma DecryptOne(aes: Keystream, reg: Register, all: seq<byte>, start: nat, data: seq<byte>, j: nat)
    requires start + |data| <= |all| && data == all[start..start + |data|] && j < |data|
    ensures var plain := Decrypt(aes, reg, data);
            var now := Overwritten(all, start, plain[..j]);
            && |now| == |all| && now[start + j] == data[j]
            && now[start + j := Xor(data[j], aes(Advance(reg, data[..j])))] == Overwritten(all, start, plain[..j + 1])
            && Advance(reg, data[..j + 1]) == Shift(Advance(reg, data[..j]), data[j])
  {
    hide Advance, Decrypt, Overwritten;
    DecryptAt(aes, reg, data, j);
    AdvanceByOne(reg, data, j);
    OverwriteOne(all, start, Decrypt(aes, reg, data), j);
  }

  /** A buffer with a stretch of it replaced. */
  ghost function Overwritten(all: seq<byte>, start: nat, part: seq<byte>): (r: seq<byte>)
    requires start + |part| <= |all|
  {
    all[..start] + part + all[start + |part|..]
  }

  lemma OverwriteOne(all: seq<byte>, start: nat, part: seq<byte>, j: nat)
    requires start + |part| <= |all| && j < |part|
    ensures var now := Overwritten(all, start, part[..j]);
            && |now| == |all| && now[start + j] == all[start + j]
            && now[start + j := part[j]] == Overwritten(all, start, part[..j + 1])
  {
    assert part[..j + 1] == part[..j] + [part[j]];
  }

  lemma OverwrittenParts(all: seq<byte>, start: nat, part: seq<byte>)
    requires start + |part| <= |all|
    ensures var r := Overwritten(all, start, part);
            && |r| == |all| && r[start..start + |part|] == part
            && r[..start] == all[..start] && r[start + |part|..] == all[start + |part|..]
  {
  }

  /** Everything a reader has produced after the given chunks, each decrypted where the last stopped. */
  ghost function ReadChunks(aes: Keystream, reg: Register, chunks: seq<seq<byte>>): (r: seq<byte>)
    decreases |chunks|
  {
    if chunks == [] then []
    else Decrypt(aes, reg, chunks[0]) + ReadChunks(aes, Advance(reg, chunks[0]), chunks[1..])
  }

  lemma {:induction false} ChunkingIsInvisible(aes: Keystream, reg: Register, chunks: seq<seq<byte>>)
    ensures ReadChunks(aes, reg, chunks) == Decrypt(aes, reg, Concat(chunks))
    decreases |chunks|
  {
    if chunks != [] {
      ChunkingIsInvisible(aes, Advance(reg, chunks[0]), chunks[1..]);
      DecryptSplit(aes, reg, chunks[0], Concat(chunks[1..]));
    }
  }

  /** A reader that has seen a prefix of the encryption of `plain` holds the same prefix of `plain`. */
  lemma DecryptOfPrefix(aes: Keystream, iv: Register, plain: seq<byte>, seen: seq<byte>)
    requires seen <= Encrypt(aes, iv, plain)
    ensures Decrypt(aes, iv, seen) == plain[..|seen|]
  {
    var e := Encrypt(aes, iv, plain);
    var n := |seen|;
    assert plain == plain[..n] + plain[n..];
    EncryptSplit(aes, iv, plain[..n], plain[n..]);
    assert seen == e[..n] == Encrypt(aes, iv, plain[..n]);
    DecryptInvertsEncrypt(aes, iv, plain[..n]);
  }

  /** Any write schedule followed by any chunking of reads: the reader holds a prefix of what was accepted. */
  lemma ReaderSeesPrefixOfAccepted(
    aes: Keystream, iv: Register, plain: seq<byte>, calls: seq<Call>, chunks: seq<seq<byte>>)
    requires CallsFit(calls)
    requires Concat(chunks) <= RunCalls(aes, EncryptorState(iv, None, []), plain, 0, calls).state.delivered
    ensures var r := RunCalls(aes, EncryptorState(iv, None, []), plain, 0, calls);
            var seen := ReadChunks(aes, iv, chunks);
            && r.accepted <= |plain|
            && seen <= plain
            && (!r.failed ==> seen <= plain[..r.accepted])
            && (Concat(chunks) == r.state.delivered && !r.failed ==> seen == plain[..r.accepted])
  {
    DeliveredIsEncryptionOfAccepted(aes, iv, plain, calls);
    ChunkingIsInvisible(aes, iv, chunks);
    var r := RunCalls(aes, EncryptorState(iv, None, []), plain, 0, calls);
    var k := |r.state.delivered|;
    EncryptIsCfb8(aes, iv, plain[..k], r.state.delivered);
    DecryptOfPrefix(aes, iv, plain[..k], Concat(chunks));
    assert ReadChunks(aes, iv, chunks) == plain[..k][..|Concat(chunks)|];
  }
}
