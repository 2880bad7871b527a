# Steel server: verified model of the protocol core

Steel is a Minecraft server. This project models the parts of it whose correctness depends on more
than one function at a time, and proves what they promise.

* **The connection.** Bytes travel through AES-128 in CFB-8 mode (section 6.3 of NIST SP 800-38A),
  one byte per inner write, with polls that may stop at any byte (`CipherStream`). Packets are framed
  with VarInt lengths in three layouts (`VarInts`, `Framing`). One encoder in a slot behind a lock is
  shared by all senders, any of which may fail or be cancelled at any await (`NetworkWriter`, and
  `WriterProgress` for runs that nothing interrupts). Compression is announced and switched on during
  login (`CompressionSwitch`). `EndToEnd` joins them: in every interleaving, wherever compression and
  encryption are switched on and for every chunking of reads, the peer decodes a prefix of the packets
  in lock order, whole, and nothing else. The sender of the play phase keeps its encoder in place while
  it writes (`PlaySender`).
* **The login sequence** (`PrePlay`) and the session hash printed as a signed number (`SignedHex`).
* **The scoreboard** (`Scoreboard`), the validation of a loaded one (`ScoreboardLoad`), and the save
  protocol, which races with changes (`ScoreboardSave`).
* **Enchantment requirements** in three-valued logic (`Requirements`).
* **Player profiles**: the grouped multimap of properties (`ProfileProperties`), the canonical forms
  (`Profiles`), and the NBT and network codecs (`ProfileNbt`, `ProfileNetwork`).
* **Item stacks**: a patch over the item's prototype (`ItemStacks`).
* **Bounds in item predicates**, with Java's order on doubles as bit patterns (`PredicateBounds`).
* **World configuration** with its portal links (`WorldsConfig`).

Code that updates state in place is modelled by classes and loops that are proved equal to a
specification function (`StreamEncryptor`, `StreamDecryptor`, `FrontVec`, `NetworkDecoder`,
`PrePlayState`, `Board`, `ItemStack`); the theorems are about those functions and about whole runs.
Protocols between tasks are state machines whose steps are the awaits of the tasks.

## What the proofs found

Some promises hold only under a condition. Each has a lemma that gives the exact condition.

* `from_packet_data` does not test its frame against `MAX_PACKET_SIZE`, so it can produce a frame
  that the decoder refuses. A frame is received exactly when its body is within the limit
  (`FrameRoundTrip`, `EncodedFrameCanBeRefused`). The documentation of the encoder gives the limit as
  2097151; the constant is 2097152, and the model follows the constant.
* The sender of the play phase leaves the encoder in its slot while it writes. When the connection
  closes between two bytes of a packet, the disconnect packet follows on the same encoder, and the
  peer reads the two spliced together: it then waits for the rest of the first packet
  (`DisconnectIsSwallowed`), or takes the disconnect for a part of it (`DisconnectIsTakenForTheRest`).
  `DisconnectArrivesExactlyAtBoundaries` gives the exact runs on which the disconnect arrives;
  `CloseInsideAPacketHappens` and `SplicedPacketIsReadAsAnother` give one on which the peer decodes a
  packet that nobody sent. The writer of the login phase takes the encoder out instead, and is not
  affected.
* Packets are encoded before the lock is taken, so with two senders at once a packet can be encoded
  without compression and written after compression was announced; the peer then misreads it
  (`PeerDecodesAllIffNothingStale`, `StalePacketsHappen`). The login handlers send one packet after
  the other, and then this cannot happen (`SendingInTurnAgrees`).
* Three-valued evaluation completes each occurrence of an unknown condition on its own, so it can leave
  open what the facts decide (`ExcludedMiddleStaysOpen`); this needs a condition that occurs both plain
  and inverted (`OneSidedVerdictIsExact`).
* An inner writer that answers `Ready(Ok(0))` makes the encryptor lose a byte for good, and count a
  later one in its place (`ZeroLengthWriteLosesStep`).
* The network codec of profiles reads strings up to three bytes per UTF-16 unit, but writes at most
  32767 bytes, so it can read profiles that it cannot write back (`NetworkFixesWhatFits`,
  `LongTextReadsButDoesNotWrite`).
* Identifiers are not checked on construction; one that is empty before the colon, or holds other
  characters, does not survive printing and parsing (`IdRoundTrip`), nor does a skin that uses it.
* The scoreboard's revision is a `u64`; when it comes round, a changed board looks saved. No update
  is lost below 2^64 changes of a board, and that bound is exact (`UpdatesAreSafeExactlyBelowTheBound`).

## Model

| member | source | states |
|---|---|---|
| `CipherStream.StreamEncryptor.PollWrite` | steel-protocol/src/utils.rs:169-216 | The loop over bytes, with a saved byte used before a new one is encrypted, leaves the fields and gives the result that `PollFrom` says, for every list of inner answers |
| `Bytes.XorBitwise` | steel-protocol/src/utils.rs:14-17 | The mask of the cipher is exclusive-or: each of the eight bits of the result is the sum of the two bits modulo 2 |
| `CipherStream.EncryptIsCfb8` | steel-protocol/src/utils.rs:14-17 | A byte string satisfies the standard's wording of CFB-8 (input block j is the last 16 bytes of IV and ciphertext) if and only if it is what `Encrypt` gives |
| `CipherStream.DecryptInvertsEncrypt` | steel-protocol/src/utils.rs:252-274 | Decryption undoes encryption, for any key, any register and any plaintext |
| `CipherStream.PollKeepsStep` | steel-protocol/src/utils.rs:169-216 | One poll over the next unaccepted bytes stays in step: Pending accepts nothing and saves a byte, Ready(n) accepts exactly n, an error loses one byte and delivers nothing wrong |
| `CipherStream.DeliveredIsEncryptionOfAccepted` | steel-protocol/src/utils.rs:164-216 | For every sequence of polls and every schedule of inner answers, the delivered bytes are the CFB-8 encryption of exactly the accepted plaintext, and the cipher is one byte ahead exactly when a saved byte is held |
| `CipherStream.PollDeliversKept` | steel-protocol/src/utils.rs:180-213 | For any answers of the inner writer, a poll delivers the encryption of the bytes it disposes of without those answered with Ready(Ok(0)), and the cipher moves past all of them; it reports Pending exactly when it was stopped with nothing taken, an error exactly when one was met, and otherwise the number taken |
| `CipherStream.ZeroLengthWriteLosesStep` | steel-protocol/src/utils.rs:204-210 | After any poll that does not fail, with or without a saved byte and with any number of Ready(Ok(0)), the stream is in step with what was reported if and only if the bytes taken are the next ones of the encryption and the cipher cannot tell the difference |
| `CipherStream.StreamDecryptor.PollRead` | steel-protocol/src/utils.rs:252-274 | Only what the inner reader appended is decrypted, data already in the buffer and the space behind it stay, and the register moves past exactly that ciphertext; Pending and errors change nothing |
| `CipherStream.StreamDecryptor.DecryptInPlace` | steel-protocol/src/utils.rs:266-271 | The in-place loop replaces a stretch of the buffer by its decryption and touches nothing else |
| `CipherStream.ChunkingIsInvisible` | steel-protocol/src/utils.rs:252-274 | Decrypting in chunks of any sizes equals decrypting the concatenation |
| `CipherStream.ReaderSeesPrefixOfAccepted` | steel-protocol/src/utils.rs:169-274 | Under any write schedule and any chunking of reads, the reader's plaintext is a prefix of the accepted plaintext, and all of it once everything delivered has been read |
| `VarInts.WriteTo` | steel-utils/src/codec/variable_integer.rs:76-89 | The writing loop appends the 7-bit groups of the value |
| `VarInts.ReadFrom` | steel-utils/src/codec/variable_integer.rs:62-73 | The reading loop over at most five bytes gives the value and the bytes used, or says that the input ended or a sixth group follows |
| `VarInts.WriteIsSevenBitGroups` | steel-utils/src/codec/variable_integer.rs:76-89 | The written bytes are the seven-bit digits of the number, least significant first, all but the last with the top bit set, and no digit is wasted |
| `VarInts.ReadMeans` | steel-utils/src/codec/variable_integer.rs:62-73 | Said of the bytes alone: truncated exactly when fewer than five bytes all go on, too long exactly when five do, and otherwise the value of the groups modulo 2^32 |
| `VarInts.WrittenSizeIsLength` | steel-utils/src/codec/variable_integer.rs:21-26 | The size computed from leading zeros is the length of what is written, at most 5 |
| `VarInts.SmallSizes` | steel-utils/src/codec/variable_integer.rs:21-26 | Sizes of small lengths: one byte below 128, at most three below 2097152, at most four below 2^28 |
| `VarInts.ReadInvertsWrite` | steel-utils/src/codec/variable_integer.rs:62-89 | Every 32-bit value is read back, using exactly the bytes written, whatever follows |
| `VarInts.CutWriteIsTruncated` | steel-utils/src/codec/variable_integer.rs:32-46 | No proper prefix of a written value is a value |
| `VarInts.ReadUsesAtLeastWrittenSize` | steel-protocol/src/packet_reader.rs:126-175 | However an integer was encoded, reading it used at least its minimal size and no more than the input, so subtracting that size never underflows |
| `Framing.FrontVec.SetInFront` | steel-utils/src/front_vec.rs:63-73 | A header is prepended to the contents, and the reserved space shrinks by its length |
| `Framing.FrontVec.ExtendFromSlice` | steel-utils/src/front_vec.rs:55-60 | Bytes are appended and the reserved space stays |
| `Framing.SetVarIntInFront` | steel-utils/src/codec/variable_integer.rs:48-59 | Prepends exactly the written VarInt |
| `Framing.FromDataUncompressed` | steel-protocol/src/packet_traits.rs:121-136 | The in-place encoder without compression gives the plain layout, or refuses a frame over the limit; the header fits in the 6 reserved bytes |
| `Framing.FromPacketData` | steel-protocol/src/packet_traits.rs:138-189 | The in-place encoder with compression gives one of the two compressed layouts, by the threshold; headers fit in the 6 and 10 reserved bytes |
| `Framing.EncodePacket` | steel-protocol/src/packet_traits.rs:191-221 | Id and payload are written behind the reserved space and framed as `Encode` says, without running out of space for any input |
| `Framing.EncoderRefusesExactly` | steel-protocol/src/packet_traits.rs:121-146 | What each encoder accepts, with the size it complains about otherwise |
| `Framing.LayoutsAreThese` | steel-protocol/src/packet_traits.rs:121-189 | The three layouts, byte for byte |
| `Framing.NetworkDecoder.GetRawPacket` | steel-protocol/src/packet_reader.rs:110-129 | One packet is read off the input as `Decode` says, and the rest of the input stays |
| `Framing.NetworkDecoder.ParsePacket` | steel-protocol/src/packet_reader.rs:126-176 | All layouts are parsed from one buffer, and the payload start never passes the end of the buffer |
| `Framing.FrameIsRefusedExactly` | steel-protocol/src/packet_reader.rs:110-124 | A frame is refused exactly when its length is negative or over 2097152, or when it is cut off |
| `Framing.BodyIsRefusedExactly` | steel-protocol/src/packet_reader.rs:126-175 | Each refusal of a body with its exact cause: a bad data length, data that does not inflate to that length, an uncompressed body over the threshold, an unreadable id; otherwise the packet |
| `Framing.NetworkDecoder.ReadPackets` | steel-login/src/tcp_client.rs:485-521 | The reading loop, with compression switched on after any packet, reads the packets and leaves the input that `DecodeMany` says, so that `StreamRoundTrip` applies to it |
| `Framing.FrameIsReceived` | steel-protocol/src/packet_reader.rs:110-176 | A frame within the limit, followed by anything, decodes to its id and payload and leaves the rest, for any zlib pair |
| `Framing.FrameRoundTrip` | steel-protocol/src/packet_traits.rs:121-189 | An encoded frame, followed by anything, decodes to its id and payload and leaves the rest, if and only if its body is at most MAX_PACKET_SIZE; without compression it always is |
| `Framing.EncodedFrameCanBeRefused` | steel-protocol/src/packet_traits.rs:138-189 | With a threshold of four million, every packet of three million bytes is encoded and refused by the decoder, whatever the compressor does |
| `Framing.DataLengthIsUnambiguous` | steel-protocol/src/packet_traits.rs:149-189 | Because the threshold is not zero, the data-length field is 0 if and only if the data was left uncompressed |
| `Framing.CutFrameIsNotReceived` | steel-protocol/src/packet_reader.rs:110-129 | A frame that is cut off anywhere gives a read error, never a packet |
| `Framing.PrefixDecodesToWholePackets` | steel-protocol/src/packet_reader.rs:110-176 | From any prefix of a stream of frames, with compression switched on at any packet, the receiver decodes exactly the packets whose frames are whole |
| `Framing.StreamRoundTrip` | steel-protocol/src/packet_reader.rs:110-176 | Decoding the concatenation of any list of encoded packets, with compression switched on at any of them, gives that list and leaves the remaining bytes untouched |
| `Framing.StaleFrameIsMisread` | steel-protocol/src/packet_reader.rs:126-175 | A frame encoded without compression is received intact by a reader with compression if and only if its payload inflates to the packet itself |
| `NetworkWriter.TakeQueuedDisconnect` | steel-login/src/tcp_client.rs:447-469 | Draining the queue on close keeps the disconnect packet queued last, if any |
| `NetworkWriter.LastDisconnectIsTheLast` | steel-login/src/tcp_client.rs:447-469 | The disconnect kept is the one behind which no other is queued |
| `NetworkWriter.StepKeepsWire` | steel-login/src/tcp_client.rs:312-332 | Every step of every task keeps the wire equal to the finished packets followed by what was handed over of the packet in flight |
| `NetworkWriter.SocketHoldsWholePacketsThenOneCut` | steel-login/src/tcp_client.rs:312-332 | In every interleaving of sends, cancellations and failures, the socket holds whole packets in lock order, then at most a prefix of one more; a saved cipher byte is always the next byte of the packet in flight |
| `NetworkWriter.EmptySlotIsFinal` | steel-login/src/tcp_client.rs:312-332 | Once the encoder has been dropped, nothing more is ever written |
| `NetworkWriter.StepKeepsOutgoing` | steel-login/src/tcp_client.rs:359-445 | Every step keeps the record of the outgoing task consistent with the queue and the lock |
| `NetworkWriter.QueuedPacketsKeepTheirOrder` | steel-login/src/tcp_client.rs:359-469 | The outgoing task gets the lock for the packets in the order in which the run enqueued them, without gaps, except perhaps the last one popped, then for at most one parting disconnect; when it has ended the slot is empty |
| `NetworkWriter.DisconnectIsTheLastThingWritten` | steel-login/src/tcp_client.rs:359-469 | In every run only the last item taken from the queue can be a disconnect, behind which the task writes nothing and closes with the connection cancelled; on close the disconnect queued last is written if there is still an encoder; a failed write cancels the connection; the encoder is lost only with a packet in flight or released at the end |
| `NetworkWriter.CancelStopsTheQueue` | steel-login/src/tcp_client.rs:359-367 | From a cancel on, at any point of a run, nothing more is taken from the queue to be written |
| `WriterProgress.ItemIsWritten` | steel-login/src/tcp_client.rs:359-400 | From any state in which the task is idle and the lock free, the next item can be written whole; behind a disconnect the task closes, otherwise it is ready again |
| `WriterProgress.WholeQueueIsWritten` | steel-login/src/tcp_client.rs:359-400 | A run that nothing interrupts writes the whole queue, in order |
| `CompressionSwitch.RunOfTheWriter` | steel-login/src/tcp_client.rs:288-332 | Every run of senders that load the setting, encode and then wait for the slot is a run of the shared writer |
| `CompressionSwitch.StepMatches` | steel-login/src/tcp_client.rs:288-332 | Every step keeps the packets that wait, that are queued and that got the lock equal to the frames of what was encoded |
| `CompressionSwitch.NothingIsExcluded` | steel-login/src/tcp_client.rs:312-332 | No step of the writer is excluded by keeping those records |
| `CompressionSwitch.SettingsAgreeExactlyWithoutStale` | steel-login/src/handlers/login.rs:213-229 | In every run the lock order is that of the encoded packets, and sender and peer agree on the setting of every packet if and only if none was encoded before the store and written after the announcement |
| `CompressionSwitch.PeerDecodesAllIffNothingStale` | steel-login/src/tcp_client.rs:288-300 | In every run, a peer that has read all packets that got the lock decodes exactly those packets if and only if none is stale, self-inflating ones aside |
| `CompressionSwitch.SendingInTurnAgrees` | steel-login/src/handlers/login.rs:213-229 | When packets are sent one after the other, as the login handlers do, no packet is ever stale, also when the login deadline gives the announcement up and a kick follows |
| `CompressionSwitch.AnnouncedOnce` | steel-login/src/handlers/login.rs:213-229 | No run announces compression twice |
| `CompressionSwitch.StalePacketsHappen` | steel-login/src/tcp_client.rs:288-300 | For any two packets there is a run of two senders in which the second is stale |
| `PlaySender.ResumedEncoderSplicesPackets` | steel-core/src/player/connection/java.rs:425-441 | An encoder reused after a write given up between two bytes encrypts the splice of the two packets, for every schedule of polls and inner answers |
| `PlaySender.InPlaceReuseIsSafeExactlyAtBoundaries` | steel-core/src/player/connection/java.rs:425-441 | For every schedule that completes the second write, the peer reads its packet intact if and only if the first was written whole, or not at all with no differing byte saved |
| `PlaySender.StepKeepsInv` | steel-core/src/player/connection/java.rs:852-898 | Every step of the play-phase sender keeps the wire equal to a part of the encryption of the finished packets and what follows them |
| `PlaySender.DisconnectIsTheLastThingTaken` | steel-core/src/player/connection/java.rs:852-898 | In every run the items taken are the packets written, in queue order, and then at most one disconnect; the disconnect written on close is the one queued last; the sender never stops with the connection left open |
| `PlaySender.CloseStopsTheQueue` | steel-core/src/player/connection/java.rs:852-860 | From a close on, nothing more is taken from the queue to be written |
| `PlaySender.WholeQueueIsWritten` | steel-core/src/player/connection/java.rs:852-898 | A run that nothing interrupts writes the whole queue, in order |
| `PlaySender.PeerReadsPrefixOfPlain` | steel-core/src/player/connection/java.rs:852-898 | In every run and for every chunking, the peer reads a prefix of the finished packets followed by the packet in flight, the disconnect, or the splice of the two |
| `PlaySender.DisconnectArrivesExactlyAtBoundaries` | steel-core/src/player/connection/java.rs:433-455 | In every run that wrote its disconnect whole, the peer reads whole packets ending in it if and only if the close came at a packet boundary |
| `PlaySender.PeerDecodesPlayPackets` | steel-core/src/player/connection/java.rs:852-898 | On those runs the peer decodes a prefix of the packets on the wire, whole and in order |
| `PlaySender.DisconnectIsSwallowed` | steel-core/src/player/connection/java.rs:433-455 | In every run that closed inside a frame, behind its length, with a disconnect shorter than what the frame lacks, the peer decodes the finished packets and nothing more |
| `PlaySender.DisconnectIsTakenForTheRest` | steel-core/src/player/connection/java.rs:433-455 | With a longer disconnect, the peer decodes the finished packets, parses the first bytes of the disconnect as the rest of the frame, and goes on inside the disconnect |
| `PlaySender.CloseInsideAPacketHappens` | steel-core/src/player/connection/java.rs:852-898 | For any key there is such a run of the sender, with two real frames, in which the close is not at a boundary and the disconnect is written whole |
| `PlaySender.FramesOfTheRun` | steel-protocol/src/packet_traits.rs:121-136 | The two packets of that run are frames as the encoder makes them |
| `PlaySender.SplicedPacketIsReadAsAnother` | steel-core/src/player/connection/java.rs:852-898 | The peer of that run decodes one packet, which nobody sent |
| `EndToEnd.SealedPartIsOneStream` | steel-protocol/src/packet_writer.rs:110-117 | What the socket holds after encryption was switched on is a prefix of one CFB-8 stream over all later packets, with the key as IV |
| `EndToEnd.PeerReadsPrefixOfLockOrder` | steel-login/src/tcp_client.rs:312-332 | In every run and for every chunking, the peer's plaintext is a prefix of the concatenated packets in lock order |
| `EndToEnd.PeerDecodesPacketsInLockOrder` | steel-protocol/src/packet_reader.rs:110-176 | If the packets that got the lock are frames under the settings that the peer has when it gets there, with compression switched on at any packet, the peer decodes a prefix of them, whole and in lock order, and nothing else |
| `EndToEnd.PeerDecodesAcrossTheSwitch` | steel-login/src/handlers/login.rs:213-229 | For any login that sends in turn, before and after it switches compression on, in every interleaving of its writer and for every chunking, the peer decodes a prefix of the encoded packets, whole and in lock order |
| `EndToEnd.FinishedPacketsAreReceived` | steel-login/src/tcp_client.rs:312-332 | A peer that has read all of the socket has every packet whose write was reported as finished |
| `PrePlay.PassingMeansAccepted` | steel-login/src/pre_play_state.rs:163-192 | Each packet passes in exactly one phase, and there the transition it makes is accepted; elsewhere that is rejected with the packet and the phase and changes nothing |
| `PrePlay.UnguardedCallsAreRejectedExactly` | steel-login/src/pre_play_state.rs:147-227 | Where protocol selection and login completion are accepted, and what is said otherwise |
| `PrePlay.PrePlayState.SelectProtocol` | steel-login/src/pre_play_state.rs:147-161 | Only a handshake moves on, to status or login; any other call is refused and changes nothing |
| `PrePlay.PrePlayState.WaitForKey` | steel-login/src/pre_play_state.rs:194-201 | Hello becomes Key with the requested name, or nothing changes |
| `PrePlay.PrePlayState.BeginAuthentication` | steel-login/src/pre_play_state.rs:203-211 | Takes the requested name out of the Key state, or changes nothing |
| `PrePlay.PrePlayState.CompleteLogin` | steel-login/src/pre_play_state.rs:213-227 | Stores the authenticated profile from Hello or Authenticating only |
| `PrePlay.PrePlayState.AcknowledgeLogin` | steel-login/src/pre_play_state.rs:229-247 | Hands the profile over to configuration, or changes nothing |
| `PrePlay.PrePlayState.SelectKnownPacks` | steel-login/src/pre_play_state.rs:249-256 | Moves configuration on without touching the profile, or changes nothing |
| `PrePlay.PrePlayState.FinishConfiguration` | steel-login/src/pre_play_state.rs:258-271 | Gives the profile away and enters Play, or changes nothing |
| `PrePlay.CallKeepsTrack` | steel-login/src/pre_play_state.rs:147-278 | A rejected call changes nothing; an accepted one extends the path that the state records |
| `PrePlay.PlayNeedsTheWholeSequence` | steel-login/src/pre_play_state.rs:147-278 | In every run of accepted and rejected calls, Play is reached only by opening, one completed login, acknowledgement, known packs and finish, in that order; at most seven calls and one completed login are ever accepted |
| `PrePlay.AcceptedWholeExactlyOnAPath` | steel-login/src/pre_play_state.rs:147-278 | A run is accepted whole if and only if it is the beginning of the status path or of a login, with or without a key exchange |
| `PrePlay.IdentityIsTheCompletedLogin` | steel-login/src/pre_play_state.rs:213-271 | The profile given to play is the one given to the accepted `complete_login` |
| `PrePlay.UsernameIsTheRequestedOne` | steel-login/src/pre_play_state.rs:194-211 | The name given to authentication is the one given to the accepted `wait_for_key` |
| `SignedHex.SignedBytesBeToHex` | steel-login/src/authentication.rs:112-145 | For bytes of any length, the string denotes the big-endian two's-complement value, with a minus sign only for negatives and no leading zeros |
| `SignedHex.Increment` | steel-login/src/authentication.rs:125-131 | The carry loop with its early break adds one to the number in place |
| `SignedHex.PrintTrimmed` | steel-login/src/authentication.rs:133-138 | Trimmed hexadecimal digits denote the same number and do not start with zero |
| `SignedHex.FlippedLeavesRoom` | steel-login/src/authentication.rs:122-131 | The flipped bytes of a negative number plus one are its magnitude, never zero and never too large for the array |
| `SignedHex.CanonicalIsUnique` | steel-login/src/authentication.rs:112-145 | One number has one canonical string, so the contract of the printer determines its result |
| `ScoreboardLoad.Validate` | steel-core/src/scoreboard.rs:442-464 | Accepts exactly the loadable states, and otherwise reports the first fault in the order in which sorted maps are walked |
| `ScoreboardLoad.VerdictIsUnique` | steel-core/src/scoreboard.rs:442-464 | There is only one first fault, so the reported error is determined |
| `ScoreboardLoad.LessIsLexicographic` | steel-core/src/scoreboard.rs:442-464 | The order of the walk is that of a dictionary |
| `Scoreboard.Board.AddObjective` | steel-core/src/scoreboard.rs:209-226 | Refuses empty and duplicate names, otherwise adds; the revision moves exactly when the state changes |
| `Scoreboard.Board.AddTeam` | steel-core/src/scoreboard.rs:251-261 | The same for teams |
| `Scoreboard.Board.AddHolderToTeam` | steel-core/src/scoreboard.rs:291-312 | Replaces the holder's team; joining the same team again does not move the revision |
| `Scoreboard.Board.SetScore` | steel-core/src/scoreboard.rs:350-377 | Refuses missing and read-only objectives; writes the value and keeps the lock; an equal value does not move the revision |
| `Scoreboard.Board.SetScoreLocked` | steel-core/src/scoreboard.rs:380-403 | Writes the lock and keeps the value, read-only or not |
| `Scoreboard.ExecuteKeepsLoadable` | steel-core/src/scoreboard.rs:197-403 | Every operation keeps all references intact, and a refused one leaves the state alone |
| `Scoreboard.OperationsAreRefusedExactly` | steel-core/src/scoreboard.rs:197-403 | For each operation the exact condition of acceptance, and the exact condition of each error |
| `Scoreboard.OperationsChangeExactly` | steel-core/src/scoreboard.rs:197-403 | What an accepted operation changes, lookup by lookup, with everything else as before |
| `Scoreboard.ScoreWritesAreLocal` | steel-core/src/scoreboard.rs:350-403 | A score write changes one entry: value and lock are independent, and nothing else moves |
| `Scoreboard.SameScore` | steel-core/src/scoreboard.rs:350-403 | Writing the score that is there already is no change |
| `Scoreboard.SaveAll` | steel-core/src/scoreboard.rs:554-571 | An uninterrupted save writes the exact state of each dirty board in turn and leaves it clean, up to the first write that fails; the boards from there on stay as they were |
| `ScoreboardSave.StepKeepsInv` | steel-core/src/scoreboard.rs:554-571 | Every mutation and every step of the save task keeps file, board and snapshot of each domain consistent |
| `ScoreboardSave.SavingTouchesOneDomain` | steel-core/src/scoreboard.rs:554-571 | A step of the save task touches the mark and the file of the domain it is at and nothing else; a failed write ends the save |
| `ScoreboardSave.UninterruptedSaveWritesAll` | steel-core/src/scoreboard.rs:554-571 | A save that nothing interrupts leaves every board asked for clean and the exact state of the dirty ones in their files |
| `ScoreboardSave.MarkingSavesExactlyTheSnapshot` | steel-core/src/scoreboard.rs:419-433 | In every run, marking a written snapshot makes the board clean if and only if it has not changed since the snapshot was taken |
| `ScoreboardSave.NoLostUpdates` | steel-core/src/scoreboard.rs:554-571 | In every interleaving with fewer than 2^64 changes of a board, if it has nothing to save then its exact state is in its file, and its saved revision never exceeds its revision |
| `ScoreboardSave.EveryReachableStateReloads` | steel-core/src/scoreboard.rs:442-464 | In every run of any length, every reachable state and every written file passes load validation |
| `ScoreboardSave.UpdatesAreSafeExactlyBelowTheBound` | steel-core/src/scoreboard.rs:415-433 | For every n, no run with fewer than n changes of a board loses an update of it if and only if n is at most 2^64 |
| `Requirements.Evaluate` | steel-core/src/enchantment_helper.rs:723-763 | The recursive evaluators return the verdict and make the draws that the specification says |
| `Requirements.EvaluateTerms` | steel-core/src/enchantment_helper.rs:728-747 | The early-return loop with its has-unknown flag decides a list of terms |
| `Requirements.EvaluatorsKnowExactly` | steel-core/src/enchantment_helper.rs:754-870 | Which leaves each evaluator knows, from what, and which it draws for, with which chance |
| `Requirements.PlayerVerdictIsExact` | steel-core/src/enchantment_helper.rs:944-969 | When a condition on a player is true, and when it is open |
| `Requirements.EntityVerdictIsExact` | steel-core/src/enchantment_helper.rs:905-970 | When a condition on an entity is true, and when it is open |
| `Requirements.TypeVerdictIsExact` | steel-core/src/enchantment_helper.rs:872-903 | When a condition is true or false of an entity of which only the type is known |
| `Requirements.SourceVerdictIsExact` | steel-core/src/enchantment_helper.rs:984-998 | When a condition on the damage holds |
| `Requirements.DecidedIffAllCompletionsAgree` | steel-core/src/enchantment_helper.rs:723-763 | Strong Kleene logic decides a tree if and only if every completion of its unknown leaves has that two-valued verdict |
| `Requirements.KnowledgeIsMonotone` | steel-core/src/enchantment_helper.rs:723-763 | Knowing more about the leaves never changes a verdict |
| `Requirements.OrderDoesNotMatter` | steel-core/src/enchantment_helper.rs:723-763 | Three-valued truth does not depend on the order of terms in the lists of any depth |
| `Requirements.PermutationsAreReorderings` | steel-core/src/enchantment_helper.rs:723-763 | Every permutation of a list of terms is such a reordering |
| `Requirements.EvaluationIsKleene` | steel-core/src/enchantment_helper.rs:765-808 | Any evaluation is the Kleene verdict of the tree evaluated from the left up to the first term that decides each list; the numbers drawn are consecutive, one for each leaf met that draws, and a number below its chance is a yes |
| `Requirements.SureChancesAreKnown` | steel-core/src/enchantment_helper.rs:800-805 | With draws from 0 up to 1, a leaf with chance at least 1 may be taken for a known yes and one with chance at most 0 for a known no, without changing the verdict |
| `Requirements.DrawlessIsKleene` | steel-core/src/enchantment_helper.rs:723-763 | An evaluator without draws computes the Kleene verdict of its tree |
| `Requirements.DamageVerdictIsSoundAndComplete` | steel-core/src/enchantment_helper.rs:723-763 | `requirements_state` decides a requirement if and only if all completions of its unknown leaf occurrences agree |
| `Requirements.ItemVerdictIsSoundAndComplete` | steel-registry/src/enchantment/effect.rs:339-373 | `matches_item_context` decides a requirement if and only if all completions of its unknown leaf occurrences agree |
| `Requirements.VerdictHoldsOfTheFacts` | steel-core/src/enchantment_helper.rs:723-763 | A verdict is the truth under all facts that agree with what was known, each condition having one truth wherever it occurs |
| `Requirements.OneSidedVerdictIsExact` | steel-core/src/enchantment_helper.rs:723-763 | If no unknown condition occurs both plain and inverted, a verdict is reached if and only if all such facts give it |
| `Requirements.ExcludedMiddleStaysOpen` | steel-core/src/enchantment_helper.rs:723-763 | Otherwise it can stay open: a condition on an unknown attacker or its inverse is always true and not decided |
| `Requirements.DamageVerdictIgnoresOrder` | steel-core/src/enchantment_helper.rs:723-763 | The verdict of `requirements_state` does not depend on the order of terms at any depth of the tree |
| `Requirements.RandomRefinesDeterministic` | steel-core/src/enchantment_helper.rs:723-808 | Whatever `requirements_state` decides, `requirements_state_with_random` decides the same way at every level and for all draws |
| `Requirements.TypeVerdictHoldsForEntity` | steel-core/src/enchantment_helper.rs:875-970 | A verdict from the entity type alone is the verdict for the whole entity |
| `Requirements.EvaluatorsNeverContradict` | steel-core/src/enchantment_helper.rs:723-873 | `requirements_state` and `entity_requirements_state` never give opposite verdicts for the same entity |
| `ProfileProperties.New` | steel-registry/src/resolvable_profile.rs:102-117 | More than the limit is refused; otherwise the properties come out grouped by name |
| `ProfileProperties.GroupAll` | steel-registry/src/resolvable_profile.rs:106-115 | Inserting one by one behind the last property of the same name gives the grouped list |
| `ProfileProperties.InsertExtendsByName` | steel-registry/src/resolvable_profile.rs:106-115 | One insertion into a grouped list is grouping the list with one more property |
| `ProfileProperties.ByNameKeepsMultimap` | steel-registry/src/resolvable_profile.rs:102-117 | Grouping keeps the values of every name and their order |
| `ProfileProperties.ByNameIsContiguous` | steel-registry/src/resolvable_profile.rs:102-117 | After grouping, equal names are contiguous |
| `ProfileProperties.GroupsAreInFirstOccurrenceOrder` | steel-registry/src/resolvable_profile.rs:102-117 | Groups stand in the order in which their names first occur |
| `ProfileProperties.ByNameIsIdempotent` | steel-registry/src/resolvable_profile.rs:102-117 | Grouping a grouped list changes nothing |
| `ProfileProperties.PropertyGroupEnd` | steel-registry/src/resolvable_profile.rs:154-162 | Finds the end of the run of equal names that starts at an index |
| `ProfileProperties.Equal` | steel-registry/src/resolvable_profile.rs:128-150 | On grouped lists the index-walking comparison is true if and only if every name has the same values on both sides |
| `ProfileProperties.GroupingDecidesEquality` | steel-registry/src/resolvable_profile.rs:102-150 | Comparing grouped lists is comparing the original multimaps |
| `Profiles.IdRoundTrip` | steel-utils/src/types/identifier.rs:78-150 | Printing and parsing an identifier gives it back if and only if it is valid with a namespace |
| `Profiles.IdentifiersAreTheseExactly` | steel-utils/src/types/identifier.rs:78-108 | The characters of namespaces and paths |
| `Profiles.IdentifiersAreParsedExactly` | steel-utils/src/types/identifier.rs:130-150 | The first colon ends the namespace, `minecraft` stands in for a missing or empty one, and exactly the valid ones are accepted |
| `Profiles.CharacterInFront` | steel-registry/src/resolvable_profile.rs:558-565 | A character in front keeps a text valid and counts for one UTF-16 unit, or two beyond the basic plane |
| `Profiles.ValidTextIsCharacters` | steel-registry/src/resolvable_profile.rs:558-565 | Every valid text is made of characters |
| `Profiles.LimitsAreThese` | steel-registry/src/resolvable_profile.rs:29-46 | The limits on names, values, signatures and their number |
| `Profiles.PartialFormsAreExact` | steel-registry/src/resolvable_profile.rs:375-390 | A partial profile becomes dynamic exactly when it has nothing but a name, or nothing but an id |
| `Profiles.FormsKeepIdentity` | steel-registry/src/resolvable_profile.rs:375-390 | Neither canonical form changes name, id, properties or skin |
| `Profiles.FormsAreIdempotent` | steel-registry/src/resolvable_profile.rs:375-390 | Both canonical forms are idempotent and commute; they differ exactly on partial profiles with name and id |
| `ProfileNbt.UuidRoundTrip` | steel-utils/src/uuid_ext.rs:23-47 | Every UUID survives its four signed integers |
| `ProfileNbt.UuidWordsAreBigEndian` | steel-utils/src/uuid_ext.rs:23-32 | The four integers are the big-endian two's-complement words of the id, in order |
| `ProfileNbt.NbtRoundTrip` | steel-registry/src/resolvable_profile.rs:391-445 | Decoding an encoded profile gives its NBT form if and only if its skin identifiers are valid; a partial profile with name and id comes back full |
| `ProfileNbt.DecodedIsCanonical` | steel-registry/src/resolvable_profile.rs:419-445 | Whatever decodes, from the list or the map layout of properties, is valid and in NBT form |
| `ProfileNbt.EncodedFieldsAreThese` | steel-registry/src/resolvable_profile.rs:391-417 | What each field of an encoded profile holds, under its name |
| `ProfileNbt.CompoundIsReadExactly` | steel-registry/src/resolvable_profile.rs:419-445 | Which compounds decode, and to which identity and skin |
| `ProfileNbt.StringIsAName` | steel-registry/src/resolvable_profile.rs:419-425 | A string decodes to a dynamic profile of that name exactly when it is a player name |
| `ProfileNbt.ListLayoutIsReadExactly` | steel-registry/src/resolvable_profile.rs:589-627 | Which lists of properties are read |
| `ProfileNbt.PropertyIsReadExactly` | steel-registry/src/resolvable_profile.rs:72-83 | Which compounds are a property, and which |
| `ProfileNbt.MapLayoutIsReadExactly` | steel-registry/src/resolvable_profile.rs:589-627 | The map layout is accepted exactly with at most 16 entries and values, all strings within the limits, and gives those values under their names, in order and unsigned |
| `ProfileNbt.SkinIsReadExactly` | steel-registry/src/resolvable_profile.rs:644-667 | Which skin fields are read, and to what |
| `ProfileNbt.NbtFixesWhatItProduces` | steel-registry/src/resolvable_profile.rs:391-445 | Encoding and decoding again fixes every profile that NBT can produce |
| `ProfileNetwork.ReadPropertyLoop` | steel-registry/src/resolvable_profile.rs:737-757 | The loop over the announced number of properties reads what the recursive specification reads |
| `ProfileNetwork.ReadPropertiesNetwork` | steel-registry/src/resolvable_profile.rs:737-757 | Count and properties are read as the specification reads them; a negative count or one above the limit is refused |
| `ProfileNetwork.NetworkRoundTrip` | steel-registry/src/resolvable_profile.rs:447-485 | Decoding what was encoded, followed by anything, gives the network form and leaves the rest, if and only if the skin identifiers are valid |
| `ProfileNetwork.EncodesExactlyWhenItFits` | steel-registry/src/resolvable_profile.rs:669-806 | A valid profile can be written if and only if its property values and printed identifiers are within the write bound |
| `ProfileNetwork.DecodedIsCanonical` | steel-registry/src/resolvable_profile.rs:471-485 | Whatever decodes is valid and in network form |
| `ProfileNetwork.ProfileBytesAreThese` | steel-registry/src/resolvable_profile.rs:447-470 | The bytes of a profile: whether it is full, identity, properties, skin |
| `ProfileNetwork.PropertyListBytesAreThese` | steel-registry/src/resolvable_profile.rs:723-736 | The properties, one after the other |
| `ProfileNetwork.PropertyBytesAreThese` | steel-registry/src/resolvable_profile.rs:723-736 | The bytes of a property: name, value, optional signature |
| `ProfileNetwork.SkinBytesAreThese` | steel-registry/src/resolvable_profile.rs:759-772 | The bytes of a skin: texture, cape, elytra, and the model as a flag |
| `ProfileNetwork.FlagsAndIdsAreReadExactly` | steel-registry/src/resolvable_profile.rs:675-722 | Any byte but zero is a yes, and an id is sixteen bytes |
| `ProfileNetwork.TextIsReadExactly` | steel-registry/src/resolvable_profile.rs:802-806 | A string is refused exactly when it is too long, cut off or no text |
| `ProfileNetwork.TextIsWrittenExactly` | steel-registry/src/resolvable_profile.rs:797-801 | A string is written exactly within its limit and 32767 bytes |
| `ProfileNetwork.IdIsReadExactly` | steel-registry/src/resolvable_profile.rs:789-796 | An identifier is read exactly from a string of at most 32767 bytes that parses |
| `ProfileNetwork.NetworkFixesWhatFits` | steel-registry/src/resolvable_profile.rs:447-485 | A decoded profile is written and read back as itself if and only if it fits the write bound |
| `ProfileNetwork.LongTextReadsButDoesNotWrite` | steel-registry/src/resolvable_profile.rs:797-806 | A string of more than 32767 bytes that passes every check is read and then cannot be written |
| `ProfileNetwork.LongPropertyValuesExist` | steel-registry/src/resolvable_profile.rs:797-806 | There is such a string within the limit for property values |
| `ItemStacks.ItemStack.constructor` | steel-registry/src/item_stack.rs:88-91 | A stack is made with a minimal patch that has the given components |
| `ItemStacks.ItemStack.SetComponent` | steel-registry/src/item_stack.rs:459-468 | Setting is reflected in the components and keeps the patch minimal |
| `ItemStacks.ItemStack.RemoveComponent` | steel-registry/src/item_stack.rs:471-478 | The same for removal |
| `ItemStacks.ItemStack.ClearComponent` | steel-registry/src/item_stack.rs:481-483 | The same for a return to the prototype's value |
| `ItemStacks.ItemStack.SetItem` | steel-registry/src/item_stack.rs:846-851 | The item changes and the patch is made minimal against the new one; an unknown item changes nothing |
| `ItemStacks.ItemStack.GetEffectiveValueRaw` | steel-registry/src/item_stack.rs:432-440 | Reads the component map that patch and prototype stand for |
| `ItemStacks.ItemStack.HasComponent` | steel-registry/src/item_stack.rs:335-341 | True exactly for the keys of that map |
| `ItemStacks.SanitizeKeepsComponents` | steel-registry/src/data_components/registry/patch.rs:142-150 | Sanitizing makes any patch minimal and keeps the components |
| `ItemStacks.MinimalPatchIsUnique` | steel-registry/src/item_stack.rs:88-91 | Minimal patches over one prototype are equal if and only if they stand for the same components |
| `ItemStacks.ApplyDoesWhatItMeans` | steel-registry/src/item_stack.rs:459-483 | Every operation keeps the patch minimal and changes the component map as it says, and no other key |
| `ItemStacks.PatchStaysMinimal` | steel-registry/src/item_stack.rs:88-91 | After any sequence of operations the patch is minimal |
| `ItemStacks.PatchEqualityIsComponentEquality` | steel-registry/src/item_stack.rs:1006-1045 | For stacks of one item, with any histories, equal patches and equal components are the same thing |
| `ItemStacks.GatherKeys` | steel-registry/src/item_stack.rs:1006-1035 | The two loops gather exactly the keys of the component map |
| `ItemStacks.ComponentsEqual` | steel-registry/src/item_stack.rs:1006-1045 | True if and only if the component maps are equal |
| `ItemStacks.IsSameItemSameComponents` | steel-registry/src/item_stack.rs:350-358 | A stack is empty if it is air or its count is not positive; the result is true for two empty stacks, false for one, and otherwise true if and only if item and components agree; then valid stacks have equal patches |
| `PredicateBounds.UnitsGrow` | steel-registry/src/item_predicate.rs:216-224 | Larger magnitude patterns are larger numbers, across all exponents and subnormals |
| `PredicateBounds.UnitsFollowTheLayout` | steel-registry/src/item_predicate.rs:216-224 | Patterns stand for the numbers that exponent and fraction fields say |
| `PredicateBounds.CompareIsRankOrder` | steel-registry/src/item_predicate.rs:216-231 | On all 64-bit patterns the comparison is the comparison of an integer rank |
| `PredicateBounds.CompareIsTotalPreorder` | steel-registry/src/item_predicate.rs:212-231 | It is a total preorder whose equivalence is `java_double_equals`, with NaN greatest and -0 below +0 |
| `PredicateBounds.NewDouble` | steel-registry/src/item_predicate.rs:117-127 | Double bounds are accepted exactly when ordered in Java's sense |
| `PredicateBounds.IntegersAreReadExactly` | steel-utils/src/nbt/codec.rs:34-44 | Every integer tag is read as it is, a long cut down to 32 bits |
| `PredicateBounds.OnlyNumbersAreRead` | steel-utils/src/nbt/codec.rs:34-69 | Exactly the numeric tags are numbers |
| `PredicateBounds.IntBoundsAreReadExactly` | steel-registry/src/item_predicate.rs:70-79 | A number is a range of one; a compound is the range of its fields, refused exactly when one is no number or they are out of order |
| `PredicateBounds.DoubleBoundsAreReadExactly` | steel-registry/src/item_predicate.rs:151-160 | The same for doubles |
| `PredicateBounds.BoundsAreWrittenExactly` | steel-registry/src/item_predicate.rs:81-96 | A range of one is written as its number, any other as the fields of the ends there are |
| `PredicateBounds.DoubleBoundsAreWrittenExactly` | steel-registry/src/item_predicate.rs:162-177 | The same for doubles, with equality in Java's sense |
| `PredicateBounds.IntRoundTrip` | steel-registry/src/item_predicate.rs:70-96 | Integer bounds survive NBT, in the scalar and the compound form |
| `PredicateBounds.DoubleRoundTrip` | steel-registry/src/item_predicate.rs:151-177 | Double bounds come back equal in Java's sense, and bit for bit unless both are NaNs of different patterns |
| `WorldsConfig.ResolveTarget` | steel-core/src/config.rs:547-574 | A portal target becomes an identifier of the same domain exactly when its name is valid and not the source's own |
| `WorldsConfig.NamesAreTheseExactly` | steel-core/src/config.rs:693-709 | The characters of names, and the names that domains may not have |
| `WorldsConfig.ResolveWorld` | steel-core/src/config.rs:487-545 | A world resolves exactly when its own entry is in order |
| `WorldsConfig.ResolveWorlds` | steel-core/src/config.rs:439-465 | The loop succeeds exactly when all entries are in order, names are distinct and at most one is default |
| `WorldsConfig.ValidateTargets` | steel-core/src/config.rs:593-663 | The second loop finds no fault exactly when every target is a world of the list and End portals lead into the End |
| `WorldsConfig.ResolveDomain` | steel-core/src/config.rs:416-484 | A domain resolves if and only if it is in order, and then to its own worlds and its one default world; otherwise the error names a fault that is there |
| `WorldsConfig.ResolveDomains` | steel-core/src/config.rs:382-398 | The loop over domains succeeds exactly when each is in order and at most one is default |
| `WorldsConfig.ValidateAndResolve` | steel-core/src/config.rs:350-411 | The configuration resolves if and only if it is in order, and then to its own domains, worlds, save path and player storage; otherwise the error names a fault that is there; the check for no worlds never fires |
| `WorldsConfig.WorldsAreWhatWasDeclared` | steel-core/src/config.rs:487-545 | What every resolved world is made of; its storage is its own, else that of its domain, else that of the root, else the default |
| `WorldsConfig.DefaultsAndKeysAreUnique` | steel-core/src/config.rs:382-404 | A resolved configuration has one default domain, one default world in each domain, and no two worlds with one key |
| `WorldsConfig.KeyFindsWorld` | steel-core/src/config.rs:443-475 | Worlds with one key are one world of one domain |
| `WorldsConfig.PortalsStayInTheirDomain` | steel-core/src/config.rs:547-663 | Every portal target is a different declared world of the same domain; End portals lead from outside the End to worlds in the End without End targets, so no chain has two hops |

## Left out

- AES, zlib, RSA and SHA: AES is an arbitrary function of the shift register, zlib (RFC 1950) an inverse pair; only the if-and-only-if of `FrameRoundTrip` also uses that it at most doubles its input plus 1024 bytes.
- Sockets, the tokio runtime, HTTP authentication, logging, kick texts and login deadlines: only the step structure of the writer slot is modelled.
- The random generator is an arbitrary sequence of numbers; probabilities and chances are real numbers, not `f32`.
- NetworkWriter.StepKeepsWire: a second key is not a step, because `set_encryption` panics there; a poll answer of Ready(Ok(0)) is excluded, as `ZeroLengthWriteLosesStep` explains.
- PlaySender.StepKeepsInv: the sender has the writer to itself, as it does once play has begun; packets are not empty, since every frame has a length.
- CompressionSwitch.StepMatches: packets encoded once for all connections are not modelled; they are sent after the store, under the same setting.
- Requirements.Evaluate: the source repeats the same recursion for each evaluator; the model has it once, with the treatment of leaves as a parameter. Application of effects is not part of this model.
- Requirements.EvaluatorsNeverContradict: assumes that players are exactly the entities of the player type.
- ScoreboardSave.NoLostUpdates: serialization to TOML is the identity, and worlds kept in memory only are not modelled.
- ProfileNbt.NbtRoundTrip: compounds are lists of named tags; the byte layout of NBT and its string encoding are not modelled.
- ProfileNetwork.NetworkRoundTrip: codecs are functions from bytes to a value and the rest instead of methods on a cursor, except for the loop over properties; values hold UTF-8 text, as `String` does.
- ItemStacks.ComponentsEqual: component values compare by a lawful equality, so a component that holds a NaN is outside the model; the order in which hash maps are walked is arbitrary.
- PredicateBounds.DoubleRoundTrip: casts from and to floating-point tags of another kind are arbitrary functions, because encoded bounds never need them.
- WorldsConfig.ValidateAndResolve: the cascade of game mode, difficulty and seed is not modelled; of several faults it is not said which is reported; generators, storages and path rules are arbitrary predicates.
- Hashing of components, registry tables, enum tables, macros, world generation and entity code are not modelled: they copy fields or list finite cases.
