# KChat core: verified models

Dafny models of four parts of the KChat SDK, with proofs about whole runs of them.

1. **Encrypted backup objects (KCBK V1).** `Envelope`, `Writer`, `Sealing` model the writer: a compressed stream is cut
   into 64 KiB blocks, each sealed at its own position of an AEAD stream, under three running caps and a running
   hash. `Reader`, `Opening` model the reader with its one length of lookahead, `ZstdHeader` and `Decoder` the
   byte-by-byte header gate and the bounded single-frame decoder. `ObjectTheorems`, `DecoderLaws`, `Integrity` and
   `EndToEnd` hold the results: round trip, integrity of whole writer runs, size bounds. `Refusals` says with which error
   each kind of damage is refused.
2. **The write-ahead decrypt cache.** `Wal` models the cached decrypt, the cache table, pruning and group deletion;
   `WalRuns` the runs: crash safety, single use of ratchet keys, retries, and why pruning is invisible.
3. **The epoch-secrets migration.** `Migration` models one interrupted or uninterrupted start; `MigrationRuns` shows
   that every run is all-or-nothing per group, how fast it finishes, and exactly when it never does.
4. **The batch reconciler.** `Reconcile` models `process_all_messages`; `ReconcileLaws` compares its outcome with the
   server's commit log. `ReconcileNames` says what ids, jids and proposals mean without the code's string functions,
   `ReconcileMembers` which members are reported, and `ReconcileTurns` what comes of whole turns and calls: created groups,
   welcomes, errors, and the independence of the groups of a call.

Code that updates state in place is a class or a method with a loop, proved equal to a specification function on
values; the lemmas are about those functions.

## How the outside is modelled

- Byte source and sink (`Io`): short reads of any size, storage faults, over-reported counts and cancellation happen
  whenever they like; constants `faulty`, `cancellable` and `reliable` say whether they may. A source may not be read
  again after end of file nor with an empty buffer, and no chunk may exceed 64 KiB: these are preconditions, so every
  caller is proved to respect them.
- The cipher (`Envelope.Aead`) is a pair of functions of nonce prefix, block counter, final flag and data, for one key
  and one canonical context. `Sized` fixes the 16-byte tag, `Correct` adds that decryption undoes encryption, `Ideal`
  says instead that only what the key's writers sealed decrypts, and only in its place. What a writer sealed is not
  assumed: `EnvelopeWriter` records every call of its encryptor, and `Sealing.Drive` shows that over any run the calls are
  exactly the blocks of one session.
- The Zstd decoder (`Decoder.Zstd`) is a step machine returning bytes read, bytes written and a remaining hint;
  `DecoderLaws.Format.Implements` is its contract. The encoder (`Sealing.Encoder`) says which writes each chunk causes.
  `Witness` shows that these contracts can be met together: `Witness.RoundTripContractsAreSatisfiable` gives a cipher, a
  decoder and an encoder for all contents that meet everything `EndToEnd.SealThenOpen` assumes, and
  `Witness.IntegrityContractsAreSatisfiable` an ideal cipher for any ledger.
- SHA-256, clocks, the nonce prefix, the MLS library's decryption and the snapshot export are parameters. SQL tables
  are maps (for the migration a sequence in rowid order) and a transaction commits everything or changes nothing.
- In the reconciler a commit is accepted only from its parent state, by a current member, and not by its author. A
  commit's label is taken to be the epoch it creates, as `get_first_message` assumes
  (crates/kchat-mls/src/lib.rs:845-861); the helper at crates/kchat-mls/tests/process_all_messages.rs:114-119 labels
  with the epoch before, but never together with a pending operation. Nothing is assumed about the sender field of a
  message: it may be empty, partial or someone else's name.

## Findings

- The conditional upsert of the cache can skip silently after a miss: the table's key omits the provider version, so an
  unexpired row of another version is invisible to the load and still blocks the write. `Wal.UpsertAfterMiss` gives the
  exact condition, `WalRuns.MissCachesIffNotBlocked` the same for a whole call and `Wal.OtherVersionRowLosesTheCache` an
  instance; while that row lives the decrypt cannot be repeated (`WalRuns.BlockedRetryFails`). In runs that start without
  rows of another version it never happens (`WalRuns.MissAlwaysCaches`).
- The migration can stop for good with groups left to migrate. Let each start list the stuck rows seen so far again and
  fill its batch of twenty up with older rows (`MigrationRuns.Listed`). Everything is migrated if and only if some number of
  starts lists every migratable row and no undecodable id (`MigrationRuns.Clears`,
  `MigrationRuns.MigrationFinishesIffRowsClear`). That needs every migratable row to have fewer than twenty newer stuck
  rows, and where every id can be decoded it needs nothing else (`MigrationRuns.ClearsIffNoneStarved`).
  `MigrationRuns.TwentyStuckRowsStarve` is a database that starves a row; in that of `MigrationRuns.UndecodableRowStops`
  nobody starves and the first batch can be listed, but the next start meets an undecodable id and every later one does.
  All this is for uninterrupted starts. Interruptions change which rows a batch takes in, so with undecodable ids the outcome
  depends on where they fall. A run whose last batch can still be listed has migrated everything if m groups were
  migratable and it had m uninterrupted starts and no row starves (`MigrationRuns.RunFinishesIffNoneStarved`), or if k < 20
  rows are stuck and it had n of them with n(20 - k) >= m (`MigrationRuns.AllMigratedInTime`); a run that meets an undecodable
  id stays there (`MigrationRuns.UnreadableRowBlocksForever`), and one that starves a row never finishes.
- The reconciler recognises an own commit by the sender field of the message, not by its content. A tree update is merged
  exactly when the server's commit for the slot names the client; a merged client reaches the server's state if and only
  if that commit is the pending one and the rest can be followed, a cleared one if and only if the log can be followed from
  the base (`ReconcileLaws.TreeUpdateConverges`). That the update is merged exactly when the server's commit is the client's
  own holds if and only if the sender field tells the truth about that (`ReconcileLaws.TreeUpdateIsDecidedRightly`, and
  `ReconcileLaws.ExternalJoinIsDecidedRightly` for the deletion of a joined group). `ReconcileLaws.MergedTheWrongCommit` is
  a client that merges another commit than the server's, `ReconcileLaws.ClearedForAnEmptySender` one whose pending commit
  the server decided for and that is cleared all the same. A tree update cleared because the server had not decided yet is
  caught up with if and only if the client can follow the log from its base, so never if the server then decides for it
  (`ReconcileLaws.ClearedUpdateCatchesUpIff`); `ReconcileLaws.ClearedTooEarly` is such a client.
- The header check refuses a set unused bit, which section 3.1.1.1.1.3 of RFC 8878 tells a decoder to ignore. Apart from
  that it accepts exactly the headers the standard allows without dictionary and within both caps
  (`ZstdHeader.AcceptsAllButUnusedBit`); `ZstdHeader.UnusedBitIsRefused` is a six-byte header that is legal and refused.

## Model

| member | source | states |
|---|---|---|
| `Io.ByteSource.ReadChunk` | crates/kchat-backup/src/object/io.rs:3-11 | what any source may do: short reads in order, zero only at the end and never asked again, faults only if faulty |
| `Io.ByteSink.WriteChunk` | crates/kchat-backup/src/object/io.rs:13-15 | a sink appends at most 64 KiB, or fails with a code of its own having taken some part |
| `Envelope.HeaderRoundTrip` | crates/kchat-backup/src/object/envelope.rs:25-50 | parsing accepts exactly the serialized headers and recovers the nonce prefix |
| `Envelope.HeaderLayout` | crates/kchat-backup/src/object/envelope.rs:25-50 | in literal bytes: "KCBK", then 0,1 three times, then the prefix is written; exactly that beginning is accepted, anything else is unsupported |
| `Envelope.LengthLayout` | crates/kchat-backup/src/object/writer.rs:284-286 | lengths are four bytes, high byte first, written and read |
| `Common.Limits` | crates/kchat-backup/src/limits.rs:1-6 | the limits in plain numbers |
| `Writer.EnvelopeWriter.New` | crates/kchat-backup/src/object/writer.rs:200-225 | the header is the first thing sent; it fails only with the sink |
| `Writer.EnvelopeWriter.WriteEnvelopeBytes` | crates/kchat-backup/src/object/writer.rs:289-300 | count, hash and sink stay in step; refused exactly past 256 MiB, with nothing sent; any other error is the sink's, and then only a prefix went out |
| `Writer.EnvelopeWriter.WriteEncryptedBlock` | crates/kchat-backup/src/object/writer.rs:276-287 | one length-prefixed frame and one block counted; a ciphertext of impossible length is an invalid state without effect; otherwise an error is the sink's own or a resource error for the ciphertext or block cap |
| `Writer.EnvelopeWriter.FlushBlock` | crates/kchat-backup/src/object/writer.rs:259-271 | the first pending block goes out sealed at its position, the counters describe the longer opening, and the encryptor was called for the next block |
| `Writer.EnvelopeWriter.FlushBlocks` | crates/kchat-backup/src/object/writer.rs:258-273 | the loop ends with less than a block pending, or with a stream whose opening exceeds the cap |
| `Writer.EnvelopeWriter.WriteCompressed` | crates/kchat-backup/src/object/writer.rs:251-274 | for any split into writes the sink holds header and all full blocks of the stream so far; refused exactly when these pass the ciphertext cap, never for the other caps; even on failure the encryptor was called for a beginning of the blocks only |
| `Writer.EnvelopeWriter.Write` | crates/kchat-backup/src/object/writer.rs:307-314 | the same, bounds on what reached the sink included, and the failure code is remembered |
| `Writer.EnvelopeWriter.Finish` | crates/kchat-backup/src/object/writer.rs:227-249 | the sink holds the sealed object of the whole stream and the descriptor its size and hash; refused exactly when it exceeds 256 MiB; the final block has been sealed even if sending it fails |
| `Sealing.Forward` | crates/kchat-backup/src/object/writer.rs:302-314 | the encoder's writes reach the envelope in order up to the first failure, whose code, the sink's own or the ciphertext cap's, is returned; what has been sealed is a session of a beginning of the stream |
| `Sealing.Close` | crates/kchat-backup/src/object/writer.rs:154-174 | finishing succeeds exactly when the sealed size of all compressed bytes is at most 256 MiB, unless the sink fails, whose code is then returned; a final block is sealed only for the whole stream |
| `Sealing.BackupObjectWriter.WritePlaintext` | crates/kchat-backup/src/object/writer.rs:114-148 | accepts a chunk, or fails for good; refused without effect in a terminal state |
| `Sealing.BackupObjectWriter.Finish` | crates/kchat-backup/src/object/writer.rs:150-175 | a descriptor only together with the whole object in the sink, then terminal |
| `Sealing.BackupObjectWriter.Abort` | crates/kchat-backup/src/object/writer.rs:177-184 | terminal without writing |
| `Sealing.Step` | crates/kchat-backup/src/object/writer.rs:114-184 | any call in a terminal state is refused and writes nothing; only a successful write keeps the writer active |
| `Sealing.Drive` | crates/kchat-backup/src/object/writer.rs:86-185 | over any script and any sink: after the first reply that is not a successful write all calls are refused; a descriptor gives size and hash of exactly what the sink received, the object of the chunks written; the encryptor was called exactly for the blocks of one session, a beginning of that object, finished only by a finish call |
| `Sealing.DriveOn` | crates/kchat-backup/src/object/writer.rs:115-180 | every call of a terminal writer is refused, writes nothing and seals nothing |
| `Sealing.NextChunk` | crates/kchat-backup/src/object/writer.rs:56-62 | the next piece of the source, or its end |
| `Sealing.PumpChunk` | crates/kchat-backup/src/object/writer.rs:51-68 | one round: the next piece is fed, or the source is at its end, or an error; without faults only for exceeding the caps |
| `Sealing.Pump` | crates/kchat-backup/src/object/writer.rs:51-68 | the writer is fed the whole source in order, in non-empty pieces, or an error |
| `Sealing.SealObject` | crates/kchat-backup/src/object/writer.rs:41-74 | success means the sink received exactly the sealed object of the whole source, within the caps; without faults the only failure is a resource limit, and then no way of reading the rest would have fitted |
| `Integrity.FramingClosedForm` | crates/kchat-backup/src/object/writer.rs:227-287 | full frames for the full blocks, one always shorter final frame, each in its computed place |
| `Integrity.CiphertextCapClosedForm` | crates/kchat-backup/src/object/writer.rs:289-294 | the cap allows exactly compressed streams of at most 268,353,527 bytes, where the object is exactly 256 MiB |
| `Integrity.OtherCapsNeverBind` | crates/kchat-backup/src/object/writer.rs:251-284 | within the ciphertext cap there are at most 4,095 blocks and under 256 MiB of compressed bytes |
| `ZstdHeader.AcceptsAllButUnusedBit` | crates/kchat-backup/src/object/compression.rs:126-169 | against section 3.1.1.1 of RFC 8878, read apart from the code: exactly the complete dictionary-free headers within both caps are accepted, at their length, except those with the unused bit set |
| `ZstdHeader.HeaderRefusals` | crates/kchat-backup/src/object/compression.rs:126-169 | exactly which headers are invalid, which over the limit, and that at most 14 bytes are ever asked for |
| `ZstdHeader.ContentValues` | crates/kchat-backup/src/object/compression.rs:149-158 | content sizes have the ranges section 3.1.1.1.4 of RFC 8878 gives for one and two bytes |
| `ZstdHeader.WindowValues` | crates/kchat-backup/src/object/compression.rs:161-164 | windows have the bounds section 3.1.1.1.2 of RFC 8878 gives: 1 KiB to 3.75 TiB |
| `ZstdHeader.UnusedBitIsRefused` | crates/kchat-backup/src/object/compression.rs:134-136 | a legal header within the caps that is refused |
| `ZstdHeader.ScanIsStable` | crates/kchat-backup/src/object/compression.rs:49-57 | a header verdict never changes with more input |
| `ZstdHeader.ScanStopsAtHeader` | crates/kchat-backup/src/object/compression.rs:126-148 | an acceptable header is accepted at exactly its own length, on every prefix asked |
| `ZstdHeader.DescriptorBits` | crates/kchat-backup/src/object/compression.rs:133-144 | the bit masks select the RFC 8878 descriptor fields |
| `ZstdHeader.ReadSize` | crates/kchat-backup/src/object/compression.rs:149-158 | the OR-and-shift loop computes the little-endian content size, without wrapping |
| `ZstdHeader.ReadWindow` | crates/kchat-backup/src/object/compression.rs:161-164 | the window of section 3.1.1.1.2 of RFC 8878, without wrapping |
| `ZstdHeader.CheckHeader` | crates/kchat-backup/src/object/compression.rs:126-169 | on every input the verdict on the whole header: more bytes, reject with code, or accept within both caps |
| `Decoder.OneRound` | crates/kchat-backup/src/object/compression.rs:77-114 | at most 64 KiB and never past 1 GiB is emitted, and a round that continues uses up input or plaintext budget |
| `Decoder.Decode` | crates/kchat-backup/src/object/compression.rs:64-115 | the total counts exactly what was emitted and stays within 1 GiB |
| `Decoder.BoundedDecoder.RunRound` | crates/kchat-backup/src/object/compression.rs:77-114 | one round under interference: the sink gets a prefix of the round's output, all of it on success |
| `Decoder.BoundedDecoder.DecodeBytes` | crates/kchat-backup/src/object/compression.rs:64-115 | the loop computes the decode function; under faults the sink holds a prefix of its output |
| `Decoder.BoundedDecoder.CollectHeader` | crates/kchat-backup/src/object/compression.rs:49-57 | collecting byte by byte over any pushes gives the one-shot verdict on all bytes so far |
| `Decoder.BoundedDecoder.PushBytes` | crates/kchat-backup/src/object/compression.rs:43-62 | the decoder is handed exactly the pushed bytes, header first, then the rest |
| `DecoderLaws.DecodeSound` | crates/kchat-backup/src/object/compression.rs:64-115 | success means all input was consumed, and completion that a whole frame was |
| `DecoderLaws.PushAllSound` | crates/kchat-backup/src/object/compression.rs:43-123 | pushes that end complete were exactly one frame, and what was emitted exactly its content |
| `DecoderLaws.PushAllRoundTrip` | crates/kchat-backup/src/object/compression.rs:43-123 | a frame cut into any blocks decodes to exactly its content and completes |
| `Reader.CheckedSource.Read` | crates/kchat-backup/src/object/reader.rs:56-78 | bytes in order, zero only at the end, a resource error only for data over 256 MiB; the probe never underflows |
| `Reader.CheckedSource.ReadExact` | crates/kchat-backup/src/object/reader.rs:80-89 | however short the reads, the slice of the data or the error that the data alone determines |
| `Reader.CheckedSource.ReadLength` | crates/kchat-backup/src/object/reader.rs:91-102 | the next length, a clean end, or the error that the data alone determines |
| `Opening.ReadHeader` | crates/kchat-backup/src/object/reader.rs:111-113 | the parsed header of the data |
| `Opening.RunFrame` | crates/kchat-backup/src/object/reader.rs:129-163 | one frame with lookahead, as the frame function on the data says |
| `Opening.AuthenticateFrames` | crates/kchat-backup/src/object/reader.rs:122-164 | the loop equals the frame recursion; under faults a prefix of its output |
| `Opening.AuthenticateEnvelope` | crates/kchat-backup/src/object/reader.rs:105-164 | header, first length and frames together |
| `Opening.OpenObject` | crates/kchat-backup/src/object/reader.rs:19-29 | the outcome, error code included, depends on the bytes only; under faults the sink holds a prefix and success is never wrong |
| `ObjectTheorems.SealedAuthenticates` | crates/kchat-backup/src/object/reader.rs:105-164 | reading a sealed object feeds the decoder exactly the written blocks in order |
| `ObjectTheorems.RoundTrip` | crates/kchat-backup/src/object/reader.rs:19-29 | opening the sealed object of a frame, up to exactly 256 MiB, succeeds with exactly the frame's content |
| `EndToEnd.SealThenOpen` | crates/kchat-backup/src/object/writer.rs:41-74 | any accepted plaintext, any split of reads on both sides: opening yields exactly the plaintext; refused only what no way of reading would have made fit |
| `EndToEnd.WriteThenOpen` | crates/kchat-backup/src/object/reader.rs:105-164 | after any script of calls against any sink, with a cipher that decrypts under the writer's prefix exactly what its encryptor was called for: a byte string with that prefix opens only if it is the finished writer's object, the bytes its descriptor describes |
| `EndToEnd.CallsDetermineSession` | crates/kchat-backup/src/object/writer.rs:227-274 | once the final block is sealed, the encryptor's calls determine the whole stream |
| `Envelope.CallsAreSealed` | crates/kchat-backup/src/object/writer.rs:227-274 | the encryptor's calls are exactly the session's blocks, each in its place |
| `Integrity.OpensOnlyWhatWasSealed` | crates/kchat-backup/src/object/reader.rs:105-164 | under the ideal cipher only the exact object of a finished session opens; otherwise the sink holds a prefix of that session's plaintext, or nothing |
| `Integrity.OpensToSealedPlaintext` | crates/kchat-backup/src/object/reader.rs:19-29 | a byte string opens if and only if it is the sealed object, and what is emitted is always a prefix of the plaintext |
| `Integrity.OpenYieldsOneFrame` | crates/kchat-backup/src/object/reader.rs:19-29 | success means the sealed stream is one complete frame without trailing bytes, fully emitted |
| `Integrity.AcceptedSize` | crates/kchat-backup/src/object/reader.rs:122-163 | any accepted object has at most 256 MiB, 4,095 frames and less than 256 MiB of payload |
| `Refusals.FrameRefusals` | crates/kchat-backup/src/object/reader.rs:129-163 | for any data, the error of a frame that ends too early, has an impossible length after it, follows a frame that is not full, or is not authentic |
| `Refusals.HeaderRefusals` | crates/kchat-backup/src/object/reader.rs:111-124 | too short an object is malformed, another beginning unsupported |
| `Refusals.TruncationIsRefused` | crates/kchat-backup/src/object/reader.rs:105-164 | a finished object cut to any shorter length is refused: as not authentic exactly between two frames, as malformed everywhere else |
| `Refusals.ExtensionIsRefused` | crates/kchat-backup/src/object/reader.rs:129-134 | with any bytes appended it is malformed, after all blocks but the last |
| `Refusals.AlterationIsRefused` | crates/kchat-backup/src/object/reader.rs:135-154 | with any other ciphertext in one frame it is not authentic, after exactly the blocks before |
| `Refusals.OversizedObjectIsRefused` | crates/kchat-backup/src/object/compression.rs:80-92 | an object whose content exceeds 1 GiB is refused as over the limit, with a beginning of the content emitted |
| `Refusals.TooMuchContentIsRefused` | crates/kchat-backup/src/object/compression.rs:80-92 | the same for the pushes of such a frame, cut anywhere |
| `Refusals.CutFrameIsRefused` | crates/kchat-backup/src/object/compression.rs:117-123 | an object whose compressed stream is a proper beginning of a frame is invalid, with a beginning of the content emitted |
| `Refusals.TrailingBytesAreRefused` | crates/kchat-backup/src/object/compression.rs:70-76 | after a complete frame any further byte is invalid and emits nothing |
| `Refusals.RoundRefusals` | crates/kchat-backup/src/object/compression.rs:77-114 | which rounds of the decoder are over the limit, which invalid, and which succeed |
| `Wal.TtlAccepted` | crates/kchat-uniffi/src/mls/mod.rs:65-70 | exactly the positive hours whose seconds fit i64 are accepted, as that many hours |
| `Wal.CallLaw` | crates/kchat-uniffi/src/mls/mod.rs:795-891 | the outcome of every call from what is stored, and that only a decrypt changes anything: one key is spent and one slot touched |
| `Wal.Store.ProcessWithWal` | crates/kchat-uniffi/src/mls/mod.rs:795-891 | hit, conflict, or key consumption and row together; any failure inside the transaction changes nothing |
| `Wal.Store.PruneExpired` | crates/kchat-storage-provider/src/decrypted_application_messages.rs:127-138 | no dead row of the own version is left, other versions keep theirs, and no load from that time on can tell; or nothing happens |
| `Wal.Store.TryDelete` | crates/kchat-storage-provider/src/group_delete.rs:15-40 | the group's keys and its rows of the own version are gone, all other keys and rows as before; or nothing changed |
| `Wal.Store.DeleteGroup` | crates/uq-openmls/src/provider/sqlite_provider.rs:203-237 | the same with one retry after a recoverable failure |
| `Wal.UpsertAfterMiss` | crates/kchat-storage-provider/src/decrypted_application_messages.rs:33-106 | after a miss the conditional upsert takes effect if and only if no live row of another version holds the slot |
| `Wal.OtherVersionRowLosesTheCache` | crates/kchat-storage-provider/src/decrypted_application_messages.rs:84-94 | an instance where the key is spent, nothing is cached and the retry fails |
| `WalRuns.EveryRunIsSafe` | crates/kchat-uniffi/src/mls/mod.rs:811-866 | over every run, with whatever rows of other versions, a consumed key whose slot no live row of another version held keeps its row until prune at expiry, re-decrypt after expiry or group deletion; every row of the own version came with such a key; consumed keys are not usable |
| `WalRuns.FreshIsSafe` | crates/kchat-storage-provider/src/decrypted_application_messages.rs:33-106 | the invariant holds to begin with in any store without rows of the own version |
| `WalRuns.MissCachesIffNotBlocked` | crates/kchat-storage-provider/src/decrypted_application_messages.rs:78-106 | in any database a successful decrypt after a miss leaves its row if and only if no live row of another version holds the slot |
| `WalRuns.MissAlwaysCaches` | crates/kchat-storage-provider/src/decrypted_application_messages.rs:78-106 | at every point of every run that starts without rows of another version the row is stored |
| `WalRuns.KeysAreConsumedOnce` | crates/kchat-uniffi/src/mls/mod.rs:844-866 | no run consumes a key twice |
| `WalRuns.RetryReturnsTheSame` | crates/kchat-uniffi/src/mls/mod.rs:818-838 | unless blocked: before expiry a repeat returns the same plaintext, another digest conflicts, and nothing changes |
| `WalRuns.BlockedRetryFails` | crates/kchat-uniffi/src/mls/mod.rs:818-866 | if blocked: while the other row lives a repeat fails, whatever happens in between |
| `WalRuns.DeletedGroupMisses` | crates/kchat-storage-provider/src/group_delete.rs:15-40 | without rows for a group, every load for it misses until a call decrypts again |
| `WalRuns.DeletionForgets` | crates/kchat-storage-provider/src/group_delete.rs:15-40 | so after a deletion nothing cached for the group can be had, whatever follows that is no call for it |
| `WalRuns.PruneTransparency` | crates/kchat-storage-provider/src/decrypted_application_messages.rs:33-138 | prunes inserted anywhere change no outcome while the clock does not go back |
| `Migration.LatestIsLastEntry` | crates/kchat-storage-provider/src/group_epoch_message_secrets.rs:117-127 | an epoch gets the bytes of its last entry |
| `Migration.LatestHasOnlyEntries` | crates/kchat-storage-provider/src/group_epoch_message_secrets.rs:117-127 | only epochs of some entry appear |
| `Migration.Store.ReplaceEpochs` | crates/kchat-storage-provider/src/group_epoch_message_secrets.rs:117-127 | the group's epoch rows become exactly the snapshot |
| `Migration.Store.MigrateGroup` | crates/uq-openmls/src/provider/sqlite_provider.rs:86-103 | the group is migrated completely or nothing changes; without a legacy row it succeeds without effect |
| `Migration.Store.MigrateBatch` | crates/uq-openmls/src/provider/sqlite_provider.rs:274-297 | the loop amounts to one migration of the set of groups whose transaction completed; without faults, the batch |
| `Migration.Store.TryMigrate` | crates/uq-openmls/src/provider/sqlite_provider.rs:247-305 | a start does what some set of completed group transactions of its batch does; without faults, all of them |
| `MigrationRuns.EveryRunIsFaithful` | crates/uq-openmls/src/provider/sqlite_provider.rs:253-302 | over every interrupted run each group is intact or exactly its snapshot, others untouched, and done means no legacy row |
| `MigrationRuns.OneStartProgress` | crates/kchat-storage-provider/src/group_epoch_message_secrets.rs:205-233 | a start that can list its batch migrates at least 20 minus the stuck rows, or all that are left; one that cannot changes nothing |
| `MigrationRuns.AllMigratedInTime` | crates/uq-openmls/src/provider/sqlite_provider.rs:247-305 | with k < 20 stuck rows, m groups are done after any run with n uninterrupted starts once n(20 - k) >= m, in any row order and whatever the other starts did, as long as the newest twenty ids can be decoded; with k = 0 the flag is set |
| `MigrationRuns.RunFinishesIffNoneStarved` | crates/uq-openmls/src/provider/sqlite_provider.rs:247-305 | whatever the number of stuck rows, any run with m uninterrupted starts migrates all m groups if and only if none starves, as long as the newest twenty ids can be decoded; if one starves no run does |
| `MigrationRuns.MigrationFinishesIffRowsClear` | crates/kchat-storage-provider/src/group_epoch_message_secrets.rs:205-233 | for every database, repeated starts migrate everything if and only if some number of batches lists every migratable row and no undecodable id; then as many starts as rows do, and with k < 20 stuck rows n(20 - k) >= m |
| `MigrationRuns.ClearsIffNoneStarved` | crates/kchat-storage-provider/src/group_epoch_message_secrets.rs:213-219 | that needs every migratable row to have fewer than twenty newer stuck rows; with decodable ids nothing else |
| `MigrationRuns.TwentyStuckRowsStarve` | crates/kchat-storage-provider/src/group_epoch_message_secrets.rs:213-219 | an instance of starvation, for any number of starts |
| `MigrationRuns.UndecodableRowStops` | crates/kchat-storage-provider/src/group_epoch_message_secrets.rs:221-232 | an instance that starves nobody, starts well and never finishes |
| `MigrationRuns.UnreadableRowBlocksForever` | crates/kchat-storage-provider/src/group_epoch_message_secrets.rs:221-232 | an undecodable id in the batch makes every later start a no-op |
| `Reconcile.Reconciler.FindFirst` | crates/kchat-mls/src/lib.rs:845-861 | the first commit with the wanted label |
| `Reconcile.Reconciler.ResolvePending` | crates/kchat-mls/src/lib.rs:399-540 | settling as the decision function says, with all error and skip paths, and the status row deleted, written or left when either fails |
| `ReconcileLaws.SettlingIsFinal` | crates/kchat-mls/src/lib.rs:426-530 | merge, clear or drop: memory and storage agree, nothing stays staged, other groups and statuses are untouched, the status is cleared unless storage prevents it, and then no later turn settles anything again |
| `ReconcileTurns.CreateGroupConverges` | crates/kchat-mls/src/lib.rs:415-491 | a created group is stored merged if the server confirmed it, by tree hash at epoch 0 or by the client's commit in the slot later, and otherwise deleted and listed; past epoch 0 on the server's side only, it is left alone |
| `ReconcileTurns.UnsettledTurnFollows` | crates/kchat-mls/src/lib.rs:531-535 | with nothing to settle, a leave included, a turn only follows the commits |
| `ReconcileTurns.TurnOutcomes` | crates/kchat-mls/src/lib.rs:389-402 | a turn is skipped exactly for an unreadable identity, and fails exactly when the status cannot be read or the operation not be settled |
| `ReconcileTurns.UnloadedTurnChangesNothing` | crates/kchat-mls/src/lib.rs:389-402 | a group that does not load and gets no welcome is left as it is, with an empty result |
| `Reconcile.Reconciler.ScanProposals` | crates/kchat-mls/src/lib.rs:542-613 | the first pass: tracked removals and highest commit label |
| `Reconcile.Reconciler.ReplayBatch` | crates/kchat-mls/src/lib.rs:615-786 | the second pass: group, storage, removals, re-adds and error after the batch |
| `Reconcile.Reconciler.ProcessAllMessages` | crates/kchat-mls/src/lib.rs:370-805 | group by group, skipping unreadable identities and stopping at a settling error |
| `ReconcileLaws.ReplayFollows` | crates/kchat-mls/src/lib.rs:618-717 | whatever storage does, memory and storage both follow the acceptable commits: all of them, or those before the failure that is then recorded |
| `ReconcileLaws.FailuresStayOnTheLog` | crates/kchat-mls/src/lib.rs:618-717 | a storage failure never takes a client off the server's log nor backwards along it |
| `ReconcileTurns.TurnErrorIff` | crates/kchat-mls/src/lib.rs:638-717 | an error is recorded exactly if storage fails a commit or the load before the first one, and the group then followed exactly the commits before that |
| `ReconcileTurns.WelcomeIsHeld` | crates/kchat-mls/src/lib.rs:620-636 | a welcome that works is stored and held, one that fails changes nothing |
| `ReconcileTurns.WelcomeJoins` | crates/kchat-mls/src/lib.rs:618-717 | the turn stores the last welcomed group as it follows the commits behind the welcome, up to a storage failure |
| `ReconcileTurns.QuietWelcomeJoins` | crates/kchat-mls/src/lib.rs:618-717 | without failures all of them |
| `ReconcileTurns.FirstCommitReloads` | crates/kchat-mls/src/lib.rs:646-661 | the first commit is offered to the stored group, whatever was held |
| `ReconcileLaws.OfferLaw` | crates/kchat-mls/src/lib.rs:682-717 | which messages offered as commits are taken, and what becomes of the group |
| `ReconcileLaws.ReplayConvergesIff` | crates/kchat-mls/src/lib.rs:638-717 | replay reaches the server's head if and only if every later commit is someone else's and the client stays a member |
| `ReconcileLaws.SlotIsWhatThePendingCommitCreates` | crates/kchat-mls/src/lib.rs:845-861 | for tree update and external join the slot is the epoch the pending commit creates, holding the server's first commit after the base |
| `ReconcileLaws.TreeUpdateConverges` | crates/kchat-mls/src/lib.rs:493-530 | merged exactly when the server's commit for the slot names the client as sender, else cleared; head reached if and only if, when merged, that commit is the pending one and the rest can be followed, when cleared, all can |
| `ReconcileLaws.TreeUpdateIsDecidedRightly` | crates/kchat-mls/src/lib.rs:493-530 | merged exactly when the server's commit for the slot is the client's own, if and only if its sender field is truthful; an own commit under another name leaves the client behind |
| `ReconcileLaws.ExternalJoinConverges` | crates/kchat-mls/src/lib.rs:452-491 | deleted and listed exactly when the slot is empty or does not name the client as sender; otherwise head reached if and only if the joined state is the server's and the rest can be followed |
| `ReconcileLaws.ExternalJoinIsDecidedRightly` | crates/kchat-mls/src/lib.rs:452-491 | kept exactly when the server's commit for the slot is the client's own, if and only if its sender field is truthful |
| `ReconcileLaws.NoPendingConverges` | crates/kchat-mls/src/lib.rs:531-535 | the criterion with nothing pending, with or without a status row |
| `ReconcileLaws.ClearedUpdateCatchesUpIff` | crates/kchat-mls/src/lib.rs:516-530 | an update cleared before the server decides is caught up with if and only if the log can be followed from the base; never if the server decides for it |
| `ReconcileLaws.MergedTheWrongCommit` | crates/kchat-mls/src/lib.rs:493-530 | an instance: the slot holds another own commit than the pending one, which is merged all the same |
| `ReconcileLaws.ClearedForAnEmptySender` | crates/kchat-mls/src/lib.rs:493-530 | an instance: the slot holds the pending commit itself, under an empty sender, and it is cleared |
| `ReconcileLaws.ClearedTooEarly` | crates/kchat-mls/src/lib.rs:516-530 | an instance: cleared by an empty batch, then left behind |
| `ReconcileLaws.EpochCountsAccepted` | crates/kchat-mls/src/lib.rs:682-717 | the final epoch is the first plus the number of accepted commits |
| `ReconcileLaws.ReplayTwiceIsOnce` | crates/kchat-mls/src/lib.rs:618-717 | replaying a label-ordered batch again changes nothing |
| `ReconcileLaws.SecondTurnChangesNothing` | crates/kchat-mls/src/lib.rs:399-717 | a whole second turn with that batch, pending operation and all, changes nothing stored and deletes nothing |
| `ReconcileMembers.RemovalsAreProposals` | crates/kchat-mls/src/lib.rs:553-607 | tracked exactly if a native or custom proposal asked for it while a member had that id or jid, at the label of the last one |
| `ReconcileMembers.RemovalTracking` | crates/kchat-mls/src/lib.rs:736-760 | still tracked exactly if the held group has that id, or a member with that jid, after every commit labelled at or above the proposal |
| `ReconcileMembers.TurnRemovals` | crates/kchat-mls/src/lib.rs:788-793 | the two together for the reported result |
| `ReconcileMembers.RemovalsWhileFollowing` | crates/kchat-mls/src/lib.rs:736-793 | without welcomes and failures: reported exactly if proposed while a member, and every commit labelled at or above the last proposal left it in the group that follows the commits |
| `ReconcileNames.GoneLaw` | crates/kchat-mls/src/lib.rs:742-753 | a tracked member counts as gone exactly if its id, or else every member with its jid, is not in the group |
| `ReconcileNames.ProposedLaw` | crates/kchat-mls/src/lib.rs:560-599 | which messages ask for which removal, from their fields |
| `ReconcileNames.JidLaw` | crates/kchat-mls/src/lib.rs:912-919 | the jid of an id is what stands before its first slash |
| `ReconcileNames.JidsLaw` | crates/kchat-mls/src/lib.rs:895-910 | the jids of a group are those of its members |
| `ReconcileNames.SenderLaw` | crates/kchat-mls/src/lib.rs:874-883 | a sender names an id if it is the whole id or all after its first slash, and never when empty |
| `ReconcileNames.SlotLaw` | crates/kchat-mls/src/lib.rs:845-861 | the slot names the client exactly if the first commit with that label does |
| `ReconcileMembers.ReaddsAreProposals` | crates/kchat-mls/src/lib.rs:762-779 | exactly the re-add proposals labelled above the highest commit label and reached before an error |
| `ReconcileMembers.TurnReadds` | crates/kchat-mls/src/lib.rs:762-798 | the reported re-adds, from the proposals' fields: labelled above every commit, and before any storage error |
| `ReconcileNames.ReaddLaw` | crates/kchat-mls/src/lib.rs:762-779 | which messages ask for which re-add, from their fields |
| `ReconcileMembers.LatestIsHighestCommitLabel` | crates/kchat-mls/src/lib.rs:547-551 | the bound is the highest commit label, or zero |
| `ReconcileMembers.ErrorResultHasNoRemovals` | crates/kchat-mls/src/lib.rs:671-676 | a recorded error means no removals |
| `ReconcileTurns.OneResultPerGroup` | crates/kchat-mls/src/lib.rs:384-402 | one result per input group in order, except unreadable own identities |
| `ReconcileTurns.DeletedWereDropped` | crates/kchat-mls/src/lib.rs:435-484 | the deleted groups are exactly those settling dropped |
| `ReconcileTurns.TurnsAreIndependent` | crates/kchat-mls/src/lib.rs:384-800 | a call for several groups does for each what a call for it alone would do: same failure, results, deletions and stored groups, others untouched |
| `ReconcileTurns.FailedCallStops` | crates/kchat-mls/src/lib.rs:384-540 | a failed call stops at the first turn that would fail alone, with those before it done |
| `ReconcileTurns.TurnStaysInItsGroup` | crates/kchat-mls/src/lib.rs:384-800 | a turn changes nothing stored about other groups |
| `ReconcileTurns.TurnReadsItsGroup` | crates/kchat-mls/src/lib.rs:384-800 | and depends on nothing stored about them |

## Left out

- Language bindings (N-API, UniFFI), record conversion, logging, error texts: one-branch plumbing. The WAL logic repeated in crates/kchat-mls-uniffi/src/mls.rs is modelled once.
- Internals of OpenMLS, Zstd, XChaCha20-Poly1305, SHA-256, Argon2, HKDF, BIP39 and signatures: contracts only. In particular the encoder's own failures, and the decoder's window parameter beyond the header check, are not modelled.
- SQLite, SQLCipher keying, connection pooling and busy timeouts.
- Backup descriptors and contexts, key derivation, mnemonics: fixed layouts and library calls.
- The uniform per-table storage modules and the large storage provider implementations.
- `copy_opaque_bytes_v1`: a plain bounded copy loop.
- Zeroization of buffers, and the reuse of the decoder's output array: emitted chunks are values.
- Failure of the random source for the nonce prefix: the prefix is a parameter.
- Classification of errors by message text in the reconciler: each failure is either a storage failure or not.
- The library's ratchet state during the first pass of the reconciler: what a proposal decrypts to there is part of the message.
- Legacy rows written while the migration is still running: the runs consider no new legacy rows.
- ReconcileLaws.TreeUpdateConverges: no convergence with a log is claimed for a created group at epoch 0 with a non-zero server epoch, nor for `LeaveGroup`; the code leaves both unresolved, and `ReconcileTurns.UnsettledTurnFollows` says so.
- ReconcileTurns.TurnsAreIndependent: a welcome in one group's batch that is for another group is not covered; `ReconcileTurns.WelcomeIsHeld` says what it does.
- ReconcileLaws.ExternalJoinConverges: the stored epoch of a join is at least one; the unsigned subtraction at epoch 0 is not modelled.
