# PicoWAL verification

A Dafny model of seven cores of the PicoWAL firmware, with proofs of what each is for. Each module
follows one part of the C source; code that updates state in place is modelled by methods on arrays
and objects, proved against functions on values, and the laws are then proved about those functions
and as invariants that every method keeps.

- **picocompress** (`pico_format`, `pico_match`, `pico_table`, `pico_search`, `pico_tokens`, `pico_steps`,
  `pico_encoder`, `pico_repeats`, `pico_decoder`, `pico_stream`, `pico_packing`, `pico_codec`,
  `pico_runs`). The token format has a meaning of its own (`Run`, `Expand`). The encoder is sound for
  any hash-table contents, because every candidate is compared again; what the table does hold, which
  match is chosen at each position and what becomes of it is stated step by step (`TableIs`, `Picked`,
  `Packs`), and so a run of one byte value shrinks to three eighths (`RunShrinks`). The decoder computes
  the meaning exactly, corrupt input included; the two streaming classes are proved against a
  byte-at-a-time machine (`Feed`), so no cut into chunks matters, and a buffer of `CompressBound` bytes
  never fails.
  `Transfer` says so of a whole transfer, cut at will on both sides.
- **ChaCha20-Poly1305** (`poly1305`, `poly1305_mac`, `chacha20`, `chacha20_vector`, `aead`), against RFC 8439. The limb
  types are bounded, so the proofs include that no 32-bit or 64-bit expression overflows. Between
  blocks only the second limb exceeds 26 bits.
- **Flash store** (`kv_record`, `kv_log`, `kv_index`, `kv_pages`, `kv_layout`, `kv_crash`, `kv_store`,
  `kv_recovery`, `kv_runs`, `kv_loss`, `kv_damage`, `kv_crc`). Flash is bytes that erase to 0xFF and that
  programming only clears. A ghost map says what every key reads as; every run of puts, deletes and compaction steps keeps it, and the
  boot scan rebuilds the index. `kv_runs` composes this: any list of commands from an erased region,
  then a read or a reboot. All programming is logged, so that `CrashInPut` and `CrashInRemove` cover
  power lost at any byte of it.
- **SD store components** (`sd_bucket`, `sd_hash`, `sd_table`, `sd_cache`, `sd_crash`, `sd_crc`, `sd_alloc`): the
  two-choice hash table behind its cache, for any two hash functions and any contents, crashes included,
  and the block-skipping bitmap allocator.
- **Write-ahead log engine** (`wal_merge`, `wal_apply`, `wal_state`, `wal_order`, `wal_slots`, `wal_runs`):
  the in-place field merge, what runs of appends leave in the flash store, and who holds each buffer
  slot over every interleaving of the steps of both cores.
- **Query optimiser** (`query_text`, `query_join`, `query_plan`, `query_values`): what a condition means,
  the reordering of conditions, and the rewriting of a condition on a joined pack into a printed list of ids.
- **Deferred UDP batches** (`batch_queue`): each card stored once, each batch acknowledged once.

`bits` holds machine words and C's bitwise operators, `bit_bytes` ties them to bit vectors for literal
values, `collections` has small shared pieces.

## What the proofs found

Where the code does not do what its comments or its callers expect, the code is kept and the exact
condition is proved.

- A put that returns success is lost when its record starts too late in a 256-byte flash page: the
  programming helper returns silently when the span exceeds 768 bytes. `Store.PutIfVersion` says
  exactly when, of the write offset before the call (`Lost`); `LostWhen` gives the offsets and lengths:
  never for a stored length up to 474, from offset 220 of a page on for 508 bytes. `LosePut` is a run of
  three puts that loses the third, for any value the codec cannot shorten, and `SomeIncompressible`
  counts that there are such values. Such a loss, an erased page or a version that wraps are all
  that can part the boot scan from the live index; every operation says whether one happened.
- `aead_decrypt` returns 0 both for a forged message and for an authentic empty one; the result tells
  them apart exactly for nonempty plaintexts (`OpenInPlace`, `OpenSealed`).
- The bucket cache is commented as least recently used. Its ages are only ever raised below an age
  that is itself 0, so all stay 0 over every run (`Ageless`, part of `Table.Valid`) and a full cache
  always reuses slot 0 (`Victim`, `NextCache`). `EvictionRun` is a run in which that is the slot read
  last, while slots read longer ago stay. It is the least recently read one if and only if the other
  fifteen were all read after its last read (`VictimLeastRecent`), and those fifteen are the same
  buckets for good (`FifteenStay`). What is read stays right either way.
- An update of the hash table interrupted between its two writes leaves the key in both its buckets, and
  nothing resolves that later. Updating the key again succeeds and then takes effect only when neither
  bucket has room, answering an older slot otherwise (`UpdateAfterCrash`, `StaleAnswer`; `StaleRun` is
  a run from an empty device); removing it leaves it in the table (`RemoveAfterCrash`).
- In the boot scanner a record with a bad checksum leaves an older pending record in place, where the
  comment says that only the matching record is applied; the model follows the code. The pending record
  survives exactly when the record after it is damaged (`PendingSurvives`), and a later marker of its
  group then applies it (`AppliedPastDamage`, and `DamageExample` as a boot in which it happens). After
  one crash this cannot apply anything torn (`CrashAtomicity`).
- The id list of a rewritten condition is cut at 63 characters and stops at 60. The rewriting keeps
  its meaning for every row if and only if every matching id is printed whole (`RewriteExact`,
  `SemiJoin`, `ListExact`); `ElevenCut` is a family where a wrong card's rows pass instead.
- A write-ahead log entry is only ever dropped when its key has another one. From boot, 32 appends of
  different keys end in `Exhausted` (`FillPool`): every slot belongs to an entry and no step of either
  core ever frees one again (every step keeps `Exhausted`, and `Stuck` says that nothing is left to
  free). The condition is exact: with every slot held by an entry, the next 32 compaction steps free one
  if and only if two entries share a key (`CompactRound`).
- A log read reports the number of matching deltas, not of those that fitted (`Engine.DoRead`,
  `PackedWhole`): from boot, two appends under one key that exceed a slot together are answered with
  a count of two and the first alone (`ReadTwo`).
- The allocator's single-slot test never finds a slot: with reads succeeding it is reached only in a
  map of one block that has already been found full (`CachedFull`).
- The matcher's rule that prefers a far match two bytes longer, at a byte less saved, never applies to a
  match that saves anything: no two tokens differ by three bytes (`BonusNeverApplies`).
- The cipher's 32-bit offset reaches the input length if and only if that is at most 2^32 - 64
  (`OffsetArrives`); above, its loop would not end.

## Model

| member | source | states |
|---|---|---|
| `Bits.FirstDifference` | lib/picocompress/picocompress.c:157-175 | in the XOR of two little-endian words the index of the lowest set bit, divided by 8, is the first differing byte; the XOR is zero only for equal words |
| `PicoMatch.MatchLenWords` | lib/picocompress/picocompress.c:262-274 | comparing a word at a time finds the longest common prefix up to the limit, which determines the result |
| `PicoMatch.MatchLenBytes` | lib/picocompress/picocompress.c:277-283 | the byte loop meets the same specification, so both variants agree on all inputs |
| `PicoFormat.CopyBackRebuilds` | lib/picocompress/picocompress.c:836-863 | copying back over a distance rebuilds what followed, overlapping copies included |
| `PicoFormat.RunAppend` | lib/picocompress/picocompress.c:865-984 | the meaning of a token string is that of its parts in turn |
| `PicoFormat.RunExtends` | lib/picocompress/picocompress.c:865-984 | tokens only ever extend the window |
| `PicoTokens.LiteralsDecode` | lib/picocompress/picocompress.c:295-317 | literal runs of up to 64 bytes decode to the bytes they came from and leave the last distance alone |
| `PicoEncoder.EmitLiterals` | lib/picocompress/picocompress.c:295-317 | writes exactly the literal runs, and fails exactly when they do not fit |
| `PicoTable.HeadInsert` | lib/picocompress/picocompress.c:319-329 | pushes a position onto one chain and touches no other |
| `PicoTable.OneByteTells` | lib/picocompress/picocompress.c:144-148 | three bytes that differ in one place have different hashes |
| `PicoTable.InsertAt` | lib/picocompress/picocompress.c:719-722 | with the positions before it entered, entering the next one, or the last one again, leaves in each column the latest position with that hash and the one before it |
| `PicoTable.InsertCovered` | lib/picocompress/picocompress.c:819-821 | the same for all positions a token covers, none of which is skipped that has three bytes |
| `PicoTable.SeedFromHistory` | lib/picocompress/picocompress.c:645-664 | the table after the history: the latest two positions of each hash, the second pass over the last 64 leaving it as it is |
| `PicoSearch.TryRepeats` | lib/picocompress/picocompress.c:515-548 | of the last three distances, in order, the match that saves most, a good one ending the search at once; the short token only for the distance the decoder remembers |
| `PicoSearch.TryDictionary` | lib/picocompress/picocompress.c:552-573 | the longest entry that follows in the input, the first of its length, if it saves more than what was found before; a good one ends the search |
| `PicoSearch.TryChain` | lib/picocompress/picocompress.c:577-619 | whatever the table holds, a real match, and one that no other match of the chain beats in savings, length or nearness; a good one ends the search |
| `PicoSearch.BonusNeverApplies` | lib/picocompress/picocompress.c:604-610 | the rule for far matches two bytes longer never applies to a match that saves anything |
| `PicoSearch.FindBest` | lib/picocompress/picocompress.c:497-622 | of all matches in the order distances, dictionary, table: the first of eight bytes or more that saves more than all before it, or else one that none saves more than |
| `PicoTokens.TokenDecodes` | lib/picocompress/picocompress.c:767-810 | the decoder undoes each token, and its last distance stays equal to the encoder's first repeat distance |
| `PicoTokens.TokenSaves` | lib/picocompress/picocompress.c:767-803 | every token emitted is shorter than what it stands for |
| `PicoEncoder.EmitChoice` | lib/picocompress/picocompress.c:753-817 | literals and token are what is written, they extend the encoding, and each match pays for the literal header it splits off; it fails exactly when they do not fit |
| `PicoEncoder.LookAhead` | lib/picocompress/picocompress.c:725-751 | moves one position on exactly when the best choice there saves more; so the retry loop ends; the position left behind is entered a second time |
| `PicoEncoder.LooksBinary` | lib/picocompress/picocompress.c:668-692 | the dictionary is skipped exactly for a block that starts like no text format and has an unprintable byte among its first four |
| `PicoEncoder.CompressBlock` | lib/picocompress/picocompress.c:627-833 | the output is that of a run of steps, each of which takes what the search finds with exactly the earlier positions entered, drops it when it saves one byte inside literals, moves on when the next position saves more, and else emits it; it overflows exactly when such output does not fit; for every history and block decompressing gives the block, in at most n + n/64 rounded up |
| `PicoRepeats.ChosenSaves` | lib/picocompress/picocompress.c:575-619 | in a run of one byte value, from the second position on, what is found saves all but two bytes of the next 33 or of what is left, or is a good match |
| `PicoRepeats.RunShrinks` | lib/picocompress/picocompress.c:627-833 | a block of eight or more equal bytes gets shorter whatever the dictionary, and takes at most three eighths of its length and nine bytes |
| `PicoDecoder.CopyMatch` | lib/picocompress/picocompress.c:836-863 | copying from history and output is copying back in the window |
| `PicoDecoder.DecodeToken` | lib/picocompress/picocompress.c:874-978 | one token does what the format says, or is refused exactly when it has no meaning |
| `PicoDecoder.DecompressBlock` | lib/picocompress/picocompress.c:865-984 | succeeds exactly when the input means a block of the announced length, and outputs that block |
| `PicoStream.FeedChunks` | lib/picocompress/picocompress.c:1165-1234 | how the input is cut into chunks makes no difference |
| `PicoStream.SuffixLast` | lib/picocompress/picocompress.c:996-1010 | what a history keeps is the last n bytes, or all when there are fewer |
| `PicoStream.FrameDecodes` | lib/picocompress/picocompress.c:1141-1234 | a frame comes out as its block and both histories are again the last 504 bytes, stored blocks included |
| `PicoStream.FramesDecode` | lib/picocompress/picocompress.c:1012-1234 | the same for a whole stream of frames |
| `PicoStream.EncodingDecodes` | lib/picocompress/picocompress.c:1271-1336 | decoding undoes encoding, given room for the input |
| `PicoCodec.MemWriter.Write` | lib/picocompress/picocompress.c:1261-1269 | appends all of the data or nothing, failing exactly when it does not fit |
| `PicoCodec.UpdateHistory` | lib/picocompress/picocompress.c:996-1010 | the history becomes the last 504 bytes of what it was followed by the block |
| `PicoCodec.PackBlock` | lib/picocompress/picocompress.c:1025-1070 | the frame holds the block and decodes to it after this history; it carries the block encoder's output if and only if that is shorter |
| `PicoCodec.Encoder.Flush` | lib/picocompress/picocompress.c:1012-1074 | the pending block becomes one frame more, what was fed so far is unchanged; fails exactly when that frame does not fit |
| `PicoCodec.Encoder.Sink` | lib/picocompress/picocompress.c:1086-1118 | accepts chunks of any size; every frame it writes holds a full block; fails only when the frames for it do not fit |
| `PicoCodec.Encoder.Finish` | lib/picocompress/picocompress.c:1120-1125 | the frames written hold exactly the input |
| `PicoCodec.BoundCovers` | lib/picocompress/picocompress.c:1246-1253 | the bound is the worst case of the full blocks and the last one |
| `PicoCodec.CompressBuffer` | lib/picocompress/picocompress.c:1271-1302 | a success is the packing of the input in full blocks and a last one, a failure means that this does not fit, and a buffer as long as the bound always succeeds |
| `PicoPacking.OneFrame` | lib/picocompress/picocompress.c:1271-1302 | an input of up to 508 bytes is packed as one frame |
| `PicoPacking.RunPacks` | lib/picocompress/picocompress.c:1271-1302 | a run of one byte value of up to 508 bytes is packed to at most three eighths and 13 bytes, and is shorter from 64 bytes on |
| `PicoRuns.EncodeChunks` | lib/picocompress/picocompress.c:1086-1125 | any chunks through the encoder make the packing of all of them, as if they had come in one; a failure means that it does not fit, and a writer as long as the bound never fails |
| `PicoCodec.Decoder.EmitBlock` | lib/picocompress/picocompress.c:1141-1163 | a complete payload has the effect of the specification's step |
| `PicoCodec.Decoder.SinkPayload` | lib/picocompress/picocompress.c:1209-1230 | a bulk copy does what byte-by-byte feeding does |
| `PicoCodec.Decoder.Sink` | lib/picocompress/picocompress.c:1165-1234 | any chunk has the status and effect of feeding its bytes one by one |
| `PicoCodec.Decoder.Finish` | lib/picocompress/picocompress.c:1236-1244 | a stream may end exactly between frames |
| `PicoCodec.DecompressBuffer` | lib/picocompress/picocompress.c:1304-1336 | returns exactly what the input decodes to, or fails exactly when it decodes to nothing |
| `PicoRuns.DecodeChunks` | lib/picocompress/picocompress.c:1165-1244 | any chunks through the decoder give what all of them decode to, or fail exactly when they decode to nothing |
| `PicoRuns.CutLengths` | lib/picocompress/picocompress.c:1086-1244 | the pieces of a cut stream have the lengths asked for |
| `PicoRuns.Transfer` | lib/picocompress/picocompress.c:1086-1244 | however input and stream are cut, what comes out is what went in |
| `Poly1305.LoadLimbsValue` | src/crypto.c:91-100 | the five limbs are the 16 bytes as a little-endian number |
| `Poly1305.ClampLimbsValue` | src/crypto.c:66-76 | the masked limbs are the key half with the clamp of RFC 8439 section 2.5 |
| `Poly1305.ProductFolds` | src/crypto.c:102-106 | the five columns are the product modulo 2^130 - 5 |
| `Poly1305.ColumnBound` | src/crypto.c:102-114 | every column stays below 2^58, so no carry overflows 32 bits |
| `Poly1305.Multiply` | src/crypto.c:102-106 | the columns fit 64 bits and are congruent to h times r |
| `Poly1305.Carry` | src/crypto.c:108-114 | the carry chain keeps the residue and leaves only the second limb above 26 bits |
| `Poly1305.Block` | src/crypto.c:90-117 | one block: (h + block) times r modulo 2^130 - 5 |
| `Poly1305.CarryAll` | src/crypto.c:122-128 | the last chain leaves all limbs within 26 bits, although it does not carry out of the second one |
| `Poly1305.SubtractOnce` | src/crypto.c:130-140 | the masked selection yields the unique reduced value |
| `Poly1305.Regroup` | src/crypto.c:143-146 | the limbs regrouped into words are the value modulo 2^128 |
| `Poly1305Mac.AddPad` | src/crypto.c:142-146 | the words plus the second key half, modulo 2^128 |
| `Poly1305Mac.PolynomialConcat` | src/crypto.c:154-167 | the polynomial of a concatenation is absorbed piece by piece |
| `Poly1305Mac.Context.constructor` | src/crypto.c:66-83 | the context holds the clamped r, the pad and an empty polynomial |
| `Poly1305Mac.Context.Blocks` | src/crypto.c:85-119 | absorbs all whole blocks into the polynomial |
| `Poly1305Mac.Context.Finish` | src/crypto.c:121-152 | the tag is the polynomial plus the pad modulo 2^128, little-endian |
| `Poly1305Mac.LastChunk` | src/crypto.c:159-165 | an incomplete chunk padded by hand counts as the marked chunk of the RFC |
| `Poly1305Mac.Mac` | src/crypto.c:154-167 | the tag of RFC 8439 section 2.5 for every key and message |
| `ChaCha20.QuarterRoundInPlace` | src/crypto.c:11-16 | the macro on four array cells is the quarter round, other cells untouched |
| `ChaCha20.RoundUndone` | src/crypto.c:11-16 | every quarter round can be undone |
| `ChaCha20.RoundsInjective` | src/crypto.c:29-38 | the twenty rounds are injective on blocks |
| `ChaCha20.BlockInPlace` | src/crypto.c:18-40 | the key block of RFC 8439 section 2.3 |
| `ChaCha20.InitialBytes` | src/crypto.c:18-28 | the initial state, as bytes, is the text "expand 32-byte k", the key, the counter and the nonce |
| `ChaChaVector.QuarterVector` | src/crypto.c:11-16 | the quarter round on the test vector of RFC 8439 section 2.1.1 |
| `Aead.Encrypt` | src/crypto.c:42-57 | XORs the key stream onto the input and touches nothing after it |
| `Aead.OffsetArrives` | src/crypto.c:46-56 | the offset of the cipher loop reaches the length if and only if that is at most 2^32 - 64 |
| `Aead.StreamTwice` | src/crypto.c:42-57 | encrypting twice gives the input back |
| `Aead.MacPadded` | src/crypto.c:200-215 | whole blocks and a zero-filled rest absorb the padded string |
| `Aead.MacPieces` | src/crypto.c:194-224 | the piecewise calls absorb aad, padding, ciphertext, padding and lengths as one message |
| `Aead.MacLayout` | src/crypto.c:200-224 | the data that is authenticated: the aad first, zeros to a multiple of 16, the ciphertext, zeros again, and at the end the length of the aad and then that of the ciphertext |
| `Aead.ComputeTag` | src/crypto.c:186-227 | the tag of RFC 8439 section 2.8 |
| `Aead.SealInPlace` | src/crypto.c:182-229 | ciphertext and tag of RFC 8439 section 2.8 |
| `Aead.SameTag` | src/crypto.c:274-277 | the accumulated difference is zero exactly for equal tags |
| `Aead.OpenInPlace` | src/crypto.c:231-282 | returns the plaintext length exactly for authentic messages and 0 otherwise, then leaving the output alone |
| `Aead.SealOpens` | src/crypto.c:182-282 | what was sealed is authentic and decrypts to the plaintext |
| `Aead.OpenSealed` | src/crypto.c:182-282 | opening a sealed message returns its plaintext; the result is positive exactly for nonempty ones |
| `KvRecord.RecordFields` | src/kv_flash.c:472-500 | every field of a record is read back where it was written |
| `KvRecord.CommitFields` | src/kv_flash.c:502-508 | the same for a commit marker |
| `KvCrc.ChecksumDiffers` | src/kv_flash.c:174-180 | two strings of one length that differ in one byte have different checksums |
| `KvCrc.CheckValue` | src/kv_flash.c:174-180 | the checksum of the text "123456789" is the published 0xCBF43926 |
| `KvLog.LocRoundTrip` | src/kv_flash.c:218-235 | page, offset and length survive packing |
| `KvLog.ScanPair` | src/kv_flash.c:646-715 | a complete pair is applied whatever was pending before it |
| `KvLog.ScanSlots` | src/kv_flash.c:646-715 | whatever follows them, all complete pairs of a page are applied first, in order |
| `KvLog.TornRecord` | src/kv_flash.c:646-718 | a torn record is never applied |
| `KvLog.TornCommit` | src/kv_flash.c:658-685 | a torn commit marker applies nothing |
| `KvLog.TornPair` | src/kv_flash.c:646-718 | a pair cut anywhere is applied exactly when all its bytes are there |
| `KvLog.CrashAtomicity` | src/kv_flash.c:627-717 | after k pairs and any prefix of another, the scan applies the k, and the last only when it is whole |
| `KvLog.ScanWhole` | src/kv_flash.c:627-717 | without a crash the scan applies everything and stops at the blank flash |
| `KvIndex.KeyIndex.Find` | src/kv_flash.c:237-248 | binary search finds the key or where it would go |
| `KvIndex.KeyIndex.Get` | src/kv_flash.c:297-305 | reads the map |
| `KvIndex.KeyIndex.Set` | src/kv_flash.c:250-279 | the shifted arrays are the map with the key set; refused only for a new key at capacity; page counts stay exact below saturation |
| `KvIndex.KeyIndex.Remove` | src/kv_flash.c:281-295 | the shifted arrays are the map without the key; page counts stay exact |
| `KvPages.Program` | src/kv_flash.c:204-216 | on blank flash, programming writes exactly the data, or nothing when the span does not fit |
| `KvPages.LostWhen` | src/kv_flash.c:207-210 | exactly when a put is lost, of the write offset before it and the stored length |
| `KvPages.LooksEmptyIs` | src/kv_flash.c:340-346 | the probe after the header tells exactly whether anything was appended |
| `KvPages.AppendRec` | src/kv_flash.c:495-514 | programming after the last slot appends a slot and keeps the page blank behind it |
| `KvPages.AppendGap` | src/kv_flash.c:208-216 | a dropped span leaves a gap and keeps the page blank behind it |
| `KvPages.FreshPage` | src/kv_flash.c:321-337 | a header on a blank page makes an empty page |
| `KvStore.FewOnPage` | src/kv_flash.c:439-441 | at most 92 live records fit a page, so the 8-bit counts never saturate |
| `KvStore.EncodeValue` | src/kv_flash.c:458-470 | from 64 bytes on the codec's packing of the value if that is shorter, else the value itself |
| `KvStore.FlagBits` | src/kv_flash.c:38-39 | the lowest bit of a record's flags says compressed, the next one deleted |
| `KvStore.Store.FindNext` | src/kv_flash.c:348-359 | the first empty page going round from the write page, or none exactly when there is none |
| `KvStore.Store.SelectPage` | src/kv_flash.c:373-385 | fails exactly when the record does not fit and no page is empty; the write position stays if it fits, and otherwise is the start of the next empty page |
| `KvStore.Store.EnsureReady` | src/kv_flash.c:313-338 | the page has a valid header afterwards and nothing on it changes |
| `KvStore.Store.WritePair` | src/kv_flash.c:495-515 | the log grows by the record, or by a gap exactly when the span does not fit |
| `KvStore.Store.Log` | src/kv_flash.c:489-515 | the programming of one append, all of it logged; whenever power goes, the boot scan has everything logged before it, or the record too |
| `KvStore.Store.Append` | src/kv_flash.c:456-516 | one more record at the returned location; all indexed records stay readable |
| `KvStore.Store.PutIfVersion` | src/kv_flash.c:772-799 | exactly when it succeeds; the key then reads back as the value unless the offset before the call says it is lost, which it never does up to 474 bytes; exactly when the log stays pristine; whenever power goes during it, the old index or the new one; nothing else changes |
| `KvStore.Store.Put` | src/kv_flash.c:801-803 | the same for any version |
| `KvStore.Store.Remove` | src/kv_flash.c:819-836 | succeeds exactly for a known key with room for a tombstone; the key is gone, no other key changes, the log stays pristine, and power lost during it leaves the old index or the new one |
| `KvStore.Store.ReadRecord` | src/kv_flash.c:518-549 | returns the value written there, decompressed if it was compressed |
| `KvStore.Store.GetCopy` | src/kv_flash.c:813-817 | returns the last value put and not deleted, over every run, if it fits the caller's buffer |
| `KvStore.Store.CompactStep` | src/kv_flash.c:842-876 | erases exactly a page without live records that is not being written; every key reads the same afterwards, and the log stays pristine unless it erased |
| `KvRecovery.Apply` | src/kv_flash.c:674-682 | applies an operation unless the index has a newer version |
| `KvRecovery.ScanInto` | src/kv_flash.c:627-717 | the scanning loop applies exactly the operations of the page |
| `KvRecovery.BootScan` | src/kv_flash.c:603-748 | the rebuilt index is all committed operations in log order, and writing resumes after the last |
| `KvRecovery.Reboot` | src/kv_flash.c:603-748 | while the log is pristine, as every operation says exactly, the rebuilt index is the live one |
| `KvCrash.CrashRecovery` | src/kv_flash.c:603-748 | the next pair cut anywhere on a page with a header: the index of all logged before it, and of that one exactly when it is whole |
| `KvCrash.TornHeader` | src/kv_flash.c:617-621 | an empty page's header cut anywhere: the index of all that was logged |
| `KvCrash.AppendSafe` | src/kv_flash.c:313-385 | a whole append cut anywhere: a header if its page has none, the pair unless it is dropped, the next page's header |
| `KvRecovery.CrashInPut` | src/kv_flash.c:456-799 | power lost at any byte that a put programs, on whichever page: a boot scan rebuilds the index from before the call or from after it |
| `KvRecovery.CrashInRemove` | src/kv_flash.c:456-836 | the same for a delete |
| `KvRuns.Step` | src/kv_flash.c:772-876 | one command: what the keys then hold, where the log goes on, and when it stays pristine |
| `KvRuns.Run` | src/kv_flash.c:772-876 | after every run the store holds what the commands and their outcomes say, with each lost put told from the offsets; the version of a key is the number of its puts since it was last absent, going round from 0xFFFE to 1, and no put expecting another one is logged; pristine unless a page was erased, a record dropped or versions ran out |
| `KvRuns.StalePut` | src/kv_flash.c:772-799 | of two puts that expect the same version at most one succeeds |
| `KvRuns.RunThenGet` | src/kv_flash.c:772-876 | after every run a read returns the last value put, exactly when it was neither lost nor deleted and fits the buffer; for values up to 474 bytes, which are never lost, told from the answers alone |
| `KvRuns.RunThenReboot` | src/kv_flash.c:603-876 | after every run that erased and dropped nothing a reboot rebuilds the live index |
| `KvRuns.SmallKept` | src/kv_flash.c:204-216 | in a run of values up to 474 bytes none is dropped and every key put has its value |
| `KvLoss.LosePut` | src/kv_flash.c:204-216 | three puts that succeed, the third of which is lost, for every full-size value that does not compress |
| `KvLoss.RunStored` | src/kv_flash.c:458-470 | a run of one byte value of 64 bytes or more is stored in fewer, at most three eighths and 13 |
| `KvLoss.KeepPut` | src/kv_flash.c:772-817 | after the same two puts, a value of 508 equal bytes is not lost and reads back |
| `KvLoss.SomeIncompressible` | lib/picocompress/picocompress.c:1271-1302 | for every length some string has no encoding shorter than itself |
| `KvDamage.PendingSurvives` | src/kv_flash.c:687-711 | a record leaves an older pending one in place exactly when its checksum is wrong |
| `KvDamage.AppliedPastDamage` | src/kv_flash.c:687-711 | a record, another, and the marker of the first: the first is applied exactly when the other is damaged |
| `KvDamage.DamagedPageOps` | src/kv_flash.c:617-717 | what the boot scan applies from that page |
| `KvDamage.DamageExample` | src/kv_flash.c:603-748 | a boot on flash with one page, on which a record is applied past a damaged one: the rebuilt index has it |
| `KvDamage.ChangedNotApplied` | src/kv_flash.c:687-711 | a pair of which one stored byte was changed afterwards is not applied, and the scan goes on behind it |
| `KvDamage.ChangedHeader` | src/kv_flash.c:617-621 | a page header of which any one byte was changed is no header |
| `KvDamage.ChangedBoot` | src/kv_flash.c:603-748 | a boot on flash with one page, whose only record has one stored byte changed: the index is empty |
| `SdBucket.Find` | src/kv_sd.c:476-485 | the index of the first entry of a key |
| `SdBucket.AddEntry` | src/kv_sd.c:547-554 | the bucket's entries with one appended |
| `SdBucket.SetSlot` | src/kv_sd.c:579-583 | one entry's slot replaced |
| `SdBucket.RemoveEntry` | src/kv_sd.c:668-676 | the last entry takes the place of the removed one |
| `SdCrc.ChangedReadsEmpty` | src/kv_sd.c:434-439 | a bucket of which any one byte was changed, the checksum included, reads as empty |
| `SdCrc.CheckValue` | src/kv_sd.c:376-384 | the checksum's polynomial gives the published 0x29B1 for the text "123456789" from a register of all ones |
| `SdHash.Choice.AddLookup` | src/kv_sd.c:585-614 | adding a new key adds it and changes no other key |
| `SdHash.Choice.ReplaceLookup` | src/kv_sd.c:578-603 | an update in place changes its key only |
| `SdHash.Choice.RemoveLookup` | src/kv_sd.c:658-680 | removal by swapping with the last removes its key only |
| `SdHash.Choice.MoveLookup` | src/kv_sd.c:515-655 | between the two writes of an update the key reads as its old or new slot; afterwards as the new one; no other key ever changes |
| `SdHash.Choice.AnswerIsLookup` | src/kv_sd.c:498-513 | what a search of the two buckets answers is the map's value, when the key has at most one entry |
| `SdHash.Choice.DoubledInsert` | src/kv_sd.c:525-655 | what a key in both its buckets answers after another update: the new slot only when neither bucket has room |
| `SdHash.Choice.DoubledRemove` | src/kv_sd.c:658-680 | removing such a key leaves it in its second bucket |
| `SdTable.Table.Touch` | src/kv_sd.c:412-419 | the touched slot's age becomes 0 and only younger ones age |
| `SdTable.Table.CachedAt` | src/kv_sd.c:425-426 | finds the slot that caches a bucket |
| `SdTable.Table.Victim` | src/kv_sd.c:441-447 | a free slot, else an oldest one; with all ages 0, slot 0 |
| `SdTable.Table.ReadBucket` | src/kv_sd.c:421-454 | reads what the device holds whether cached or not; a bucket not cached takes the first free slot, else slot 0 |
| `SdTable.Table.WriteBucket` | src/kv_sd.c:458-473 | the device and the cache agree on the new entries |
| `SdTable.Table.Lookup` | src/kv_sd.c:498-513 | the slot found in the first bucket, else in the second, for any contents; slots from 2^31 on count as absent |
| `SdTable.Table.Insert` | src/kv_sd.c:525-655 | for any contents exactly the writes of the specification, refused exactly when there is no room; with one entry a key at most: then the map with the key set, and in every state the device passes through each key reads as before and this one as its old or new slot |
| `SdTable.Table.Move` | src/kv_sd.c:540-655 | the update to the other bucket writes twice, the new entry before the old one goes, for any contents |
| `SdTable.Table.Remove` | src/kv_sd.c:658-680 | for any contents the first entry found goes; false exactly when there was none; with one entry a key at most, the map without the key |
| `SdCrash.CrashInInsert` | src/kv_sd.c:498-655 | power lost at any write of an insert: a fresh table on the device as it is then looks every other key up as before, and this one as its old or new slot |
| `SdCrash.UpdateAfterCrash` | src/kv_sd.c:525-655 | an update after one interrupted between its writes: it succeeds, and exactly which slot is read then |
| `SdCrash.RemoveAfterCrash` | src/kv_sd.c:658-680 | a removal after such a crash: it succeeds, and the key is still found |
| `SdCrash.StaleRun` | src/kv_sd.c:525-655 | a run from an empty device in which a successful update is not what is read |
| `SdTable.MostRecentEvicted` | src/kv_sd.c:412-454 | seventeen buckets, the first read again: the last takes its place, not that of one read longer ago |
| `SdTable.EvictionRun` | src/kv_sd.c:412-473 | the same as a run of the table from any device |
| `SdCache.VictimLeastRecent` | src/kv_sd.c:412-454 | on a miss with a full cache slot 0 is reused, which is the least recently read one if and only if the other fifteen were all read since |
| `SdCache.FifteenStay` | src/kv_sd.c:412-454 | once the cache is full its other fifteen buckets stay for good |
| `SdAlloc.ScanBlock` | src/kv_sd.c:1070-1083 | the first clear bit of a bitmap block below the number of slots |
| `SdAlloc.Found` | src/kv_sd.c:1059-1080 | every block passed on the way round is full |
| `SdAlloc.Skipped` | src/kv_sd.c:1084-1086 | skipping the rest of a full block loses no slot, across the wrap and the partial last block |
| `SdAlloc.CachedFull` | src/kv_sd.c:1089-1092 | a block met again is the only one and full |
| `SdAlloc.SearchedAll` | src/kv_sd.c:1059-1094 | when the tries run out every slot is taken |
| `SdAlloc.BlockMap.constructor` | src/kv_sd.c:881-902 | the bitmap and a hint within bounds |
| `SdAlloc.BlockMap.Alloc` | src/kv_sd.c:1054-1095 | terminates; fails exactly when all slots are taken; otherwise the first free slot of the first block with one, going round from the hint |
| `SdAlloc.BlockMap.SetBit` | src/kv_sd.c:352-360 | changes the one slot |
| `SdAlloc.BlockMap.Take` | src/kv_sd.c:829-831 | hands out a free block and marks it, so none is handed out twice; fails exactly when all are in use |
| `SdAlloc.TakeEach` | src/kv_sd.c:1054-1095 | from a blank bitmap and any hint each block is handed out once, and then none |
| `WalMerge.ParseEncode` | src/wal_engine.c:83-95 | fields written are read back |
| `WalMerge.Splice` | src/wal_engine.c:106-127 | moving the tail and writing the field replaces exactly the old entry's bytes |
| `WalMerge.MergeField` | src/wal_engine.c:97-144 | the buffer holds the record with the field put: replaced, appended, or left out whole; never duplicated |
| `WalMerge.PutMap` | src/wal_engine.c:97-144 | ids stay distinct, the size stays within 508, and the map changes at that id only |
| `WalMerge.PutAllMap` | src/wal_engine.c:83-147 | the merged record is the stored map overridden by the delta's fields in turn |
| `WalMerge.AllFit` | src/wal_engine.c:83-147 | when record and delta fit together, every field is taken and the last one for an id wins |
| `WalMerge.Merge` | src/wal_engine.c:71-147 | the in-place merge of any delta bytes computes exactly that record and that map |
| `WalOrder.SortBySeq` | src/wal_engine.c:222-233 | the matches in sequence order, both lists together |
| `WalOrder.RisingUnique` | src/wal_engine.c:222-233 | there is one such order |
| `WalOrder.PackedWhole` | src/wal_engine.c:251-259 | nothing is cut off exactly when all deltas fit the slot |
| `WalState.CompactionKeepsLatest` | src/wal_engine.c:321-374 | every key keeps its newest entry, unless that was a tombstone over older ones: then it has none |
| `WalSlots.Engine.constructor` | src/main.c:47-50 | at boot every slot is free, nothing is pending and no entry is live |
| `WalSlots.Engine.OneHolder` | src/wal_defs.h:13-29 | each slot has exactly one holder: free, one entry, one request, one answer, or a core; none is ever lost |
| `WalSlots.Engine.TakeSlot` | src/wal_engine.c:26-31 | the first free slot, or none exactly when none is free |
| `WalSlots.Engine.Fill` | src/net_core.c:308-362 | core 0 writes into a slot it holds and changes nothing else |
| `WalSlots.Engine.Dispatch` | src/net_core.c:132-156 | the slot passes from core 0 to the request, which has a whole header |
| `WalSlots.Engine.Collect` | src/net_core.c:191-243 | frees exactly the slots that answers carry |
| `WalSlots.Engine.RoomForEntry` | src/wal_engine.c:152-163 | an append always finds an entry, so the full-index branch is never taken |
| `WalSlots.Engine.DoAppend` | src/wal_engine.c:37-179 | a part passed without copying lands after the header, which is kept, as is what follows it; the slot becomes a live entry with the next sequence number, under the key the header carries, a tombstone exactly for a delete; the refusal of a short delta is never taken; what it does to the flash store is `WalApply.ApplyAppend` |
| `WalState.FilledIs` | src/wal_engine.c:51-55 | the received part starts after the header and changes nothing else |
| `WalApply.ApplyAppend` | src/wal_engine.c:58-147 | the key's record is read, the fields merged into it and the result put, or the key deleted: exactly the command that the delta and the stored record make |
| `WalApply.LastFieldWins` | src/wal_engine.c:58-147 | over any run of appends: while the fields that a key received since it was last deleted take no more than 474 bytes, its record holds the last one of each id |
| `WalApply.ApplyThenGet` | src/wal_engine.c:58-147 | a read after such a run, from an erased region, returns that record, or nothing exactly when no append of the key was stored since |
| `WalSlots.Engine.DoRead` | src/wal_engine.c:187-269 | the key's deltas oldest first, as many as fit, in a slot of its own; every case without a slot keeps none |
| `WalSlots.Engine.Pack` | src/wal_engine.c:247-259 | the packed bytes are the first deltas that fit, and no source slot is overwritten |
| `WalSlots.Engine.DoKvGet` | src/wal_engine.c:272-299 | succeeds exactly when the value is stored and a slot free; keeps a slot exactly then |
| `WalSlots.Engine.DoKvPut` | src/wal_engine.c:302-313 | the request's slot is freed and the result reported |
| `WalSlots.Engine.DoNoop` | src/wal_engine.c:432-439 | answers and changes nothing else |
| `WalSlots.Engine.FindLatest` | src/wal_engine.c:340-352 | the newest entry of a key, and whether it has several |
| `WalSlots.Engine.Sweep` | src/wal_engine.c:353-373 | all entries of the key but the newest go, and a tombstone too; exactly their slots are freed |
| `WalSlots.Engine.CompactStep` | src/wal_engine.c:321-374 | compacts the key of the next live entry after the cursor and leaves every other key and slot alone |
| `WalSlots.Engine.Stuck` | src/wal_engine.c:353-373 | an exhausted pool has nothing left that could free a slot |
| `WalRuns.AppendKey` | src/wal_engine.c:26-179 | one append from allocation to answer, copied or handed over, takes the first free slot and the first free entry; the slot then holds the header and the fields sent |
| `WalRuns.FillPool` | src/wal_engine.c:26-179 | from boot, 32 appends of different keys exhaust the pool |
| `WalRuns.ReadOne` | src/wal_engine.c:37-269 | from boot, an append of any key, operation and fields, handed over or copied, and a read of that key: the answer is the delta sent, its entry a tombstone exactly for a delete |
| `WalRuns.ReadTwo` | src/wal_engine.c:187-269 | from boot, two appends under one key and a read: a count of two, with the bytes of both when they fit one slot, else those of the first alone |
| `WalRuns.CompactRound` | src/wal_engine.c:321-374 | with every slot held by an entry, 32 compaction steps free a slot if and only if two entries share a key |
| `QueryText.StrtolOfText` | src/query.c:333-346 | a printed 32-bit number reads back as itself |
| `QueryText.DecInjective` | src/query.c:642-645 | different numbers print differently |
| `QueryText.CompareIn` | src/query.c:309-319 | splitting in place finds exactly the pieces between commas |
| `QueryText.TokensSnoc` | src/query.c:309-319 | one more piece at the end of a list is one more piece |
| `QueryJoin.SearchPack` | src/query.c:531-552 | the first matching ids in scan order, up to the cap |
| `QueryJoin.BuildList` | src/query.c:639-647 | the printed list, stopped at 60 and cut at 63 characters |
| `QueryJoin.AcceptsExactly` | src/query.c:608-649 | exactly which values a list accepts, a cut last id included |
| `QueryJoin.ListExact` | src/query.c:639-649 | the list accepts exactly the matched ids if and only if every one is printed whole |
| `QueryJoin.SemiJoin` | src/query.c:608-649 | with the 64-match cap, the rows with a matching joined card if and only if all matching ids fit |
| `QueryJoin.ElevenCut` | src/query.c:639-649 | eleven five-digit ids: the last card's rows are lost and a wrong card's rows pass |
| `QueryPlan.ExtractInt` | src/query.c:356-380 | the value of the first field with the ordinal, with the type's width and sign |
| `QueryPlan.Evaluate` | src/query.c:803-815 | one condition on one card, numeric or text |
| `QueryValues.NumberMeets` | src/query.c:383-403 | a condition with a printed number compares as numbers do: equal, different, greater, less, at least, at most |
| `QueryValues.TextOrder` | src/query.c:299-308 | the same six for texts, in the order of the first difference |
| `QueryValues.FindsFirst` | src/query.c:356-368 | the search finds the first field with the ordinal, of any sequence of whole fields |
| `QueryValues.NumberDecodes` | src/query.c:366-377 | the bytes of a number in the width and sign of each type read back as it |
| `QueryValues.OddFields` | src/query.c:366-377 | a field shorter than its type counts as zero, and a type that is no number gives none |
| `QueryValues.CardMeets` | src/query.c:803-815 | a condition on a numeric field of a card, for every type, in terms of the number stored there |
| `QueryValues.NotMet` | src/query.c:356-359 | what is no card meets no condition on a number |
| `QueryValues.AbsentNotMet` | src/query.c:360-380 | neither does a card without the field |
| `QueryPlan.StrCmpOrders` | src/query.c:299-308 | the text comparison is zero exactly for equal texts and antisymmetric |
| `QueryPlan.Plan.constructor` | src/query.c:709-741 | a plan of the conditions as written |
| `QueryPlan.Plan.Swap` | src/query.c:746-752 | all five parts of two conditions change places |
| `QueryPlan.Plan.Sort` | src/query.c:743-755 | the same conditions, each with its own parts, in order of cost |
| `QueryPlan.OrderIrrelevant` | src/query.c:797-815 | the order of the conditions does not change the rows |
| `QueryPlan.Plan.Filter` | src/query.c:797-815 | the first 100 rows that meet every condition, in scan order |
| `QueryPlan.Plan.Run` | src/query.c:709-815 | for any costs, the same rows in the same order as without reordering |
| `QueryPlan.Query` | src/query.c:709-815 | from conditions to rows: the first 100 that meet all conditions, in scan order, for any costs |
| `QueryPlan.RewriteExact` | src/query.c:608-649 | for every row, the rewritten condition holds exactly when its lookup names a matching card, if and only if all matching ids fit the list |
| `BatchQueue.CardsParse` | src/udp_wal.c:395-408 | the cards parsed are exactly those sent |
| `BatchQueue.CardsCut` | src/udp_wal.c:394-409 | a payload that ends inside a card, or has a card that is too long, gives the cards before it |
| `BatchQueue.ReportsNext` | src/udp_wal.c:546-551 | setting the bit of a success keeps the bitmap equal to the outcomes |
| `BatchQueue.Queue.HandleBatchWrite` | src/udp_wal.c:364-409 | queues the parsed cards and stores nothing; ignores malformed batches; backpressure exactly when no slot is free |
| `BatchQueue.Queue.StoreNext` | src/udp_wal.c:546-553 | stores the next card of its batch once and records the outcome |
| `BatchQueue.Queue.Finish` | src/udp_wal.c:554-570 | exactly one acknowledgement when the batch asked for one, none otherwise |
| `BatchQueue.Queue.Poll` | src/udp_wal.c:537-573 | stores four cards or all that remain, of one batch before those after it, keeping what was stored and sent before; a batch whose last card it stores is acknowledged in the same poll; with fewer than four left every batch is finished |
| `BatchQueue.Queue.Drain` | src/udp_wal.c:537-573 | with nothing new coming in, a quarter of the cards left and one polls finish every batch, each card stored once |
| `BatchQueue.Queue.AllDone` | src/udp_wal.c:364-573 | over every run: each card of each accepted batch stored once, in order, with one acknowledgement reporting each outcome exactly when asked for |

## Left out

- PicoCodec.Decoder.Sink: an announced length above the payload buffer (508) but within the header check (531) ends the model's run with an outcome of its own, Overrun; what the firmware does past the end of its buffer is not modelled, and no encoder output gets there.
- PicoCodec.DecompressBuffer: counts that outcome as a failure.
- PicoRuns.DecodeChunks: counts that outcome as a failure.
- picocompress: the dictionary is any table of 96 entries of 3 to 8 bytes; the hash is the portable one; vector variants of the match length, statistics and null-pointer checks are not modelled. The block and its history are one value where the C code copies them together.
- Aead.Encrypt: does not model inputs longer than 2^32 - 64 bytes, where its loop does not end (`Aead.OffsetArrives`).
- Aead.SealInPlace: the same bound on the plaintext.
- Aead.OpenInPlace: the same bound on the ciphertext.
- HKDF and SHA-256 are not part of this model.
- KvStore.Store.CompactStep: the page named by the dead-page log is a parameter, any number; the dead-page log's own sectors are not modelled.
- KvStore.Store.EnsureReady: the erasing branch for a page that is neither blank nor headed cannot be reached from an erased region and is not modelled.
- KvStore: the flags array is only ever written and is left out; the CRC table is taken as the CRC it tabulates.
- KvRecovery.Reboot: says nothing after a page was reclaimed, a record dropped or a version wrapped, where the scan order by page number can differ from the order of writing.
- KvRecovery.CrashInPut: one crash followed by one scan; programming leaves some first bytes of what it was given; appends after a torn tail, and power lost while a page is erased or the dead-page log is written, are not modelled.
- KvRecovery.CrashInRemove: the same.
- SdTable: SD reads and writes succeed, each block whole.
- SdAlloc.BlockMap.Alloc: SD reads succeed, and the search position fits 32 bits.
- The SD store's own put, get and delete over packed blocks are not modelled.
- WalMerge.Merge: a stored record that is not a sequence of whole fields is not modelled (merging keeps records whole); without distinct ids only the field-by-field statement holds.
- WalSlots.Engine.DoAppend: sequence numbers do not wrap; the flash store is not part of the engine's state, and what an append does to it is stated in WalApply, for records that are whole fields with different ids.
- WalSlots.Engine.DoKvGet: the store's answer is a parameter.
- WalSlots.Engine.DoKvPut: the store's answer is a parameter.
- WalSlots: each operation of a core is one step; memory ordering, FIFO timeouts and core 0's two-second timeouts are not modelled.
- QueryPlan.Evaluate: the text of a field that is not numeric is a parameter; texts have no embedded zeros.
- QueryPlan: the cost estimates are any numbers; parsing of queries, projection of the output and aggregation are not modelled.
- QueryJoin.SearchPack: the scan of a joined pack is a sequence of cards, each readable or not and meeting the condition or not; its limit of 1024 cards is that of the sequence.
- BatchQueue.Queue.StoreNext: the outcome of each store is a parameter.
- BatchQueue.Queue.Poll: the same; the raw datagram ring is never filled by the code and is left out, as are sessions and encryption.
- Drivers, networking, the web server, user accounts and the FPGA and client code are plumbing and not modelled.
