# A lake of content-addressed blocks: model and proofs

The repository moves a large set of content-addressed blocks (the lake) between nodes with small
resumable tools that check everything they read. This project models those tools in Dafny and proves
what they promise: which archives the CAR tools write and accept, what the inventories, receipts and
the epoch log say, what every interrupted transfer keeps, and what the encodings and the block entrance
guarantee.

`dafny verify dfyconfig.toml` checks everything. SHA-256 is a function parameter. No lemma assumes that it
has no collisions at all: where collisions matter, a lemma names the texts or manifests of the run at hand
that must not collide, or gives the collision. Kubo, ssh, HTTP and S3 are parameters or arbitrary outcomes
of a step. A step that changes files is a method on a class whose fields are those files; its contract
equates the new state with a function of the old one or states the invariant, and the lemmas beside it
quantify over all runs. Where effects may fail or stop, the contract also says what a call does that nothing
disturbs. Written formats are read back by readers of their own, written from the format's definition:
`CborDecode` and `CarRoots` from RFC 8949 section 3, `ZstdFrame` from RFC 8878.

| module | what it models |
|---|---|
| Bytes, Bisect, Files, Inventory, InventoryText | byte strings, Python's bisection, files, inventory rows and their JSON-lines text |
| Varint, CarReader, CarCopy, CarLocality, CarTiling, CarIndex, CarV2, CarPack, ZstdFrame | `carv2_zstd.py` |
| Selection, CarExport, CarRoots | the exporter, the row selection it shares with the shipper, and a reader of CAR headers |
| Radix, Base32, Cids, Unicode, Respelling, Cbor, CborDecode, CborUnique | base58, base32, CIDs and dag-cbor of `graph_head.cljk`, `lake_head.cljk`, `block_ingest.cljk`, `raw_block_store.py` |
| MergeDelta, EpochLog, EpochSafety, EpochCycle, Witness | inventories compared, the epoch log and the cycles that extend it, the quorum verdict |
| Capture, CaptureSafety, CaptureWalk, CaptureAnyListing | the resumable listing walk |
| Replicate, ReplicateBatch, Ship, Readback | the pull into Kubo, the CAR shipment, the leaf readback |
| Paging, Projection, EpochMaps, Receipts | the reader, the projection of the log, receipts and their audit |
| Holds, RateLimit | the block entrance |

## What the proofs found

The model keeps the code as it is. Where a promise does not hold for every input, a lemma gives an input
and another one the exact condition.

- The exporter reads a CID's version as a varint of any length; the CARv2 tool wants it in one byte. A
  non-empty export is readable by the CARv2 tool if and only if every CID starts with the byte 1
  (`CarExport.ExportIsRead`, `CarExport.LongVersionIsExported`).
- In a CARv1 frame with a CIDv0 the digest length is counted by re-encoding it. A frame ends where its size
  prefix says if and only if that length is minimal (`CarTiling.DeclaredSizeExact`); every block gives an
  accepted section whose frame takes one byte more than it declares (`CarTiling.PaddedIsAccepted`).
- `parse-cid` accepts exactly four texts for one codec and digest: they differ in the two spare bits of the
  last character (`Cids.FourTexts`, `Cids.ParseSame`, `Cids.CidOfParse`).
- dag-cbor bytes do not determine the value. Strings are JavaScript strings, and an unpaired surrogate is
  written as U+FFFD: `{"x":"\ud800"}` and `{"x":"\ufffd"}` have the same bytes and so the same signature
  (`CborUnique.SurrogateTwins`), and one map may hold two keys with the same bytes (`CborUnique.KeyTwins`).
  The string with given bytes is the only one if and only if it has neither U+FFFD nor an unpaired surrogate
  (`Unicode.BytesUnique`). Values without unpaired surrogates are determined (`CborUnique.PlainExact`); among
  all values, `CborUnique.OnlyOneExact` says which are the only ones with their bytes. A key with U+FFFD can
  still be pinned by its neighbours in the key order (`CborUnique.PinnedKey`).
- dag-cbor sorts map keys of equal length as UTF-16, not bytewise. For keys without unpaired surrogates the
  order is that of RFC 8949 section 4.2.3 if and only if the first difference does not cross from
  U+E000..U+FFFF to U+10000 and above (`Cbor.KeyOrderIsCanonical`, `Cbor.KeyOrderDiffers`).
- After a commit the log holds the whole listing if and only if it holds the configured epoch-0 inventory
  (`EpochSafety.CommitCoversListing`, `EpochSafety.BaseOutsideLog`).
- A stopped capture can still be finished if and only if listed blocks are left to walk, the partial file
  begins with the checkpointed text, and the rows within the cutoff contain the old inventory
  (`CaptureSafety.FinishesExact`). Between its last checkpoint and the rename every capture can be stopped
  for good (`CaptureSafety.StuckAtTheEnd`); it fails closed.
- The reader wants 46 to 100 letters and digits in a CID, the other tools a base58 text of 46 characters or a
  base32 text of 21 to 201. A receipt the audit accepts makes the reader refuse every row if and only if its
  root is shorter than 46 or longer than 100 characters (`Receipts.ReaderAgreesWithAudit`,
  `Receipts.ShortRoot`, `Inventory.ReaderCidExact`).
- The reader keeps covering the rows of a receipt whose root lost its pin; the audit does not
  (`Receipts.LostPin`). They agree on all rows if and only if every row of such a receipt lies in a receipt
  whose root is pinned (`Receipts.ReaderAgreesWithAudit`). The recovery receipts of large blocks never add a
  row to the audit (`Receipts.MarkLarge`, `Receipts.Audit`).
- Releasing the last hold of a dag-cbor block removes a direct pin somebody else placed. The header of
  `block_ingest.cljk` promises that the lake's pins are untouched where it describes the MFS holds of raw
  blocks; its paragraph on dag-cbor names the direct pin and does not (`Holds.OtherPinIsLost`, `Holds.PinExact`).
- The shipper prints a refusal on standard error, the cycle reads standard output only. Its branch for a
  refused round is never taken: a refused shipment is called again until the rounds are used up
  (`Ship.Shipper.ShipRounds`).
- With `--min` at half of the witnesses or below two heads can both reach it (`Witness.HalfIsNotEnough`).
- A bucket table emptied because of other addresses gives an address one more burst
  (`RateLimit.WindowBound` counts them).

## Model

| member | source | states |
|---|---|---|
| Varint.EncodeUvarint | deploy/carv2_zstd.py:39-47 | refuses negatives; otherwise writes the shortest varint of the value |
| Varint.UvarintBits | deploy/carv2_zstd.py:39-47 | the bytes hold seven bits of the value each, lowest first; only the last has no high bit, and none can be left out |
| Varint.Known300 | deploy/carv2_zstd.py:39-47 | 300 is AC 02 |
| Varint.ReadVarintOfUvarint | deploy/carv2_zstd.py:50-66 | every minimal varint below 2^70 reads back as its value and length, wherever it stands |
| Files.ReadUvarint | deploy/carv2_zstd.py:50-66 | the reading loop gives the specified number or error and copies exactly the bytes it read |
| Files.ReadExact | deploy/carv2_zstd.py:69-78 | the next bytes whatever the chunking, refused when the file ends first |
| Files.CopyExact | deploy/carv2_zstd.py:81-90 | the same bytes reach the destination and the hash |
| CarReader.UvarintShortest | deploy/carv2_zstd.py:120-123 | the length the CIDv0 branch counts is never more than the length read |
| CarCopy.CopyFrame | deploy/carv2_zstd.py:114-153 | one frame is accepted or refused as specified, and copied unchanged |
| CarCopy.CopyCarv1Payload | deploy/carv2_zstd.py:93-158 | returns the specified rows or refusal; on success the section is in the destination byte for byte |
| CarLocality.ReadPayloadLocal | deploy/carv2_zstd.py:93-158 | what a section is accepted as depends on its own bytes only, wherever the section lies |
| CarTiling.AcceptedTiles | deploy/carv2_zstd.py:112-158 | an accepted section is a header and gapless frames, each ending with the row's digest and the block with that hash |
| CarTiling.DeclaredSizeExact | deploy/carv2_zstd.py:115-150 | a frame ends where its size prefix says if and only if it has no CIDv0 with a padded digest length |
| CarTiling.PaddedIsAccepted | deploy/carv2_zstd.py:120-123 | for every block: the whole section with a padded CIDv0 digest length is accepted, and its only frame takes one byte more than it declares |
| Bytes.LittleEndian | deploy/carv2_zstd.py:181-200 | the first byte of a packed field weighs least |
| CarIndex.EncodeIndex | deploy/carv2_zstd.py:181-196 | the loops over hash codes and widths write the specified index |
| CarIndex.IndexListsRows | deploy/carv2_zstd.py:181-196 | the index of n accepted rows has 30 + 40n bytes and lists exactly those rows, sorted |
| CarIndex.IndexLayout | deploy/carv2_zstd.py:181-196 | the index byte by byte: its 22 fixed bytes, the size of the record area, and each digest with its little-endian offset, by digest and then by offset |
| CarV2.ReadHeadExact | deploy/carv2_zstd.py:349-362 | the fixed fields are accepted if and only if they are the pragma and the header written for that size |
| CarV2.ValidateExact | deploy/carv2_zstd.py:349-369 | a file is accepted if and only if it is the wrapping of some CARv1 section, and that section is unique |
| CarV2.WrappedIsValidated | deploy/carv2_zstd.py:295-312 | a wrapping is accepted with its block count and has exactly 81 + 40n more bytes; its pragma, zero characteristics, offset 51, size and index offset stand at their places, and the section follows |
| CarV2.IndexFits | deploy/carv2_zstd.py:181-196 | an accepted section has an index unless the record area passes 2^64 bytes |
| CarPack.ValidateCarV2 | deploy/carv2_zstd.py:349-369 | the reading method accepts exactly the wrappings |
| CarPack.Pack | deploy/carv2_zstd.py:267-312 | succeeds exactly for indexable CARv1 sections within the limits; the data section is then the input and the result validates |
| CarPack.PackedFitsUnpack | deploy/carv2_zstd.py:423-426 | under pack's limits unpack never refuses a packed file for its size |
| ZstdFrame.ContentSizeOfFrame | deploy/carv2_zstd.py:377-397 | every frame header of RFC 8878 is read as the size it declares, or refused when it declares none, whatever follows |
| ZstdFrame.ContentSizeExact | deploy/carv2_zstd.py:377-397 | a file is read as declaring n bytes if and only if it starts with a header of RFC 8878 that declares n |
| Selection.ExportRows | deploy/export_lake_car_from_kubo.py:159-185 | succeeds exactly for a readable window of the named snapshot whose first row fits; returns as many rows as fit |
| Selection.ShipRows | deploy/ship_lake_car.py:188-231 | the same with raw rows ending the range; a blocked first row becomes a skip, an error, or the end |
| Selection.SkipExact | deploy/ship_lake_car.py:214-231 | a row is skipped exactly when the raw store has it or it is above 8,000,000 bytes, with a record of its number, CID, size and the reason |
| Selection.SelectedUnique | deploy/export_lake_car_from_kubo.py:159-185 | the rows that fit are determined by the window |
| Selection.SelectedIsLongest | deploy/export_lake_car_from_kubo.py:159-185 | the selection is the longest run of rows that one CAR can hold: rows of 1 to 8,000,000 bytes, their sizes and 1024 bytes a row within max-bytes |
| Selection.ExporterSelectsSame | deploy/ship_lake_car.py:307-339 | the exporter asked for as many rows as the shipper chose selects exactly those rows |
| CarRoots.HeaderBodyIsItem | deploy/export_lake_car_from_kubo.py:127-132 | a reader of RFC 8949 reads the header as the map of roots, a tag 42 on a zero byte and the CID for every item in order, and version 1 |
| CarRoots.ExportedHeader | deploy/export_lake_car_from_kubo.py:127-133 | an exported file is read as a CARv1 header with exactly its items' CIDs as links, ending where the frames begin |
| CarRoots.PragmaIsVersion | deploy/carv2_zstd.py:26 | the CARv2 pragma is read as a CAR header with version 2 and nothing else |
| CarExport.ExportedIsRead | deploy/export_lake_car_from_kubo.py:127-133 | the header and frames of matching blocks read back, in order, as each block's digest and frame offset, if and only if all versions are one byte |
| CarExport.Export | deploy/export_lake_car_from_kubo.py:188-256 | writes exactly header and frames when all CIDs and blocks are good; with selected rows the byte-budget refusal cannot happen |
| CarExport.BudgetCoversFile | deploy/export_lake_car_from_kubo.py:159-185 | any selected range makes a CAR of at most max-bytes |
| CarExport.ExportIsRead | deploy/export_lake_car_from_kubo.py:236-252 | the CARv2 tool accepts an exported file if and only if every CID has its version in one byte |
| CarExport.LongVersionIsExported | deploy/export_lake_car_from_kubo.py:93-112 | for every block: listed under a CID with a two-byte version it is exported within any budget with room for it, and the CARv2 tool refuses the file |
| Radix.ConvertKeeps | deploy/graph_head.cljk:49-62 | the carry loops give the same number with as many leading zeros, in digits below the base |
| Radix.DigitsDetermined | deploy/graph_head.cljk:49-62 | digits below the base are determined by the number and the leading zeros |
| Radix.ConvertInverse | deploy/graph_head.cljk:49-62 | the carry loops to another base and back are the identity, leading zeros included |
| Radix.Base58Inverse | deploy/lake_head.cljk:53-77 | base58 encode and decode are inverse both ways; decoding succeeds exactly on base58 texts |
| Radix.Decode58Number | deploy/graph_head.cljk:49-62 | the decoded bytes name, most significant first, the number the characters name to the base 58, with a zero byte for each leading 1 |
| Radix.Alphabet58 | deploy/graph_head.cljk:47 | the digits without 0, the capitals without I and O, the small letters without l, in this order |
| Radix.Known58 | deploy/lake_head.cljk:53-64 | the bytes 1, 0 are 5R, and 0, 0, 58 are 1121 |
| Base32.Base32RoundTrip | deploy/graph_head.cljk:66-71 | decoding undoes encoding for every byte string |
| Base32.Encode32Number | deploy/graph_head.cljk:66-71 | the text has as many characters as the bits need and names the bytes' number, most significant first, with the spare bits zero |
| Base32.DecodeIsBits | deploy/block_ingest.cljk:75-84 | the shift register emits the bytes of the concatenated quintets whatever it holds above |
| Base32.CanonicalText | deploy/block_ingest.cljk:75-84 | encoding undoes decoding if and only if no character and no bit is left over |
| Cids.Alphabet32 | deploy/graph_head.cljk:64 | the small letters and then 2 to 7, in order |
| Cids.ParseOfCidOf | deploy/block_ingest.cljk:86-101 | the text of a codec and digest spells the bytes 01, 55 or 71, 12, 20 and the digest; parse-cid gives the codec and digest back |
| Cids.CidOfParse | deploy/block_ingest.cljk:86-101 | a parsed text is given back if and only if its spare bits are zero |
| Cids.ParseSame | deploy/block_ingest.cljk:86-94 | a text names the codec and digest of a parsed one if and only if it differs from it at most in the spare bits |
| Cids.FourTexts | deploy/block_ingest.cljk:86-94 | exactly four texts name one codec and digest |
| Cids.DecodeVarint | deploy/raw_block_store.py:22-32 | the loop reads a varint of at most ten bytes or refuses it |
| Cids.DecodeBase58 | deploy/export_lake_car_from_kubo.py:96-100 | the big-number conversion gives the same bytes as the carry loops |
| Cids.Decode58IsNumber | deploy/export_lake_car_from_kubo.py:96-100 | the head tools' base58 bytes are a zero for each leading 1 and then the exporter's number |
| Cids.DigestsAgree | deploy/raw_block_store.py:35-64 | exporter and raw store read the same digest from every inventory CID; the exporter accepts exactly those with a known codec |
| Unicode.OrdersAgree | deploy/graph_head.cljk:142 | over all JavaScript strings: UTF-16 and UTF-8 order two strings alike if and only if neither or each of two things turns them round, replacing unpaired surrogates and a first difference that crosses |
| Unicode.BytesUnique | deploy/graph_head.cljk:134 | a string is the only one with its UTF-8 bytes if and only if it has neither U+FFFD nor an unpaired surrogate |
| Unicode.KnownCharacter | deploy/graph_head.cljk:134 | a surrogate pair spells U+1F600 and is written F0 9F 98 80; half of it is written EF BF BD |
| CborDecode.DecodeOfEncode | deploy/graph_head.cljk:125-147 | whatever follows them, the bytes of a value are read by a reader of RFC 8949 as that value: its integers, strings, lists, its map keys in the written order with their values, and nothing more |
| Cbor.HeadUnique | deploy/graph_head.cljk:125-132 | two heads at the start of the same bytes are the same head |
| Cbor.EncodeUnique | deploy/graph_head.cljk:136-147 | equal bytes with anything behind them come from values that are the same up to unpaired surrogates: no encoding is a proper prefix of another |
| Cbor.EncodeExact | deploy/graph_head.cljk:136-147 | two values have the same bytes if and only if they are the same with every unpaired surrogate replaced, entry by sorted entry |
| CborUnique.PlainExact | deploy/graph_head.cljk:136-147 | without unpaired surrogates two values have the same bytes if and only if they are the same value |
| CborUnique.SurrogateTwins | deploy/graph_head.cljk:134 | two different values with the same bytes |
| CborUnique.KeyTwins | deploy/graph_head.cljk:142-143 | two keys of one map with the same bytes |
| CborUnique.OnlyOneExact | deploy/graph_head.cljk:136-147 | a value is the only one with its bytes if and only if its strings have neither U+FFFD nor an unpaired surrogate and no key's next or previous spelling fits between its neighbours |
| CborUnique.KeySettledExact | deploy/graph_head.cljk:142-143 | no string at all fits in the place of a key if and only if its next and its previous spelling do not |
| Respelling.NeighboursExact | deploy/graph_head.cljk:134 | the computed next and previous string have the same UTF-8 bytes, and no other string with these bytes stands nearer |
| CborUnique.ClearIsOnlyOne | deploy/graph_head.cljk:136-147 | a value without U+FFFD and unpaired surrogates is the only one with its bytes; when no map has two keys, no other is |
| CborUnique.PinnedKey | deploy/graph_head.cljk:142-143 | a map with U+FFFD in a key that is the only value with its bytes |
| Cbor.InsertionOrder | deploy/graph_head.cljk:142-143 | the bytes of a map do not depend on insertion order, whatever strings its keys are |
| CborDecode.SortedInKeyOrder | deploy/graph_head.cljk:142 | written map keys stand in order of their length in bytes, those of equal length in UTF-16 order |
| CborDecode.SortedIsCanonical | deploy/graph_head.cljk:142 | two written keys without unpaired surrogates stand in the order of RFC 8949 section 4.2.3 if and only if their lengths differ or their first difference does not cross |
| Cbor.KeyOrderIsCanonical | deploy/graph_head.cljk:142 | when the order of two keys of equal length is the bytewise order of RFC 8949 section 4.2.3, with and without unpaired surrogates |
| Cbor.KeyOrderDiffers | deploy/graph_head.cljk:142 | two keys it orders the other way |
| InventoryText.KnownRow | deploy/capture_lake_inventory.cljk:215 | one row line, byte by byte |
| InventoryText.DecimalExact | deploy/capture_lake_inventory.cljk:215 | a size is written in decimal digits that name it, without leading zeros |
| InventoryText.ReadRowReads | deploy/capture_lake_inventory.cljk:215 | a reader of an object with a string cid and then a decimal bytes reads every written row line as its row |
| Inventory.BeforeExact | deploy/diff_lake_inventory.cljk:42-53 | the row order: a proper beginning of the other text, or the smaller character where they first differ |
| InventoryText.ReadBack | deploy/diff_lake_inventory.cljk:42-53 | a rendered inventory of increasing writable rows reads back as those rows |
| InventoryText.AcceptedRows | deploy/diff_lake_inventory.cljk:42-53 | whatever the text, accepted rows have valid CIDs, positive sizes and strictly increasing order |
| MergeDelta.MergeExact | deploy/diff_lake_inventory.cljk:55-74 | accepts if and only if new contains every old (cid, size); delta = new minus old in order; totals new = old + delta |
| MergeDelta.SupersetExact | deploy/capture_lake_inventory.cljk:77-89 | the drop-while walk succeeds if and only if new contains every old row |
| MergeDelta.SupersetAgreesWithMerge | deploy/capture_lake_inventory.cljk:77-89 | superset check and merge accept the same pairs |
| MergeDelta.EpochDelta | deploy/lake_epoch.cljk:53-70 | refuses exactly a held CID with another size or a repeated new CID; otherwise the rows whose CID the log lacks |
| MergeDelta.DeltaCompletes | deploy/lake_epoch.cljk:53-70 | an accepted delta is disjoint from the log and completes it to every row of the diff, adding nothing else |
| EpochCycle.Ledger.Witness | deploy/lake_head.cljk:273-320 | a pending record is committed only at the next sequence number; the first wins; the world invariant holds on |
| EpochCycle.Cycle.StepHead | deploy/lake_epoch_cycle.cljk:131-136 | the epoch is one past a verified head, with that head as predecessor |
| EpochCycle.Cycle.StepWalks | deploy/lake_epoch_cycle.cljk:160-172 | two agreeing walks that contain the base give listing and diff |
| EpochCycle.Cycle.StepResolve | deploy/lake_epoch_cycle.cljk:174-189 | the log is read only if it still has exactly the expected epochs |
| EpochCycle.Cycle.StepDelta | deploy/lake_epoch_cycle.cljk:191-199 | the inventory is the accepted delta of the resolved log and the diff |
| EpochCycle.Cycle.StepManifest | deploy/lake_epoch.cljk:72-87 | an empty epoch is refused; otherwise the manifest with predecessor and rows is stored, under a CID no other manifest has |
| EpochCycle.Cycle.StepSubmit | deploy/lake_epoch_cycle.cljk:354-358 | submits the manifest for its epoch |
| EpochCycle.Cycle.StepSettle | deploy/lake_head.cljk:288-298 | done only when the head at that sequence number is this manifest |
| EpochCycle.Cycle.StepCheck | deploy/lake_epoch_cycle.cljk:369-379 | done exactly when the resolved log contains every listing row and the step is saved |
| EpochCycle.Cycle.RunCycle | deploy/lake_epoch_cycle.cljk:410-429 | runs the steps not yet done, with witnesses committing in between: reports a commit exactly when all are done, and the log then holds every listed row; reports nothing only when the log already holds everything beyond the base. When the turns favour it (the head is the log's end, the walks agree on an increasing listing that contains epoch 0, every step is saved and its record is committed in its turn) it always ends so: nothing if the log has every row, a commit one epoch further otherwise. Nothing is said where two manifests would have one CID |
| EpochCycle.Lake.DoAll | deploy/lake_epoch_cycle.cljk:410-446 | any number of cycles on one ledger, interleaved in any way without two manifests of one CID, do what the runs of the log theorems do, so the log stays distinct and linked and only grows |
| EpochSafety.ResolveIsLog | deploy/lake_head.cljk:381-425 | the prev walk from any committed head succeeds and yields the epochs up to it, in order |
| EpochSafety.WalkExact | deploy/lake_head.cljk:381-425 | over any store the walk succeeds if and only if manifests of epochs n to 0 are chained by prev, and yields exactly that chain |
| EpochSafety.StepPasses | deploy/lake_epoch_cycle.cljk:410-429 | a step is marked done exactly when its check passes and it is saved, and changes only what it names |
| EpochSafety.StepKeeps | deploy/lake_epoch_cycle.cljk:410-429 | every step, finished or repeated after a stop, keeps the world and run invariants unless it writes a manifest under the CID of another |
| EpochSafety.LogSafety | deploy/lake_epoch_cycle.cljk:410-446 | over every interleaving of cycles that writes no manifest under the CID of another: no CID in two epochs or twice in one, no epoch empty, predecessors linked, log append-only |
| EpochSafety.CommitCoversListing | deploy/lake_epoch_cycle.cljk:369-379 | a commit adds exactly the diff; the log then contains the listing if and only if it contains the configured base |
| EpochSafety.CommitCoversListingOfEpochZero | deploy/lake_epoch_cycle.cljk:138-172 | configured with epoch 0 as base, after every commit of a run without two manifests of one CID the log contains every (cid, size) of the listing |
| EpochSafety.BaseOutsideLog | deploy/lake_epoch_cycle.cljk:138-172 | for all rows a, b, c with different CIDs, b before c: a run with base b that lists b and c over a log of a commits an epoch and leaves b outside the log, the two manifests having different CIDs |
| EpochSafety.BaseOutsideLogRows | deploy/diff_lake_inventory.cljk:42-53 | three rows every tool accepts that are such a case |
| EpochSafety.FirstWins | deploy/lake_head.cljk:288-298 | two runs that settled the same epoch settled the same manifest, and it stays as long as no manifest is written under the CID of another |
| Witness.VerifiedExact | deploy/lake_head.cljk:213-229 | a head is verified if and only if enough witnesses prove one, and it is one of those; otherwise split if and only if two heads are proved, absent if and only if none is and enough witnesses have none |
| Witness.VerifiedUnique | deploy/lake_head.cljk:213-229 | with agreement of more than half the verified pair is unique |
| Witness.VerifiedForward | deploy/lake_head.cljk:213-229 | if no witness goes back or renames, a later verified head is not lower and keeps the CID of its number |
| Witness.FiveOfSeven | deploy/lake_head.cljk:159-165 | all of this for the deployed seven witnesses and agreement of five |
| Witness.HalfIsNotEnough | deploy/lake_head.cljk:213-229 | at half or below two heads can both reach the agreement |
| CaptureWalk.Walk.Open | deploy/capture_lake_inventory.cljk:159-197 | a start reports or finishes a published output, resumes a checkpoint, or begins; every mixed state is refused |
| CaptureWalk.Walk.AppendPage | deploy/capture_lake_inventory.cljk:203-221 | appends exactly the page's rows within the cutoff and prepares the checkpoint |
| CaptureWalk.Walk.Publish | deploy/capture_lake_inventory.cljk:230-234 | renames only after the superset check |
| CaptureWalk.Walk.Run | deploy/capture_lake_inventory.cljk:151-236 | from any stop, a run that lives long enough completes if and only if the capture can still be finished; after a publication every run completes; whatever ends it, a published file is the whole listing |
| CaptureSafety.IncludedExact | deploy/capture_lake_inventory.cljk:207-219 | the included rows are exactly the listing's rows uploaded at the cutoff or before; without a cutoff, all |
| CaptureSafety.PageKeeps | deploy/capture_lake_inventory.cljk:203-229 | an accepted page moves the checkpoint to a later position it describes exactly |
| CaptureSafety.NothingAfterTheEnd | deploy/capture_lake_inventory.cljk:207-210 | a page fetched after the whole listing is refused |
| CaptureSafety.ResumeExact | deploy/capture_lake_inventory.cljk:66-75 | a resumed walk goes on if and only if the partial file still begins with the checkpointed text, given that no beginning of it collides with a text of the walk |
| CaptureSafety.PublishedExact | deploy/capture_lake_inventory.cljk:151-236 | whatever starts, stops and altered partial files without such a collision: a published output is the rendering of all rows within the cutoff, once each, in order, containing the old inventory |
| CaptureSafety.StopsForGood | deploy/capture_lake_inventory.cljk:229-235 | after a stop between the last checkpoint and the rename nothing is ever published |
| CaptureSafety.FinishesExact | deploy/capture_lake_inventory.cljk:151-236 | a stopped capture whose partial file collides with no text of the walk can be finished, by runs that may stop again, if and only if blocks are left, the partial file begins with the checkpointed text, and the rows within the cutoff contain the old inventory |
| CaptureSafety.StuckAtTheEnd | deploy/capture_lake_inventory.cljk:223-235 | every non-empty listing has a run that stops with its whole file written and checkpointed, after which no run publishes |
| CaptureSafety.UndisturbedRun | deploy/capture_lake_inventory.cljk:151-236 | an undisturbed run publishes if and only if the rows within the cutoff contain the old inventory |
| CaptureAnyListing.PublishedIsSound | deploy/capture_lake_inventory.cljk:151-236 | whatever the listing answers, whatever the hash: what is published reads back as valid rows in strictly increasing order that contain the old inventory; if no two texts the run hashes collide it is their rendering |
| Replicate.Prefetch.Next | deploy/replicate_lake.py:614-640 | items are yielded in order with at most the allowed fetches and bytes in flight, and no fewer than fit; refuses only an item larger than the budget |
| ReplicateBatch.InventorySizes | deploy/replicate_lake.py:419-438 | accepts exactly non-empty inventories of valid, distinct rows, and maps each CID to its size |
| ReplicateBatch.Replicator.PrepareListingState | deploy/replicate_lake.py:441-483 | refused, changing nothing, exactly when the checkpoint cannot be continued; otherwise the same walk, a first one, or row 0 of an inventory that contains the previous one |
| ReplicateBatch.Replicator.SelectPage | deploy/replicate_lake.py:665-692 | every row of the page is stored with its size or selected, and the selection stays in the byte budget; a calm call selects exactly the rows it lacks until the budget is spent |
| ReplicateBatch.Replicator.Pull | deploy/replicate_lake.py:694-707 | selected rows are stored one by one and counted after they are durable; a stop keeps the cursor; a calm call stores them all |
| ReplicateBatch.Replicator.RunBatch | deploy/replicate_lake.py:643-728 | however a call ends, stops between any two effects included, rows before the saved cursor are stored with their listed size, new bytes stay within the bound, and a cycle is counted only with every row stored. An undisturbed call moves the cursor by 200 rows a page up to its pages or bytes, counts the pages, and completes the cycle exactly when they cover the rest |
| ReplicateBatch.Replicator.RunAll | deploy/replicate_lake.py:643-728 | any sequence of calls: the saved cursor stays sound after each, and when a cycle was counted some call's whole inventory is stored and contained in the one named now; enough undisturbed calls on one inventory count a cycle |
| ReplicateBatch.CyclesAreComplete | deploy/replicate_lake.py:719-724 | over any sequence of calls and rollovers: each counted cycle had every row stored, they still are, and the current inventory contains them |
| ReplicateBatch.HistoryGrows | deploy/replicate_lake.py:441-483 | stored blocks stay and later inventories contain earlier ones |
| Ship.Shipper.ShipOnce | deploy/ship_lake_car.py:234-474 | however a call ends the tiling invariant holds; complete exactly at the stop row; otherwise refused, changing nothing, exactly when the selections do not accept the window, and an undisturbed call that is not refused adds the one tile there is, moves the cursor and names it |
| Ship.Shipper.ShipRounds | deploy/lake_epoch_cycle.cljk:279-298 | rounds keep every tile and end at the stop row when complete; a refusal is never seen on standard output, so otherwise all rounds are used up. Enough undisturbed rounds finish if and only if every row ahead is readable and is skipped or fits alone |
| Ship.NextTileUnique | deploy/ship_lake_car.py:260-293 | what a successful call at a row does is determined by the arguments |
| Ship.TilesCover | deploy/ship_lake_car.py:388-459 | every row from the start row to the cursor is in exactly one accepted range or skip |
| Ship.TilingUnique | deploy/ship_lake_car.py:234-293 | the tiling up to a row is a function of the arguments, whatever stops happened |
| Ship.RowAccounted | deploy/ship_lake_car.py:388-459 | every row before the cursor has an import receipt range or a skip record |
| Ship.ExportedRows | deploy/ship_lake_car.py:307-339 | the rows the source exports are the rows the shipper selected |
| Readback.ReadRow | deploy/verify_lake_leaves.py:163-178 | a row is passed only with bytes of its size and CID digest, or as a confirmed gap when gaps are scanned |
| Readback.Advance | deploy/verify_lake_leaves.py:149-191 | passes exactly the rows its readings allow within the byte bound and ends only at a bound, the end or a gap it waits for; a refusal names what is wrong with its row; complete if and only if all rows were read with none missing |
| Readback.Verifier.Run | deploy/verify_lake_leaves.py:194-231 | one invocation: the checkpoint it loads is never refused, and is advanced as far as the readings allow, or kept when the call is refused or stops |
| Readback.Verifier.RunAll | deploy/verify_lake_leaves.py:194-231 | any sequence of invocations keeps the counts exact; in the default mode the checkpoint is a function of the rows before its cursor; undisturbed ones pass at least a row each until the end |
| Readback.DefaultIsFunctionOfRows | deploy/verify_lake_leaves.py:149-191 | in the default mode the checkpoint at cursor k is a function of the first k rows alone, over any sequence of calls |
| Readback.CountsAdd | deploy/verify_lake_leaves.py:104-130 | in both modes present plus missing rows are the cursor and their bytes the sum of the first sizes |
| Bytes.BigEndian | deploy/verify_lake_leaves.py:182-185 | the first byte of a number in the digest weighs most |
| Readback.EntryFields | deploy/verify_lake_leaves.py:182-185 | what is hashed at a row: the running digest, its number, its CID, its size, present or missing, and the digest, each at its place |
| Readback.DigestBinds | deploy/verify_lake_leaves.py:182-185 | equal running digests at one cursor mean the same rows, gaps and block digests, unless at some row the two readbacks hashed different bytes to one value |
| Readback.HistoryDigest | deploy/verify_lake_leaves.py:149-191 | in both modes the running digest is that of one fact a row: present with the digest of the bytes read, or missing with zeros |
| Readback.DefaultDigest | deploy/verify_lake_leaves.py:182-185 | the default mode's running digest is that of the rows as present with their CIDs' digests |
| Paging.Load | deploy/serve_lake.py:28-59 | accepts exactly the declared snapshot of distinct rows with the reader's CIDs; positions and sizes index exactly the rows |
| Inventory.ReaderCidExact | deploy/serve_lake.py:17 | of the CIDs the other tools accept the reader accepts exactly those of 46 to 100 characters |
| Paging.EpochRowsExact | deploy/serve_lake.py:289-297 | rows are given for an offset inside the lake and a limit of 1 to 1000: as many as the limit and the epoch allow |
| Paging.EpochPage | deploy/serve_lake.py:289-303 | a page exists exactly for a cursor inside the lake, has 1 to 200 rows, and its cursor follows it |
| Projection.LocatedIs | deploy/serve_lake.py:289-297 | the bisection finds the epoch of every row, empty epochs or not |
| Projection.FollowIsProjection | deploy/serve_lake.py:289-303 | following the cursor from 0 is refused exactly for an empty lake and otherwise gives the projection's pages: every row once, in order |
| Projection.BuildExact | deploy/project_lake_log.cljk:42-72 | build accepts exactly consistent epochs 0, 1, ... with that head, writes the pages the reader serves, and the head last |
| Projection.ProjectedRows | deploy/project_lake_log.cljk:42-72 | the head lists every epoch with its inventory, digest and rows; under an epoch's digest row k of its file is row k % 200 of page k / 200, and no other page key exists, as long as files with one digest are one file |
| EpochMaps.LoadEpochs | deploy/serve_lake.py:260-287 | refuses exactly an empty list, a wrong total or a CID in two epochs; owner and size maps are exact |
| EpochMaps.OwnerIsLister | deploy/serve_lake.py:315-319 | a block is read through the one epoch that lists it |
| Bisect.BisectRight | deploy/serve_lake.py:190 | how many elements are at most the argument |
| Receipts.Merge | deploy/serve_lake.py:175-181 | sorted ranges become separated ranges with exactly the same rows |
| Receipts.BisectedExact | deploy/serve_lake.py:186-191 | the bisection over merged ranges succeeds if and only if some range has the row |
| Receipts.CarReceipts.Refresh | deploy/serve_lake.py:138-184 | refused exactly for an absent directory or, when one changed, a receipt that is not well formed; a refusal leaves everything unchanged |
| Receipts.CarReceipts.Covers | deploy/serve_lake.py:138-191 | refreshes first and refuses when that refuses; otherwise true exactly for rows some receipt's range contains |
| Receipts.AuditAcceptsExact | deploy/audit_lake.py:123-150 | a receipt the audit accepts is given by its kind, a range of at most 1000 rows and its root |
| Receipts.MarkReceipts | deploy/audit_lake.py:123-187 | accepts exactly receipts of matching range, size and root; marks exactly the rows of those with pinned roots |
| Receipts.LargeExact | deploy/audit_lake.py:188-214 | a large receipt the audit accepts is given by its row and its root |
| Receipts.MarkLarge | deploy/audit_lake.py:188-214 | accepts exactly when every large receipt fits its row; marks exactly the rows whose own CID is pinned and whose receipt's root is |
| Receipts.Audit | deploy/audit_lake.py:102-250 | marks exactly the rows held by receipt, pin or raw store; the totals are those of the marks; complete if and only if all are marked |
| Receipts.ReaderAgreesWithAudit | deploy/serve_lake.py:138-191 | of the receipts the audit accepts the reader accepts exactly those with a root of 46 to 100 characters; reader and audit then agree on all rows if and only if every row of a receipt with a lost pin lies in a pinned one |
| Receipts.ShortRoot | deploy/serve_lake.py:17 | a receipt the audit accepts and the reader refuses |
| Receipts.LostPin | deploy/audit_lake.py:144-146 | a receipt whose root is not pinned: covered by the reader, not marked by the audit |
| Holds.KuboStore.HandlePut | deploy/block_ingest.cljk:217-221 | pin first, then the hold, stopping anywhere |
| Holds.KuboStore.HandleDelete | deploy/block_ingest.cljk:233-240 | the hold first, then the pin if nobody is left, stopping anywhere |
| Holds.KuboStore.Serve | deploy/block_ingest.cljk:260-300 | any sequence of authorised requests does what the hold theorems run over; held blocks are pinned throughout, and without stops the pins at the end are exactly as stated |
| Holds.HeldExact | deploy/block_ingest.cljk:217-240 | raw and dag-cbor blocks alike: a PUT ends with the block held, a DELETE without, and no other signer's or block's hold changes; raw blocks touch no pins |
| Holds.HeldIsLast | deploy/block_ingest.cljk:217-240 | without stops a signer holds a block exactly when the signer's last request on it was a PUT |
| Holds.HeldIsPinned | deploy/block_ingest.cljk:164-182 | at every point of every run a dag-cbor block some signer holds is pinned |
| Holds.PinExact | deploy/block_ingest.cljk:233-240 | without stops a block is pinned at the end if and only if somebody holds it, or it was pinned and nobody's last hold of it was released |
| Holds.OwnPinExact | deploy/block_ingest.cljk:233-240 | without stops the service's own pin exists exactly while some signer holds the block |
| Holds.OtherPinIsLost | deploy/block_ingest.cljk:233-240 | a PUT and DELETE remove a direct pin that was there before |
| RateLimit.Limiter.Admit | deploy/block_ingest.cljk:311-319 | one request refills, admits or refuses, and may empty the table as specified; no bucket ever holds more than a burst |
| RateLimit.Limiter.Serve | deploy/block_ingest.cljk:311-319 | over a window of requests the limiter admits what the bound counts, and no more than the bound |
| RateLimit.AdmittedExact | deploy/block_ingest.cljk:311-319 | a request is admitted if and only if no window of its address that ends with it would then hold more than burst + rate (t2 - t1) / 1000 admitted requests; windows reach back to where the table was last emptied for others |
| RateLimit.TableBounded | deploy/block_ingest.cljk:311-319 | the table holds at most 10,001 addresses |
| RateLimit.WindowBound | deploy/block_ingest.cljk:311-319 | in any window at most burst + rate (t2 - t1) / 1000 requests are admitted, plus one burst per table reset by others |

## Left out

- SHA-256, Ed25519, the zstd compressor, witness commitments and their proofs: abstract functions or given outcomes.
- Kubo RPC, ssh, scp, curl, S3, nginx, file locks, fsync and permissions: only their success, refusal or stop. Writing a checkpoint is atomic, as the temporary file and rename make it.
- `pack`, `unpack`: compression itself, temporary files and receipts; modelled are the CARv2 file and the size bounds.
- Canonical JSON (`canonical-str`), JSON parsing and whitespace: a line parser is a parameter that reads rendered rows back.
- `delta!` in `diff_lake_inventory.cljk`: comparing the two walks' receipts; a run of the cycle takes two walks that agree.
- `lake_epoch_cycle.cljk`: the steps xavier, jacob, cids, bundle and reader, which change no log; `pick-work` and locks. An interrupted step is repeated with whatever files it left.
- Manifest and inventory are one object addressed by one CID; custody and authority texts are one string. Only the cycles submit records.
- Capture: the remote listing answers each cursor with one page, the same every time; retries and time parsing are not modelled.
- Capture and cycle arguments are fixed over a run, so identity checks on them always pass.
- `replicate_lake.py`: legacy cursors, peer and fallback sources, receipts; public listings. Digests stand for the inventories they name, and nobody unpins.
- `ship_lake_car.py`: the compressed transport, S3 archival and saved export receipts; the exporter at the source reads the same inventory.
- `project_lake_log.cljk`: the manifest and bundle CIDs copied into the head, the objects' JSON text, and `--put-cmd`.
- `serve_lake.py`: HTTP handlers, reading a block's bytes, file identity checks.
- `audit_inventory` in `audit_lake.py` and all drills, mirrors, heads and gossip tools.
- Ledger.Witness and the verdict are separate models: a verified head is some committed position, as the quorum lemmas justify.
- AdmittedExact: real numbers for tokens, so no rounding.
- WindowBound: real numbers for tokens, so no rounding, and times that do not go back.
- RunCycle: between its steps only the witnesses act; cycles that interleave are those of `EpochCycle.Lake`.
- HeldIsPinned: one request at a time; concurrent requests are not promised by the code.
- Readback: eight-byte fields for sizes and cursors below 2^64.
