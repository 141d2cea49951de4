# Verified model of the NAS file controller

The repository is a controller for files on a NAS: it indexes directories, plans and executes batch
renames, moves and quarantines, undoes them, and salvages damaged archives. This project models its
most intricate parts in Dafny and proves what they promise, for every input, every run and every
interleaving. `dafny verify dfyconfig.toml` checks all of it.

What is modelled, by module:

- **Deep 7z recovery** (`app/archive_recovery/aes_lzma2.py`). `SevenZipNumber`, `SevenZipStreams`,
  `SevenZipReader`, `SevenZipFiles` and `SevenZipHeader` are the header parser: a set of parsing
  functions, the reader object that agrees with them step by step, and the conservation laws of every
  accepted header; `SevenZipWriter` is a writer after the format description, whose output the parser
  reads back, so that the parser accepts exactly the conserved metadata the format can hold, and
  `SevenZipFilesWriter` and `ArchiveWriter` write the file section, the header and the archive.
  `Lzma2Framing` is the buffered stream and both frame parsers, the streaming one
  proved to refine the random-access one. `BatchReference` says, without cursors or candidates, which
  files a folder must yield; `StreamingRecovery` is the incremental extractor with its resets, decode
  failures and skips, proved to publish exactly that. `ResyncReference` is the CRC search after lost
  framing as a plain function, sound and complete for what it covers, and `SegmentResync` the search with
  its shortcuts, equal to it; `DeepRecovery` is the run over all folders, and `ArchiveInspection` the run
  from the bytes of an archive: header checks, the choice of folders and their packed ranges.
  `Lzma2Writer` writes chunks after the format description, which the frame parsers accept exactly, and
  `UndamagedData` closes the circle: what was written and is still there is found, byte for byte.
  `ArchiveFiles`, `Bits` and `Crc32` hold the shared entities and arithmetic.
- **ZIP salvage** (`app/archive_recovery/core.py`): `ZipResync`, a windowed search that equals trying
  every position.
- **Directory paging** (`app/service.py`): `DirectoryPaging`, Python's heap on a list, and a page that
  equals a slice of the fully sorted directory.
- **Index replacement** (`app/service.py`): `IndexReplacement`, batched upserts and a sweep by generation.
- **Quarantine lifecycle** (`app/service.py`): `QuarantineLifecycle`, a machine over every commit and
  filesystem step of quarantining, restoring, purging and start-up, with interleaving and crashes.
- **Undo plans** (`app/service.py`, `app/execution/executor.py`): `UndoPlan`, the inverse of a run.
- **Plan executions** (`app/service.py`, `app/tasks/service.py`): `PlanExecutions`, enqueueing,
  retrying, deleting and clearing by any number of callers.
- **Empty directories** (`app/batch_utilities/empty_dirs.py`, `empty_dir_quarantine.py`): `EmptyDirs`,
  discovery and removal order over trees of any depth; `EmptyDirRelocation`, the move that checks and
  rolls back against an adversary.
- **Batch renames** (`app/batch/file_rename.py`, `app/batch/directory_rename.py`): `BatchRename`.
- **Directory comparison** (`app/batch/directory_compare.py`): `DirectoryCompare`.
- **Login limiter** (`app/auth/rate_limiter.py`): `LoginLimiter`.

`FileTree`, `Names` and `Wrappers` are shared by several of these.

How the outside appears: the raw LZMA decoder is a function from the frames fed to it to the bytes of
the last one or a failure; the publish callback is a function of the calls made before; the filesystem
is a map or a tree; a database transaction is one atomic step; clocks, hash failures, lost leases and
other processes are parameters that range over everything.

Where a hoped-for property is not true of the code, the model keeps the code and the exact condition or
a concrete run is proved instead:

- An undo plan does not remove directories that a move made on its way, cannot give back a time that is
  not positive, and cannot make a directory again whose journal row names no scope, as for paired
  wrapper cleanups (`UndoPlan.UndoneExactly`). It takes the journal last first exactly
  when the items completed in the order of the plan (`UndoPlan.DescendingReverses`); otherwise the undo can
  end elsewhere (`UndoPlan.OutOfOrderIsNotUndone`).
- A crash between the rename of a restore and its commit leaves the payload restored and the entry
  inconsistent (`QuarantineLifecycle.CrashOutcome`, `RestoreCanGoUnrecorded`); a crash within the purge
  is reset to active with part of the payload gone, which can happen exactly to directories that are not
  empty (`ActiveCanBeIncomplete`).
- With nested roots, indexing one takes the shared rows from the other
  (`IndexReplacement.SecondRootTakesShared`).
- The directory rename preview compares its targets with existing names as the filesystem does, not by
  case folding: approved targets are new up to case exactly where the filesystem folds case
  (`BatchRename.DirectoriesDisjointExactly`, `OnlyDirectoriesMayDifferByCase`).
- The key of a user at an address does not tell apart two callers whose user and address, joined by a
  colon, are the same text; without colons in addresses it does (`LoginLimiter.KeysShared`,
  `RunTogether`).
- A new file name keeps the extension as its extension only when something is left before it
  (`BatchRename.ExtensionKept`).

## Model

| member | source | states |
|---|---|---|
| SevenZipNumber.NumRoundTrip | app/archive_recovery/aes_lzma2.py:55-65 | decoding any admissible encoding of v, of 1 to 9 bytes and anywhere in the data, gives v and stops exactly after it |
| SevenZipNumber.NumBound | app/archive_recovery/aes_lzma2.py:55-65 | every decoded NUMBER is below 2^64 |
| SevenZipNumber.OrInto | app/archive_recovery/aes_lzma2.py:60-64 | OR-ing the next shifted byte into the value is adding it: the bits were zero |
| SevenZipNumber.Parse.Num | app/archive_recovery/aes_lzma2.py:55-65 | the mask-shifting loop reads what the decoding function says, moves the position past it, and fails where it fails |
| SevenZipNumber.Parse.Raw | app/archive_recovery/aes_lzma2.py:45-50 | hands out the next n bytes and moves past them, or fails and stays when there are fewer |
| SevenZipStreams.DistributeConserves | app/archive_recovery/aes_lzma2.py:168-183 | the written lengths are used up exactly, and each folder's substream sizes sum to its unpack size |
| SevenZipStreams.AssignConserves | app/archive_recovery/aes_lzma2.py:186-202 | the CRC list is used up exactly, one slot for each substream, inherited from the folder only where the format says so |
| SevenZipStreams.SectionsSound | app/archive_recovery/aes_lzma2.py:116-204 | whatever order the sections come in, what was read stays consistent: counts, sizes and CRCs belong to the folders read |
| SevenZipStreams.PlaceConserves | app/archive_recovery/aes_lzma2.py:214-220 | packed ranges are consecutive from the pack position on |
| SevenZipStreams.StreamInfoConserves | app/archive_recovery/aes_lzma2.py:103-222 | every accepted stream section conserves: consecutive packed ranges, sizes that add up, one CRC slot per substream |
| SevenZipWriter.StreamInfoRoundTrip | app/archive_recovery/aes_lzma2.py:103-222 | any conserved metadata the format can hold, written after the format description and parsed anywhere in the data, comes back as it was, and the parser stops right after it |
| SevenZipWriter.AcceptedWritable | app/archive_recovery/aes_lzma2.py:103-222 | whatever the parser accepts is within the limits of the format: counts, coder and property sizes, 64-bit numbers, 32-bit CRCs |
| SevenZipWriter.AcceptsExactly | app/archive_recovery/aes_lzma2.py:103-222 | the metadata the parser can be made to return is exactly the conserved metadata the format can hold |
| SevenZipWriter.DigestsBack | app/archive_recovery/aes_lzma2.py:72-81 | a digest list with its bit vector, most significant bit first, reads back as written |
| SevenZipWriter.FolderBack | app/archive_recovery/aes_lzma2.py:84-100 | a folder's coders, properties and bind pairs read back as written |
| SevenZipWriter.SubBack | app/archive_recovery/aes_lzma2.py:158-202 | substream counts, sizes without the last of each folder, and the CRCs not inherited read back as the full lists |
| SevenZipReader.ReadFolder | app/archive_recovery/aes_lzma2.py:84-100 | the reader object and the folder grammar accept the same coders and bind pairs, end at the same place and fail for the same reason |
| SevenZipReader.ReadDigests | app/archive_recovery/aes_lzma2.py:72-81 | the digest loop agrees with the digest grammar, with all defined or by bit vector |
| SevenZipReader.DistributeSizes | app/archive_recovery/aes_lzma2.py:175-183 | the cursor loop over the lengths computes the distribution, or reports a negative remainder exactly when it has one |
| SevenZipReader.DistributeCrcs | app/archive_recovery/aes_lzma2.py:195-202 | the cursor loop over the CRCs computes the assignment |
| SevenZipReader.ReadSubStreams | app/archive_recovery/aes_lzma2.py:158-202 | reading the substream section agrees with its grammar, errors included |
| SevenZipReader.ReadStreamInfo | app/archive_recovery/aes_lzma2.py:103-222 | the loop over sections agrees with the grammar of the whole section |
| SevenZipFiles.NamesRoundTrip | app/archive_recovery/aes_lzma2.py:250-259 | splitting the joined, zero-terminated names gives the names back |
| SevenZipFiles.MapFilesConserves | app/archive_recovery/aes_lzma2.py:260-303 | for conserved folders every folder gets exactly its substreams as files, in order, tiling it from 0 to its unpack size; the size check cannot fail |
| SevenZipFiles.TileSum | app/archive_recovery/aes_lzma2.py:298-300 | files that tile a range have lengths that sum to it |
| SevenZipFilesWriter.NamesBack | app/archive_recovery/aes_lzma2.py:252-259 | names written as UTF-16 text, each ended by a zero, are read back |
| SevenZipFilesWriter.PropsBack | app/archive_recovery/aes_lzma2.py:227-259 | a written file section is read back as its properties, skipped ones left aside: an entry has a stream exactly when its empty-stream bit is clear |
| SevenZipFilesWriter.FilesRoundTrip | app/archive_recovery/aes_lzma2.py:227-305 | a written section is read back exactly when it has as many streams as the folders have substreams: the stream entries, in order, are the files of the folders and of the whole output with their sizes and CRCs, tiling both; the manifest adds exactly the empty files that are no tombstones |
| SevenZipHeader.SizeCheckNeverFires | app/archive_recovery/aes_lzma2.py:298-300 | after any accepted stream section the UNPACK_SIZES_MISMATCH check of the file section is unreachable |
| SevenZipHeader.HeaderConserves | app/archive_recovery/aes_lzma2.py:308-319 | every accepted header conserves packed ranges, sizes, CRCs and the tiling of each folder by its files |
| ArchiveWriter.HeaderRoundTrip | app/archive_recovery/aes_lzma2.py:308-319 | a written header is read back: the folders as they were, the files as the entries say |
| SevenZipHeader.ReadProps | app/archive_recovery/aes_lzma2.py:235-259 | the property loop with its sub-parsers agrees with the property grammar |
| SevenZipHeader.MapNames | app/archive_recovery/aes_lzma2.py:270-297 | the loop with its counters and positions computes the mapping of names to folder ranges |
| SevenZipHeader.ReadFileInfo | app/archive_recovery/aes_lzma2.py:227-303 | reading the file section agrees with its grammar and mapping, errors included |
| SevenZipHeader.ReadHeader | app/archive_recovery/aes_lzma2.py:308-319 | the header reader accepts exactly the grammar, and what it accepts is conserved |
| Bits.OrShifted | app/archive_recovery/aes_lzma2.py:63-64 | a bitwise OR with a value shifted into zero bits is an addition |
| Bits.AndMask | app/archive_recovery/aes_lzma2.py:63-64 | masking the low k bits is the remainder by 2^k |
| Crc32.UpdateAppend | app/archive_recovery/aes_lzma2.py:687-687 | feeding a file piece by piece gives the CRC of the whole |
| Crc32.OneByteNoticed | app/archive_recovery/aes_lzma2.py:682-703 | the CRC of a file changes with every change of a single byte |
| Bits.XorBits | app/archive_recovery/aes_lzma2.py:682-703 | a bit of an exclusive or is set exactly when it is set in one of the two |
| Lzma2Framing.DecryptedStream.Read | app/archive_recovery/aes_lzma2.py:555-571 | a read hands out the next slice, and fails as truncated or exhausted exactly when too few packed bytes are there for it; consumed, buffered and remaining bytes always add up to the packed size |
| Lzma2Framing.GuardsNeverFire | app/archive_recovery/aes_lzma2.py:599-600 | no frame header can exceed the output or packed limit, in either parser |
| Lzma2Framing.FrameShape | app/archive_recovery/aes_lzma2.py:809-836 | a parsed frame is the bytes from its start to its end, decodes to 1..2 MiB, and is a reset exactly by its control byte |
| Lzma2Framing.WalkTiles | app/archive_recovery/aes_lzma2.py:583-609 | the frames of a stream tile it: their raw bytes concatenate to the stream up to where parsing stops |
| Lzma2Framing.TiledAt | app/archive_recovery/aes_lzma2.py:607-609 | every frame's output offset is the sum of the decoded sizes before it, its input offset the length of the raw bytes before it |
| Lzma2Framing.NextFrame | app/archive_recovery/aes_lzma2.py:586-609 | the streaming parser yields exactly the frame the random-access parser finds at that place, and stops or breaks exactly where that one finds none |
| Lzma2Framing.BigEndianRoundTrip | app/archive_recovery/aes_lzma2.py:593-594 | the size bytes written back into the raw frame are the ones read |
| Lzma2Writer.ChunkBack | app/archive_recovery/aes_lzma2.py:809-836 | a chunk written after the format, stored or packed, with any of its resets, is read back where it stands with its bytes, its size and whether it resets the dictionary |
| Lzma2Writer.FramesExactly | app/archive_recovery/aes_lzma2.py:809-836 | a frame is found exactly where a chunk of the format stands |
| Lzma2Writer.StreamBack | app/archive_recovery/aes_lzma2.py:583-609 | a stream of chunks ended by a zero byte or its end reads back as its chunks, each at the sum of the lengths and sizes before it |
| ArchiveFiles.TargetsAscending | app/archive_recovery/aes_lzma2.py:643-644 | the files with a CRC of a tiled folder are already in offset order and disjoint |
| BatchReference.BatchMeaning | app/archive_recovery/aes_lzma2.py:661-703 | the reference calls publish for exactly the files that are due (whole range decoded, CRC matching, name not taken), once each in offset order, with exactly their bytes, and takes a name exactly when its call is accepted |
| BatchReference.BatchStable | app/archive_recovery/aes_lzma2.py:668-671 | files that are settled stay settled when more bytes arrive |
| BatchReference.BatchIgnores | app/archive_recovery/aes_lzma2.py:677-680 | files whose range is not complete add nothing |
| BatchReference.DeliveredReset | app/archive_recovery/aes_lzma2.py:713-729 | after a reset delivery depends on the new frame alone |
| BatchReference.DeliveredContinue | app/archive_recovery/aes_lzma2.py:733-745 | inside a segment a frame is delivered only when every frame since the reset was |
| StreamingRecovery.BlockRecovery.LiveEndsHere | app/archive_recovery/aes_lzma2.py:720-723 | a live candidate has start + written equal to the next output offset |
| StreamingRecovery.BlockRecovery.OnReset | app/archive_recovery/aes_lzma2.py:713-732 | a reset keeps the books and never discards a live candidate |
| StreamingRecovery.BlockRecovery.Consume | app/archive_recovery/aes_lzma2.py:661-703 | consuming a decoded piece extends what was delivered by that piece and nothing else |
| StreamingRecovery.FinishFile | app/archive_recovery/aes_lzma2.py:689-703 | a candidate that reaches its size is offered exactly when the reference offers it, with the same bytes |
| StreamingRecovery.MissedFile | app/archive_recovery/aes_lzma2.py:677-680 | a file whose beginning was not observed is skipped, and the reference does not publish it either |
| StreamingRecovery.BlockRecovery.OnFrame | app/archive_recovery/aes_lzma2.py:713-745 | handling a frame (reset, skip, decode, failure) keeps the extractor equal to the reference on the frames so far |
| StreamingRecovery.BlockRecovery.FrameLoop | app/archive_recovery/aes_lzma2.py:705-748 | the frames handled are the stream's frames that fit the declared size; on a whole stream a loss is reported exactly when the framing does not hold, and it is known how far was read |
| StreamingRecovery.BlockRecovery.RunFrames | app/archive_recovery/aes_lzma2.py:643-764 | after any frame sequence the publish calls and taken names are exactly the batch reference's, recovered counts the accepted calls, and on a whole stream a loss is reported exactly when the framing does not hold |
| StreamingRecovery.IntactExactly | app/archive_recovery/aes_lzma2.py:583-609 | the framing holds exactly when the frames add up to the declared size and parsing stops at a zero byte or at the end |
| UndamagedData.ImageIsWhole | app/archive_recovery/aes_lzma2.py:643-748 | when the decoder gives back every piece from the reset before it, the delivered image is what was written, byte for byte |
| UndamagedData.UndamagedFolder | app/archive_recovery/aes_lzma2.py:632-764 | an undamaged folder keeps its framing, and exactly its files with bytes and a CRC are offered, each once and with its own bytes |
| ResyncReference.BatchSafe | app/archive_recovery/aes_lzma2.py:692-702 | streaming publication keeps the run safe: whole files with declared size and CRC, no name accepted twice |
| ResyncReference.DecodesExactly | app/archive_recovery/aes_lzma2.py:612-629 | a segment decodes to some bytes exactly when every frame, fed after those before it, gives its declared size, and its piece stands where the sizes before it end |
| SegmentResync.DecodeSegment | app/archive_recovery/aes_lzma2.py:612-629 | decodes a segment to all its frames' bytes, or fails when it starts without a reset, breaks or grows too large |
| ResyncReference.ResyncTargetsMeaning | app/archive_recovery/aes_lzma2.py:858-861 | wanted are exactly the files with a CRC, of 1 byte to the segment limit, whose name is not taken |
| SegmentResync.OfferMatches | app/archive_recovery/aes_lzma2.py:898-904 | the decoded segment is offered, in order, to exactly the wanted files of its size and CRC whose names are free |
| ResyncReference.TooLarge | app/archive_recovery/aes_lzma2.py:890-891 | once a prefix outgrows every wanted file, or has the size of the biggest, the longer ones add nothing |
| ResyncReference.Undecodable | app/archive_recovery/aes_lzma2.py:894-897 | once a prefix fails to decode, it and every longer one add nothing |
| ResyncReference.NoSuchSize | app/archive_recovery/aes_lzma2.py:892-893 | a prefix of a size no wanted file has adds nothing |
| ResyncReference.ResyncMeans | app/archive_recovery/aes_lzma2.py:839-907 | sound: every new call is a whole file with its size and CRC, decoded from a segment of the window, names once; complete: every wanted file that a segment prefix at one of the first 12000 resets decodes to is called |
| UndamagedData.UndamagedSegment | app/archive_recovery/aes_lzma2.py:839-907 | after lost framing: a file that is a run of chunks from a reset on, inside the window and within the limits, is found |
| SegmentResync.TryPrefix | app/archive_recovery/aes_lzma2.py:887-906 | one more frame leaves what the reference leaves for that prefix, and giving up leaves what it leaves for the whole segment |
| SegmentResync.ProbeAt | app/archive_recovery/aes_lzma2.py:877-906 | one probed position leaves what offering every prefix of its segment leaves |
| SegmentResync.ReadWindow | app/archive_recovery/aes_lzma2.py:849-857 | the window is the next 8 MiB or what is left of the stream |
| SegmentResync.Resync | app/archive_recovery/aes_lzma2.py:839-907 | the search with its shortcuts leaves exactly the calls and taken names of the reference search, and counts the accepted ones |
| DeepRecovery.RecoverBlock | app/archive_recovery/aes_lzma2.py:632-764 | with all packed bytes there, a folder leaves exactly the batch reference's calls, then, where the framing does not hold, exactly the reference search's over the window after it, with the exact status and counts; otherwise the same for the frames that were read, or an error |
| DeepRecovery.FolderStatusMeans | app/archive_recovery/aes_lzma2.py:747-764 | a folder is completed or without proven files exactly when its framing held, and each status says whether its last pass published anything |
| DeepRecovery.Recover | app/archive_recovery/aes_lzma2.py:767-804 | over all folders: every published sequence has its declared size and CRC, publish succeeds at most once per name, recovered equals the successes; with all packed bytes there, the calls are the folders' one after the other and the status and totals are exact |
| DeepRecovery.RunStatusMeans | app/archive_recovery/aes_lzma2.py:787-795 | the run is resynchronized exactly when a folder is, completed or without proven files exactly when every folder is; the rest follows whether anything was published |
| UndamagedData.UndamagedRun | app/archive_recovery/aes_lzma2.py:767-804 | over all folders of an undamaged archive with different names: every file with bytes and a CRC is offered with exactly its bytes, and nothing else |
| ArchiveInspection.DictionaryBounds | app/archive_recovery/aes_lzma2.py:322-331 | exactly the property bytes up to 26 are accepted, for dictionaries of 4 KiB to 32 MiB |
| ArchiveInspection.DictionarySteps | app/archive_recovery/aes_lzma2.py:322-331 | 4 KiB, 6 KiB, and twice as much every second step |
| ArchiveInspection.ShapeExactly | app/archive_recovery/aes_lzma2.py:461-472 | the two supported shapes, coder ids, order and binding included |
| ArchiveInspection.LocatesExactly | app/archive_recovery/aes_lzma2.py:474-483 | a supported folder is located exactly with a bounded dictionary, a packed range that is not empty, whole cipher blocks when encrypted, before the header, and sizes up to 8 GiB; what is located is its own |
| ArchiveInspection.LocatedAll | app/archive_recovery/aes_lzma2.py:461-483 | the located folders are the supported ones, each once and in order, with their own sizes, properties and files |
| ArchiveInspection.SupportedAll | app/archive_recovery/aes_lzma2.py:462-472 | a folder is taken exactly when it is plain LZMA2 or AES followed by LZMA2 |
| ArchiveInspection.LocatedUnless | app/archive_recovery/aes_lzma2.py:474-481 | inspection stops exactly when a supported folder has a bad dictionary or range |
| ArchiveInspection.InspectionSound | app/archive_recovery/aes_lzma2.py:453-491 | for every accepted header: the located folders lie between start and next header, share no packed byte, and their files tile the folder's output |
| ArchiveInspection.LocatedValid | app/archive_recovery/aes_lzma2.py:428-491 | what recovery presupposes of a folder follows from the header checks, and all its packed bytes are in the archive |
| ArchiveWriter.NextHeaderExactly | app/archive_recovery/aes_lzma2.py:428-444 | a next header is accepted exactly when the signature, the bounds and both CRCs are right |
| ArchiveWriter.NextHeaderRefused | app/archive_recovery/aes_lzma2.py:428-444 | a wrong signature and a wrong start header CRC are told apart |
| ArchiveWriter.NextHeaderBack | app/archive_recovery/aes_lzma2.py:428-444 | the header of a written archive is found where it was written |
| ArchiveWriter.WrittenStructure | app/archive_recovery/aes_lzma2.py:428-491 | recovery of a written archive inspects exactly the folders and entries that were written |
| ArchiveInspection.Inspect | app/archive_recovery/aes_lzma2.py:459-487 | the loop over the folders locates exactly the supported ones, or fails with the first problem |
| ArchiveInspection.RecoverArchive | app/archive_recovery/aes_lzma2.py:767-804 | from the bytes of an archive: refused with the exact reason before anything is published, or carried through to the exact calls, status and totals, every call a whole file of the header with its size and CRC |
| ZipResync.Scan | app/archive_recovery/core.py:226-294 | the windowed scan examines exactly the headers that trying every position examines, in the same order |
| ZipResync.HeaderInspected | app/archive_recovery/core.py:244-293 | a written local header is given up when its name is too long or cut off, reported when encrypted, with a descriptor or of another packing, and extracted otherwise, and the scan goes on behind what was skipped or read |
| ZipResync.NextOffset | app/archive_recovery/core.py:235-242 | a window without a hit skips no signature, not even one across its edge, and moves forward |
| ZipResync.ScanMissesNothing | app/archive_recovery/core.py:231-293 | every position with a local header signature is examined or lies inside an entry that was taken |
| ZipResync.ScanAdvances | app/archive_recovery/core.py:231-293 | examined headers come in order and none starts before the previous one was left |
| ZipResync.NoOverlap | app/archive_recovery/core.py:248-253 | the skip of four bytes after a malformed header cannot jump over a signature |
| DirectoryPaging.ListPage | app/service.py:3792-3842 | the items are entries start, start + 1, and so on of the fully sorted listing, as many as fit; has_more says whether any follow |
| DirectoryPaging.ListingOrder | app/service.py:3756-3810 | the listing has directories before everything else, then natural key order, then names |
| DirectoryPaging.TokensLessExactly | app/utils/sorting.py:6-9 | natural keys compare at their first difference: numbers by value and before text, text as in a dictionary |
| Names.BelowExactly | app/utils/sorting.py:6-9 | strings compare at the first character that differs, a proper prefix first |
| DirectoryPaging.Consider | app/service.py:3828-3835 | the bounded heap holds the least entries seen so far, whatever was dropped |
| DirectoryPaging.PageHeap.Push | app/service.py:3832-3833 | pushing keeps the heap order and adds exactly the entry |
| DirectoryPaging.PageHeap.Replace | app/service.py:3834-3835 | replacing keeps the heap order and exchanges exactly the root for the entry |
| DirectoryPaging.KeyOrder | app/service.py:3828-3829 | sort keys are a strict total order on entries of different names |
| DirectoryPaging.SortedUnique | app/service.py:3839-3840 | a multiset of entries has one sorted arrangement, so sorting the heap gives the beginning of the full sort |
| IndexReplacement.ReindexReplaces | app/service.py:1244-1322 | afterwards this root's rows are exactly the walked paths with their latest facts, first sighting and new generation, also those another root held; every other row is unchanged |
| IndexReplacement.FirstSightingKept | app/service.py:1258-1274 | a path the index knew keeps first_seen_at, whichever root held it |
| IndexReplacement.UpsertAllSplit | app/service.py:1282-1306 | how the walk is cut into batches does not matter |
| IndexReplacement.SecondRootTakesShared | app/service.py:1258-1313 | after indexing two roots the first is still indexed as walked exactly when the walks share no path |
| IndexReplacement.StoppedRunIsHarmless | app/service.py:1253-1255 | an interrupted run removes nothing, and the next complete run comes to the same rows but for first sightings it made |
| IndexReplacement.Indexer.Flush | app/service.py:1248-1279 | a batch is upserted in order or, when the lease is lost, nothing changes |
| IndexReplacement.Indexer.Reindex | app/service.py:1232-1322 | for every batch size a complete run is the replacement with the right counts; a run that loses its lease leaves the upserts of a prefix and sweeps nothing |
| QuarantineLifecycle.BeginQuarantineSafe | app/service.py:3242-3269 | committing the preparing row keeps every promise |
| QuarantineLifecycle.MoveSafe | app/execution/executor.py:1051-1062 | the no-replace rename into quarantine keeps every promise and records who took the object |
| QuarantineLifecycle.FinishQuarantineSafe | app/service.py:3295-3323 | the final state of the row (active, abandoned, inconsistent) is true of the filesystem |
| QuarantineLifecycle.QuarantineDoes | app/service.py:3242-3323 | an undisturbed quarantine moves exactly the object at the source and leaves an active entry that holds it |
| QuarantineLifecycle.QuarantineRestores | app/service.py:5143-5226 | quarantine and restore are a round trip: the filesystem is as before and the entry records the original name |
| QuarantineLifecycle.RestoreSkips | app/service.py:5118-5160 | policy skip: to the original name when it is free, otherwise nothing changes |
| QuarantineLifecycle.RestoreRenames | app/service.py:5118-5160 | policy rename: to the original name when it is free, otherwise to the candidate |
| QuarantineLifecycle.RestoreManually | app/quarantine/restore.py:35-48 | policy manual: to the requested name when it is free, otherwise nothing changes |
| QuarantineLifecycle.RestoreDeclines | app/quarantine/restore.py:26-33 | an entry that is not active, or whose payload is missing, is not restored |
| QuarantineLifecycle.RefusedQuarantine | app/service.py:3315-3323 | a refused move leaves the filesystem alone and the entry abandoned when the source is still there, inconsistent when it is not |
| QuarantineLifecycle.TakenDestination | app/service.py:5177-5193 | a destination, of any policy, taken after it was chosen: the new object stays, the payload stays, the entry is active again |
| QuarantineLifecycle.PurgeDoes | app/service.py:5319-5353 | an undisturbed purge removes exactly the payload, a directory only once it is empty |
| QuarantineLifecycle.MissingPayload | app/service.py:5270-5330 | a payload missing when a purge or the move back begins makes the row inconsistent and changes nothing else |
| QuarantineLifecycle.BeginRestoreSafe | app/service.py:5118-5146 | the choice of destination and the restoring commit keep every promise |
| QuarantineLifecycle.RestoreMoveSafe | app/service.py:5161-5204 | the rename back, or its refusal and what is then committed, keeps every promise |
| QuarantineLifecycle.FinishRestoreSafe | app/service.py:5206-5226 | restored is committed only with the payload handed to the recorded place |
| QuarantineLifecycle.BeginPurgeSafe | app/service.py:5288-5321 | a purge begins only on an active entry whose payload is there |
| QuarantineLifecycle.DeleteChildSafe | app/service.py:5323-5336 | removing one descendant touches only the payload being purged |
| QuarantineLifecycle.DeleteRootSafe | app/service.py:5337-5339 | removing the root destroys exactly that payload |
| QuarantineLifecycle.AbortSafe | app/service.py:5148-5204 | an exception between any two steps leaves a row that start-up can read |
| QuarantineLifecycle.CrashSafe | app/service.py:4989-5009 | a crash of everything in flight keeps every promise |
| QuarantineLifecycle.ReconcileSafe | app/service.py:5011-5054 | reconciling a row keeps every promise |
| QuarantineLifecycle.EveryRun | app/service.py:5056-5365 | after any interleaving with exceptions, crashes and start-ups: active means the payload is in quarantine, purged that it is gone, restored that it was handed to the recorded place, and an object no purge was begun on is intact in exactly one place |
| QuarantineLifecycle.RestartSettles | app/service.py:4989-5054 | start-up settles every non-transactional row unless reading its payload fails, does not touch transactional rows, changes nothing when run again and keeps every promise |
| QuarantineLifecycle.ReconcilesExactly | app/service.py:4907-5054 | the new state of an idle row by its state and by which of its two names exist |
| QuarantineLifecycle.CrashOutcome | app/service.py:4932-5054 | what a crash at each point of each request comes to, exactly; a restore ends as inconsistent precisely when the payload had been moved |
| QuarantineLifecycle.RestoreCanGoUnrecorded | app/service.py:5025-5038 | for every object, a run in which it is restored and ends as an inconsistent entry with no target |
| QuarantineLifecycle.ActiveCanBeIncomplete | app/service.py:5039-5047 | some run leaves the object as an incomplete payload of an active entry exactly when it is a directory that is not empty |
| QuarantineLifecycle.NextLeavesWhole | app/service.py:5039-5047 | in every step, whatever is no directory or had nothing inside stays as it was made |
| QuarantineLifecycle.Startup.ReconcileOne | app/service.py:5011-5054 | one row is treated by its state and by which names exist |
| QuarantineLifecycle.Startup.ReconcileStartup | app/service.py:4989-5009 | the loop over the transitional rows is start-up as a whole |
| UndoPlan.MoveUndone | app/service.py:3580-3586 | moving a subtree back is its inverse, when the move made no directory |
| UndoPlan.QuarantineUndone | app/service.py:3587-3599 | restoring what was quarantined puts the subtree back |
| UndoPlan.RestoreUndone | app/service.py:3600-3609 | quarantining what was restored takes it out again |
| UndoPlan.TouchUndone | app/service.py:3610-3616 | touching back gives the old time when it was positive |
| UndoPlan.RmdirUndone | app/service.py:3629-3640 | a directory removed outright is made again below its recorded scope |
| UndoPlan.RestoreDirUndone | app/service.py:3641-3648 | an empty directory brought back is removed again |
| UndoPlan.MkdirUndone | app/service.py:3649-3656 | a directory made is removed again |
| UndoPlan.StepUndone | app/service.py:3575-3673 | the undo item of any completed reversible item takes an agreeing store back to where the item started |
| UndoPlan.StepSound | app/execution/executor.py:713-761 | a refused reversible item changes nothing |
| UndoPlan.DescendingReverses | app/service.py:3550-3554 | the undo plan takes the rows last first exactly when they were journaled in the order of their items |
| UndoPlan.DescendingSorts | app/service.py:3550-3554 | for every journal: all its rows, each as often, by falling sequence and then falling id |
| UndoPlan.UndoInverts | app/service.py:3532-3682 | whatever was completed of a plan, in however many runs, each completed item reversible where it ran and the journal in the order of the items: the undo plan takes the served namespace back to where the plan found it |
| UndoPlan.JournalInOrder | app/tasks/handlers_base.py:3813-3915 | attempts in the order of the items, refused ones tried again included, journal in that order |
| UndoPlan.UndoneExactly | app/service.py:3575-3673 | a completed item is undone exactly when it made no directory on its way, touched a file with a positive time (or is undone at that very time), or removed outright a directory with a recorded scope |
| UndoPlan.OutOfOrderIsNotUndone | app/service.py:3550-3554 | one such run: items executed against their sequence, a journal out of order, and an undo that ends elsewhere |
| UndoPlan.CreateUndoPlan | app/service.py:3532-3682 | refused exactly for a missing, unfinished or running plan or an empty journal; otherwise one undo item for each row, by falling sequence and id, numbered from one |
| UndoPlan.Worker.RunPlan | app/tasks/handlers_base.py:3813-3915 | running a plan item by item gives the final store and the journal that the undo theorems speak of |
| PlanExecutions.EveryRun | app/service.py:2988-3119 | in every interleaving of enqueue, retry, delete, clear and task steps: at most one active execution per plan, and its plan exists |
| PlanExecutions.NextExclusive | app/service.py:3081-3119 | every transaction keeps that an active execution has its plan and is its newest job |
| PlanExecutions.LooksExactly | app/service.py:2988-3027 | an enqueueing call goes on exactly for a ready or partial plan without a live execution |
| PlanExecutions.ChecksExactly | app/service.py:3030-3079 | a plan found stale is marked so if it is still there, and the call ends |
| PlanExecutions.EnqueuesExactly | app/service.py:3081-3117 | under the lock a queued job is added exactly when that still holds |
| PlanExecutions.RetriesExactly | app/tasks/service.py:312-349 | only a failed execution of a ready or partial plan without a live execution is retried |
| PlanExecutions.StartsDeleteExactly | app/service.py:3432-3449 | a deletion goes on without a live execution, or cancels one that waits or is paused and was recovered |
| PlanExecutions.CancelsExactly | app/service.py:3451-3459 | waiting and paused jobs are cancelled, running ones asked to stop |
| PlanExecutions.DeletesExactly | app/service.py:3461-3486 | the plan is removed exactly when no execution is live and it is not being validated |
| PlanExecutions.CommitDeleteSafe | app/service.py:3461-3493 | no plan with an active execution is deleted, even when its job was claimed after the first look |
| PlanExecutions.ClearHistorySafe | app/service.py:3495-3530 | clearing removes exactly the plans in the chosen history states that have no active execution |
| PlanExecutions.NoneBeside | app/tasks/service.py:310-389 | while an execution is active no step adds another of its plan or takes its plan away |
| PlanExecutions.NoneBesideInRun | app/service.py:2988-3119 | a second execution of a plan starts only after the first is over, over whole runs |
| PlanExecutions.OneOfTwoEnqueues | app/service.py:2988-3119 | of two callers that passed the preflight together the first to commit gets its job, the other none, and nothing else changes |
| PlanExecutions.DeleteCancels | app/service.py:3432-3486 | deleting a plan whose job was recovered and is queued or paused cancels the job and removes the plan |
| PlanExecutions.WorkerWinsDelete | app/service.py:3451-3475 | when the worker claims that job first, it is asked to stop and the plan stays |
| EmptyDirs.Traverse | app/batch_utilities/empty_dirs.py:245-374 | the recursive traversal with its shared counter reports emptiness and decisions of the subtree, and gives up exactly beyond the limit |
| EmptyDirs.Discover | app/batch_utilities/empty_dirs.py:190-396 | discovery returns the decisions of all scopes, sorted, exactly when there are no more than the limit |
| EmptyDirs.DecisionsRight | app/batch_utilities/empty_dirs.py:268-372 | a directory is marked removable exactly when its whole subtree is directories with no reserved child; no scope root has a decision |
| EmptyDirs.DecisionsComplete | app/batch_utilities/empty_dirs.py:268-372 | every directory outside reserved storage has a decision |
| EmptyDirs.DecisionsDistinct | app/batch_utilities/empty_dirs.py:361-372 | no directory has two decisions |
| EmptyDirs.SortKeeps | app/batch_utilities/empty_dirs.py:389-396 | sorting keeps the decisions, deeper ones first, those of one depth by path |
| EmptyDirs.RemovalWorks | app/batch_utilities/empty_dirs.py:389-396 | removing the marked directories in the returned order finds each one empty at its turn and removes exactly the directories whose subtree is only directories |
| EmptyDirs.ScopesDisjoint | app/batch_utilities/empty_dirs.py:166-185 | after the overlap check no path lies in two scopes |
| EmptyDirRelocation.EngineLosesNothing | app/batch_utilities/empty_dir_quarantine.py:175-343 | whatever the adversary does, every change the engine makes is a rename that keeps every object's number of names; at most the move and its way back |
| EmptyDirRelocation.CompletedMeans | app/batch_utilities/empty_dir_quarantine.py:285-318 | completed means the object under the quarantine name was a directory of the expected identity and was found empty through its own descriptor |
| EmptyDirRelocation.FailureMeans | app/batch_utilities/empty_dir_quarantine.py:140-172 | a failure after the move put back what was under the quarantine name, or left it there and reports the path |
| EmptyDirRelocation.RollbackRestores | app/batch_utilities/empty_dir_quarantine.py:285-343 | with no interference after the move the outcome is exactly by identity, kind and emptiness, and anything but success leaves the world as before the move |
| EmptyDirRelocation.AloneExactly | app/batch_utilities/empty_dir_quarantine.py:175-343 | undisturbed, exactly the expected empty directory is removed, and nothing is moved unless it is a directory that fits the expectation, zero counting as none |
| EmptyDirRelocation.Relocation.Run | app/batch_utilities/empty_dir_quarantine.py:175-343 | the protocol as written has the outcome, the world and the changes of the specification, for every adversary |
| BatchRename.ExtensionKept | app/batch/file_rename.py:40-56 | a preserved extension is still the new name's extension exactly when something stands before it |
| BatchRename.SuffixExactly | app/batch/file_rename.py:42-44 | the extension is what follows the last dot, with it, when something stands on both sides |
| BatchRename.NewNames | app/batch/file_rename.py:46-56 | the new name of each mode: a prefix or suffix added, an end exchanged, every occurrence from the left exchanged; a kept extension stays at the end |
| BatchRename.ReplaceJoins | app/batch/file_rename.py:46-47 | replacing cuts the name at the occurrences of the literal, from the left, and joins the parts by the value |
| BatchRename.TargetNames | app/batch/file_rename.py:119-122 | files keep the extension when asked, directories never |
| BatchRename.ReplaceNone | app/batch/file_rename.py:46-47 | a literal that does not occur leaves the name alone |
| BatchRename.Preview | app/batch/file_rename.py:59-155 | the preview refuses exactly empty or too long texts and too large directories, and otherwise its rows are the verdicts of the candidates in name order |
| BatchRename.VerdictMeans | app/batch/file_rename.py:127-149 | an approved row's target is valid, free among all names and differs from every earlier target |
| BatchRename.VerdictExactly | app/batch/file_rename.py:126-149 | the first reason that applies refuses a row: invalid, not allowed, wanted or taken, changed; otherwise it is approved |
| BatchRename.BothKindsQualify | app/batch/directory_rename.py:113-116 | filesystems that tell case apart and those that fold it are both covered |
| BatchRename.PreviewComplete | app/batch/file_rename.py:118-155 | every candidate whose name changes has a row, refused only when the target is invalid, not allowed, taken, wanted by another row up to case, or the source changed |
| BatchRename.PreviewHarmless | app/batch/directory_rename.py:94-134 | approved rows have distinct sources and targets that are free and pairwise distinct, for files on any filesystem that tells apart whatever case folding does, for directories on the one that was asked |
| BatchRename.OrdersAgree | app/batch/file_rename.py:118-149 | any two orders of the same rows succeed and end in the same namespace |
| BatchRename.ObjectsKept | app/batch/file_rename.py:118-149 | no object is lost or made |
| BatchRename.ReversedRestores | app/batch/file_rename.py:118-149 | the swapped rows backwards restore the original names |
| BatchRename.ApprovedCommute | app/batch/file_rename.py:93-155 | approved rows, any part of them in any order: all succeed, same end, nothing lost, and taken back by the reversed rows |
| BatchRename.DirectoriesDisjointExactly | app/batch/directory_rename.py:94-134 | approved directory targets are new up to case exactly on the filesystems that fold case |
| BatchRename.OnlyDirectoriesMayDifferByCase | app/batch/directory_rename.py:113-116 | the input: beside `B`, a directory `a` may be approved as `b`; a file may not |
| DirectoryCompare.UnderExactly | app/batch/directory_compare.py:66-107 | the walk finds exactly the files and directories reachable through real, non-reserved directories |
| DirectoryCompare.JoinedInjective | app/batch/directory_compare.py:86-87 | different paths have different row keys |
| DirectoryCompare.Scanner.Look | app/batch/directory_compare.py:79-102 | one entry adds exactly its part to rows, stack and counters |
| DirectoryCompare.Scanner.Scan | app/batch/directory_compare.py:66-107 | the explicit-stack scan finds exactly what the recursive walk finds and counts its links, and gives up exactly when there are more entries than the limit |
| DirectoryCompare.Compare | app/batch/directory_compare.py:122-146 | rows are the comparison of the sorted union of keys, and counts count their statuses |
| DirectoryCompare.RowsAreUnion | app/batch/directory_compare.py:124-146 | every path of either tree has exactly one row, in sorted order, and there are no others |
| DirectoryCompare.CountsAddUp | app/batch/directory_compare.py:138-138 | the counts sum to the number of rows |
| DirectoryCompare.ComparisonSwaps | app/batch/directory_compare.py:124-146 | swapping the roots swaps only_a and only_b row by row and in the counts, and keeps every other status |
| DirectoryCompare.StatusMeans | app/batch/directory_compare.py:124-137 | each side of a row records the directory or the file with its size that is there, and each status holds exactly when the two trees say so |
| LoginLimiter.LockDecides | app/auth/rate_limiter.py:34-36 | the stored lockout answers exactly whether the full history limits the key |
| LoginLimiter.TrimKeeps | app/auth/rate_limiter.py:37-42 | trimming is unobservable, and a key that is not locked has too few failures left to be locked by the query |
| LoginLimiter.RecordKeeps | app/auth/rate_limiter.py:50-54 | recording on the trimmed list agrees with recording in the full history |
| LoginLimiter.KeysShared | app/auth/rate_limiter.py:18-26 | two callers share a key exactly when they share the address, or when user and address run together to the same text |
| LoginLimiter.RunTogether | app/auth/rate_limiter.py:18-26 | without a colon in the addresses that means the same user at the same address |
| LoginLimiter.LoginRateLimiter.IsRateLimited | app/auth/rate_limiter.py:28-43 | with a monotone clock and max_attempts at least 1: true exactly when some key's history since its last success has a failure less than the lockout time ago that filled its window; the query never sets a lockout; with max_attempts 0 or less every caller with an address is limited |
| LoginLimiter.LoginRateLimiter.RecordFailure | app/auth/rate_limiter.py:45-54 | the failure joins the history of exactly the caller's keys |
| LoginLimiter.LoginRateLimiter.RecordSuccess | app/auth/rate_limiter.py:56-61 | success clears the history of exactly the caller's keys |

## Left out

- AES key derivation (and its errors), CBC decryption and the raw LZMA decoder: decryption is any function that keeps the length, the decoder any function of the frames fed to it. On encrypted folders the reader's byte accounting is therefore not modelled below whole blocks.
- Unpacking of encoded headers (`_decode_header`, `_header_filter`): any function from the stored header to a header or a failure.
- The stream mode, folder count and per-folder diagnostics of the recovery summary, such as the reason given for a loss of framing; `verified_7z_inventory`, which only lists the names of the same header.
- `check()` cancellation, spooled temporary files, and exceptions raised by the publish callback itself: the callback answers true or false.
- Decoding of names from UTF-16 beyond code units, and `cp437` names of ZIP entries.
- DEFLATE streams, budgets and publication in the ZIP scan: how far an extraction reads is any function; the other archive formats and `_raw_tar` are left out.
- `natural_sort_key`: the tokens of a name are given; the search filter, symlink checks and the stat calls of `list_directory` only decide which entries arrive.
- SQL and the ORM: tables are maps, each BEGIN IMMEDIATE block is one step, and a generation is assumed not to occur in the table before.
- The transactional quarantine engine: its rows may change in any way and only stay transactional; its files are not part of the filesystem modelled here.
- QuarantineLifecycle.EveryRun: one entry's payload inside another's directory is not modelled, because names are independent of each other; reading, hashing and the checks of policy and confirmation are outcomes a step may have.
- Names made by `build_quarantine_target_path` and `build_restore_rename_path`: a quarantine place carries its entry's id, and the free candidate of a restore is given.
- UndoPlan.UndoInverts: identity and times of directories are not part of the namespace; freshness checks, capabilities and the cross-device, compatibility and transplant fallbacks of the executor are not modelled, nor are plans with operations for which no undo plan can be made; restores and empty directories brought back are covered when they were quarantined before the run.
- PlanExecutions.EveryRun: the freshness check is an outcome; the legacy `execute_plan` without a job and `validate_plan` only appear as changes of a plan's status.
- EmptyDirRelocation.RollbackRestores: permission errors of the looks are not modelled; the renames fail only by a missing or a taken name.
- EmptyDirs.Discover: the tree does not change during discovery, so the identity checks that raise are not modelled.
- DirectoryCompare.Scanner.Scan: the tree does not change during the scan, and a directory on the stack is the one seen when it was pushed.
- BatchRename.Preview: `validate_mutation_destination` is any test of the target, the second look at a source any outcome, and case folding any function.
- LoginLimiter: stripping and lower-casing of the inputs, and the lock, which makes each call one step.
- `compare_directories` root validation, SHA256 verification of one pair, HTTP routes, scheduling, configuration, the task worker and the frontend.
