/** The whole deep-recovery run: every packed folder in turn, one shared ledger. */
module DeepRecovery {
  import opened Bits
  import opened Wrappers
  import opened Lzma2Framing
  import opened ArchiveFiles
  import opened BatchReference
  import opened StreamingRecovery
  import opened ResyncReference
  import opened SegmentResync

  /** One supported folder: its packed bytes (decrypted), sizes and files, and the decoder its
      dictionary size gives. */
  datatype Metadata = Metadata(packed: seq<byte>, packedSize: nat, unpackedSize: nat, files: seq<FileEntry>,
                               encrypted: bool, decoder: Decoder)

  ghost predicate ValidMetadata(meta: Metadata) {
    |meta.packed| <= meta.packedSize && Tile(meta.files, 0, meta.unpackedSize)
  }

  /** All packed bytes are there. */
  predicate Whole(meta: Metadata) {
    |meta.packed| == meta.packedSize
  }

  function Prefix(meta: Metadata): string {
    if meta.encrypted then "7z_aes_lzma2" else "7z_lzma2"
  }

  datatype Status = Completed | NoProvenFiles | FramingResynchronized | FramingLost | Partial

  datatype Outcome = Outcome(status: Status, recovered: nat, resetPoints: nat, rejected: nat)

  // ----- what one folder must leave

  /** The frames of a folder that are handled, when its packed bytes are all there. */
  function HandledFrames(meta: Metadata): seq<Frame> {
    Within(Walk(meta.packed, 0, 0), meta.unpackedSize)
  }

  /** The ledger after the streaming pass over these frames. */
  ghost function StreamedOver(meta: Metadata, frames: seq<Frame>, accept: Accept, l: Ledger): Ledger {
    Batch(Image(meta.decoder, frames), TargetsOf(meta.files), accept, Prefix(meta), l)
  }

  ghost function StreamedLedger(meta: Metadata, accept: Accept, l: Ledger): Ledger {
    StreamedOver(meta, HandledFrames(meta), accept, l)
  }

  predicate FramingHolds(meta: Metadata) {
    Intact(meta.packed, 0, 0, meta.unpackedSize)
  }

  /** The window searched when the stream was read up to `at`. */
  function WindowAt(packed: seq<byte>, at: nat): seq<byte>
    requires at <= |packed|
  {
    packed[at..if |packed| - at < WINDOW then |packed| else at + WINDOW]
  }

  ghost function ResyncedAt(meta: Metadata, at: nat, accept: Accept, l: Ledger): Ledger
    requires at <= |meta.packed|
  {
    ResyncLedger(WindowAt(meta.packed, at), meta.files, meta.decoder, Prefix(meta), accept, l)
  }

  /** The ledger after a folder whose packed bytes are all there: the batch reference's verdicts, and when
      the framing does not hold, the reference search from where it was lost. */
  ghost function FolderLedger(meta: Metadata, accept: Accept, l: Ledger): Ledger {
    var streamed := StreamedLedger(meta, accept, l);
    if FramingHolds(meta) then streamed
    else ResyncedAt(meta, ReadUpTo(meta.packed, 0, 0, meta.unpackedSize), accept, streamed)
  }

  /** How many calls were accepted from one ledger to a later one. */
  function Gained(l: Ledger, l': Ledger): nat {
    var before, after := AcceptedCount(l.history), AcceptedCount(l'.history);
    if after >= before then after - before else 0
  }

  ghost function FolderStatus(meta: Metadata, accept: Accept, l: Ledger): Status {
    var streamed, final := StreamedLedger(meta, accept, l), FolderLedger(meta, accept, l);
    if FramingHolds(meta) then (if Gained(l, streamed) > 0 then Completed else NoProvenFiles)
    else if Gained(streamed, final) > 0 then FramingResynchronized
    else FramingLost
  }

  ghost function FolderOutcome(meta: Metadata, accept: Accept, l: Ledger): Outcome {
    Outcome(FolderStatus(meta, accept, l), Gained(l, FolderLedger(meta, accept, l)), ResetCount(HandledFrames(meta)),
            RejectCount(meta.decoder, HandledFrames(meta)))
  }

  // ----- safety

  /** What handling one folder keeps and adds. */
  ghost predicate Advances(l: Ledger, l': Ledger, files: seq<FileEntry>) {
    && RunSafe(l', files)
    && l.history <= l'.history && l.attempted <= l'.attempted
    && AcceptedCount(l.history) <= AcceptedCount(l'.history)
  }

  lemma CountsGrow(l: Ledger, l': Ledger)
    requires l.history <= l'.history
    ensures AcceptedCount(l'.history) == AcceptedCount(l.history) + AcceptedCount(l'.history[|l.history|..])
  {
    AcceptedSplit(l.history, l'.history[|l.history|..]);
    assert l.history + l'.history[|l.history|..] == l'.history;
  }

  lemma StreamAdvances(meta: Metadata, frames: seq<Frame>, accept: Accept, l: Ledger, files: seq<FileEntry>)
    requires RunSafe(l, files) && forall f :: f in meta.files ==> f in files
    ensures Advances(l, StreamedOver(meta, frames, accept, l), files)
  {
    hide RunSafe, Batch, Image;
    var img, targets := Image(meta.decoder, frames), TargetsOf(meta.files);
    TargetsFromFiles(meta.files);
    BatchSafe(img, targets, accept, Prefix(meta), l, files);
    BatchMeaning(img, targets, accept, Prefix(meta), l);
    CountsGrow(l, StreamedOver(meta, frames, accept, l));
  }

  lemma ResyncAdvances(meta: Metadata, at: nat, accept: Accept, l: Ledger, files: seq<FileEntry>)
    requires at <= |meta.packed| && RunSafe(l, files) && forall f :: f in meta.files ==> f in files
    ensures Advances(l, ResyncedAt(meta, at, accept, l), files)
  {
    hide RunSafe, ResyncLedger;
    ResyncMeans(WindowAt(meta.packed, at), meta.files, meta.decoder, Prefix(meta), accept, l, files);
    CountsGrow(l, ResyncedAt(meta, at, accept, l));
  }

  lemma AdvancesTrans(l0: Ledger, l1: Ledger, l2: Ledger, files: seq<FileEntry>)
    requires Advances(l0, l1, files) && Advances(l1, l2, files)
    ensures Advances(l0, l2, files)
  {
  }

  // ----- one folder

  /** One folder. With all its packed bytes present, the ledger and the outcome are exactly the folder's;
      in any case the streaming pass leaves what the batch reference makes of the frames it handled, and
      only a search over a window of the stream adds to that. */
  method RecoverBlock(meta: Metadata, pub: Publisher, ghost files: seq<FileEntry>)
    returns (r: Result<Outcome, Reason>, ghost seen: seq<Frame>)
    requires ValidMetadata(meta) && RunSafe(pub.Book(), files)
    requires forall f :: f in meta.files ==> f in files
    modifies pub
    ensures Advances(old(pub.Book()), pub.Book(), files)
    ensures Whole(meta) ==>
      && pub.Book() == FolderLedger(meta, pub.accept, old(pub.Book()))
      && r == Ok(FolderOutcome(meta, pub.accept, old(pub.Book())))
    ensures seen <= Walk(meta.packed, 0, 0)
    ensures var streamed := StreamedOver(meta, seen, pub.accept, old(pub.Book()));
      || pub.Book() == streamed
      || exists at :: 0 <= at <= |meta.packed| && pub.Book() == ResyncedAt(meta, at, pub.accept, streamed)
    ensures r.Ok? ==> r.value.recovered == Gained(old(pub.Book()), pub.Book())
    ensures r.Ok? ==> r.value.status in {Completed, NoProvenFiles, FramingResynchronized, FramingLost}
    ensures r.Ok? && r.value.status == FramingResynchronized ==> r.value.recovered > 0
    ensures r.Ok? && r.value.status in {Completed, NoProvenFiles} ==>
        (r.value.status == Completed <==> r.value.recovered > 0)
  {
    hide RunSafe, Batch, Image, Walk, Within, Intact, ReadUpTo, ResyncLedger, AcceptedCount, ResetCount, RejectCount;
    hide TargetsOf, Tile, Ascending, CandidateOk, TracksOk;
    TargetsAscending(meta.files, 0, meta.unpackedSize);
    var stream := new DecryptedStream(meta.packed, meta.packedSize);
    var block := new BlockRecovery(TargetsOf(meta.files), Prefix(meta), meta.decoder, pub);
    ghost var l0 := pub.Book();
    var lost;
    lost, seen := block.RunFrames(stream, meta.unpackedSize);
    ghost var streamed := pub.Book();
    assert streamed == StreamedOver(meta, seen, pub.accept, l0);
    StreamAdvances(meta, seen, pub.accept, l0, files);
    CountsGrow(l0, streamed);
    if lost.None? {
      var status := if block.recovered > 0 then Completed else NoProvenFiles;
      return Ok(Outcome(status, block.recovered, block.resetPoints, block.rejected)), seen;
    }
    ghost var at := stream.consumed;
    var window := ReadWindow(stream);
    if window.Err? {
      return Err(window.error), seen;
    }
    assert window.value == WindowAt(meta.packed, at);
    var proven := Resync(pub, window.value, meta.files, meta.decoder, Prefix(meta));
    assert pub.Book() == ResyncedAt(meta, at, pub.accept, streamed);
    ResyncAdvances(meta, at, pub.accept, streamed, files);
    AdvancesTrans(l0, streamed, pub.Book(), files);
    var status := if proven > 0 then FramingResynchronized else FramingLost;
    return Ok(Outcome(status, block.recovered + proven, block.resetPoints, block.rejected)), seen;
  }

  // ----- all folders

  /** The files of all folders. */
  function AllFiles(blocks: seq<Metadata>): seq<FileEntry> {
    if blocks == [] then [] else blocks[0].files + AllFiles(blocks[1..])
  }

  lemma {:induction false} AllFilesHas(blocks: seq<Metadata>, i: nat)
    requires i < |blocks|
    ensures forall f :: f in blocks[i].files ==> f in AllFiles(blocks)
  {
    if i > 0 {
      AllFilesHas(blocks[1..], i - 1);
    }
  }

  /** The ledger after the first `n` folders. */
  ghost function RunLedger(blocks: seq<Metadata>, n: nat, accept: Accept): Ledger
    requires n <= |blocks|
  {
    if n == 0 then Ledger([], {}) else FolderLedger(blocks[n - 1], accept, RunLedger(blocks, n - 1, accept))
  }

  ghost function OutcomeAt(blocks: seq<Metadata>, i: nat, accept: Accept): Outcome
    requires i < |blocks|
  {
    FolderOutcome(blocks[i], accept, RunLedger(blocks, i, accept))
  }

  ghost function Resets(blocks: seq<Metadata>, n: nat, accept: Accept): nat
    requires n <= |blocks|
  {
    if n == 0 then 0 else Resets(blocks, n - 1, accept) + OutcomeAt(blocks, n - 1, accept).resetPoints
  }

  ghost function Rejects(blocks: seq<Metadata>, n: nat, accept: Accept): nat
    requires n <= |blocks|
  {
    if n == 0 then 0 else Rejects(blocks, n - 1, accept) + OutcomeAt(blocks, n - 1, accept).rejected
  }

  ghost predicate SomeFolder(blocks: seq<Metadata>, n: nat, accept: Accept, status: Status)
    requires n <= |blocks|
  {
    exists i :: 0 <= i < n && OutcomeAt(blocks, i, accept).status == status
  }

  /** The status of a run: a resynchronized folder before a lost one, a lost one before the rest. */
  function RunStatus(resynced: bool, lost: bool, recovered: nat): Status {
    if resynced then FramingResynchronized
    else if lost then (if recovered > 0 then Partial else FramingLost)
    else (if recovered > 0 then Completed else NoProvenFiles)
  }

  ghost function RunOutcome(blocks: seq<Metadata>, accept: Accept): Outcome {
    var n, recovered := |blocks|, AcceptedCount(RunLedger(blocks, |blocks|, accept).history);
    var resynced := SomeFolder(blocks, n, accept, FramingResynchronized);
    var lost := SomeFolder(blocks, n, accept, FramingLost);
    Outcome(RunStatus(resynced, lost, recovered), recovered, Resets(blocks, n, accept), Rejects(blocks, n, accept))
  }

  /** What the status of a folder tells: whether its framing held, and whether the pass that ended it
      published anything. */
  lemma FolderStatusMeans(meta: Metadata, accept: Accept, l: Ledger)
    ensures var status := FolderOutcome(meta, accept, l).status;
      var streamed, final := StreamedLedger(meta, accept, l), FolderLedger(meta, accept, l);
      && (status in {Completed, NoProvenFiles} <==> FramingHolds(meta))
      && (status in {FramingResynchronized, FramingLost} <==> !FramingHolds(meta))
      && (status == Completed ==> Gained(l, streamed) > 0) && (status == NoProvenFiles ==> Gained(l, streamed) == 0)
      && (status == FramingResynchronized ==> Gained(streamed, final) > 0)
      && (status == FramingLost ==> Gained(streamed, final) == 0)
  {
    hide StreamedLedger, FramingHolds, Gained, ResyncedAt;
  }

  /** What the status of a run tells: whether any folder was found again or lost, and whether anything was
      published at all. */
  lemma RunStatusMeans(blocks: seq<Metadata>, accept: Accept)
    ensures var o := RunOutcome(blocks, accept);
      && (o.status == FramingResynchronized <==>
            exists i :: 0 <= i < |blocks| && OutcomeAt(blocks, i, accept).status == FramingResynchronized)
      && (o.status in {Completed, NoProvenFiles} <==>
            forall i :: 0 <= i < |blocks| ==> OutcomeAt(blocks, i, accept).status in {Completed, NoProvenFiles})
      && (o.status in {Completed, Partial} ==> o.recovered > 0)
      && (o.status in {NoProvenFiles, FramingLost} ==> o.recovered == 0)
  {
    hide OutcomeAt, RunLedger, AcceptedCount, Resets, Rejects;
    forall i | 0 <= i < |blocks| ensures OutcomeAt(blocks, i, accept).status != Partial {
      OneFolderStatus(blocks, i, accept);
    }
  }

  lemma OneFolderStatus(blocks: seq<Metadata>, i: nat, accept: Accept)
    requires i < |blocks|
    ensures OutcomeAt(blocks, i, accept).status != Partial
  {
    hide RunLedger;
    FolderStatusMeans(blocks[i], accept, RunLedger(blocks, i, accept));
  }

  lemma SomeFolderNext(blocks: seq<Metadata>, n: nat, accept: Accept, status: Status)
    requires n < |blocks|
    ensures SomeFolder(blocks, n + 1, accept, status)
       <==> SomeFolder(blocks, n, accept, status) || OutcomeAt(blocks, n, accept).status == status
  {
  }

  /** The run over all folders. However it ends, every call it made carried a whole file with its
      declared size and CRC, no name was accepted twice, and `recovered` counts the acceptances. When all
      packed bytes are there, the ledger is the fold of the folders' ledgers and the outcome is exact. */
  method Recover(blocks: seq<Metadata>, pub: Publisher) returns (r: Result<Outcome, Reason>)
    requires forall i :: 0 <= i < |blocks| ==> ValidMetadata(blocks[i])
    requires pub.Book() == Ledger([], {})
    modifies pub
    ensures RunSafe(pub.Book(), AllFiles(blocks))
    ensures r.Ok? ==> r.value.recovered == AcceptedCount(pub.history)
    ensures r.Ok? ==> (r.value.recovered == 0 <==> r.value.status in {NoProvenFiles, FramingLost})
    ensures (forall i :: 0 <= i < |blocks| ==> Whole(blocks[i])) ==>
      pub.Book() == RunLedger(blocks, |blocks|, pub.accept) && r == Ok(RunOutcome(blocks, pub.accept))
  {
    hide RunSafe, FolderLedger, FolderOutcome, ValidMetadata, AcceptedCount, StreamedOver, ResyncedAt, Walk;
    ghost var files, start := AllFiles(blocks), Ledger([], {});
    EmptyAdvances(files);
    var recovered: nat, resetPoints: nat, rejected: nat := 0, 0, 0;
    var resynced, lost := false, false;
    ghost var whole := forall i :: 0 <= i < |blocks| ==> Whole(blocks[i]);
    for i := 0 to |blocks|
      invariant Advances(start, pub.Book(), files) && recovered == AcceptedCount(pub.history)
      invariant resynced ==> recovered > 0
      invariant whole ==> pub.Book() == RunLedger(blocks, i, pub.accept)
      invariant whole ==> resynced == SomeFolder(blocks, i, pub.accept, FramingResynchronized)
      invariant whole ==> lost == SomeFolder(blocks, i, pub.accept, FramingLost)
      invariant whole ==> resetPoints == Resets(blocks, i, pub.accept) && rejected == Rejects(blocks, i, pub.accept)
    {
      AllFilesHas(blocks, i);
      ghost var l := pub.Book();
      var outcome, seen := RecoverBlock(blocks[i], pub, files);
      AdvancesTrans(start, l, pub.Book(), files);
      if outcome.Err? {
        return Err(outcome.error);
      }
      SomeFolderNext(blocks, i, pub.accept, FramingResynchronized);
      SomeFolderNext(blocks, i, pub.accept, FramingLost);
      recovered := recovered + outcome.value.recovered;
      resetPoints := resetPoints + outcome.value.resetPoints;
      rejected := rejected + outcome.value.rejected;
      resynced := resynced || outcome.value.status == FramingResynchronized;
      lost := lost || outcome.value.status == FramingLost;
    }
    return Ok(Outcome(RunStatus(resynced, lost, recovered), recovered, resetPoints, rejected));
  }

  lemma EmptyAdvances(files: seq<FileEntry>)
    ensures Advances(Ledger([], {}), Ledger([], {}), files) && AcceptedCount([]) == 0
  {
  }
}
