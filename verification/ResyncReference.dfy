/** What the search after lost framing must compute, said without its shortcuts: at every probed reset,
    every prefix of the segment that decodes is offered to every file it is. */
module ResyncReference {
  import opened Bits
  import opened Wrappers
  import opened Crc32
  import opened Lzma2Framing
  import opened ArchiveFiles
  import opened BatchReference
  import opened StreamingRecovery

  const SEGMENT_LIMIT: nat := 32 * 1024 * 1024
  const WINDOW: nat := 8 * 1024 * 1024
  const MAX_PROBES: nat := 12000
  const MAX_FRAMES: nat := 64

  /** A published call is one of the archive's files, with its declared size and CRC. */
  ghost predicate Proven(call: Call, f: FileEntry) {
    call.name == f.name && |call.bytes| == call.size == f.length && f.crc == Some(Crc(call.bytes))
  }

  /** Publication safety: every call carries a whole file with its declared size and CRC, and a name
      whose call was accepted is taken and never offered again. */
  ghost predicate RunSafe(l: Ledger, files: seq<FileEntry>) {
    && (forall i :: 0 <= i < |l.history| ==> exists f :: f in files && Proven(l.history[i].call, f))
    && (forall i :: 0 <= i < |l.history| && l.history[i].accepted ==> l.history[i].call.name in l.attempted)
    && (forall i, j :: 0 <= i < j < |l.history| && l.history[i].accepted ==>
          l.history[j].call.name != l.history[i].call.name)
  }

  lemma RunSafeStep(l: Ledger, files: seq<FileEntry>, e: Event, attempted: set<FileName>, f: FileEntry)
    requires RunSafe(l, files) && f in files && Proven(e.call, f) && e.call.name !in l.attempted
    requires l.attempted <= attempted && (e.accepted ==> e.call.name in attempted)
    ensures RunSafe(Ledger(l.history + [e], attempted), files)
  {
    hide Proven;
    var h := l.history + [e];
    forall i | 0 <= i < |h|
      ensures exists f :: f in files && Proven(h[i].call, f)
    {
      if i < |l.history| {
        assert h[i] == l.history[i];
      }
    }
  }

  /** The batch reference is safe, so streaming recovery is. */
  lemma {:induction false} BatchSafe(img: seq<Cell>, targets: seq<Target>, accept: Accept, prefix: string, l: Ledger,
                                     files: seq<FileEntry>)
    requires RunSafe(l, files)
    requires forall t :: t in targets ==> FileEntry(t.name, t.start, t.size, Some(t.crc)) in files
    ensures RunSafe(Batch(img, targets, accept, prefix, l), files)
    ensures l.attempted <= Batch(img, targets, accept, prefix, l).attempted
  {
    if targets != [] {
      var n := |targets| - 1;
      var t := targets[n];
      BatchSafe(img, targets[..n], accept, prefix, l, files);
      var l1 := Batch(img, targets[..n], accept, prefix, l);
      if t.name !in l1.attempted && Publishable(img, t) {
        var call := CallFor(img, t, prefix);
        var l2 := Offer(accept, l1, call);
        RunSafeStep(l1, files, Event(call, accept(l1.history, call)), l2.attempted,
                    FileEntry(t.name, t.start, t.size, Some(t.crc)));
      }
    }
  }

  lemma {:induction false} AcceptedSplit(a: seq<Event>, b: seq<Event>)
    ensures AcceptedCount(a + b) == AcceptedCount(a) + AcceptedCount(b)
  {
    if b == [] {
      assert a + b == a;
    } else {
      var n := |b| - 1;
      assert (a + b)[..|a + b| - 1] == a + b[..n];
      AcceptedSplit(a, b[..n]);
    }
  }

  /** What a segment decodes to when every frame yields its declared size. */
  function DecodedSegment(dec: Decoder, frames: seq<Frame>): Option<seq<byte>> {
    if frames == [] then Some([])
    else
      var before := DecodedSegment(dec, frames[..|frames| - 1]);
      if before.None? || !GoodPiece(dec, frames) then None
      else
        var all := before.value + dec(frames).value;
        if |all| > SEGMENT_LIMIT then None else Some(all)
  }

  /** The bytes are the pieces of the frames, each in its place: what the decoder makes of a frame after
      those before it stands where their declared sizes end. */
  ghost predicate Decodes(dec: Decoder, frames: seq<Frame>, bytes: seq<byte>) {
    && |bytes| == OutputSize(frames) <= SEGMENT_LIMIT
    && forall k: nat :: k < |frames| ==> PieceAt(dec, frames, k, bytes)
  }

  ghost predicate PieceAt(dec: Decoder, frames: seq<Frame>, k: nat, bytes: seq<byte>)
    requires k < |frames|
  {
    var from, piece := OutputSize(frames[..k]), dec(frames[..k + 1]);
    && piece.Some? && |piece.value| == frames[k].decodedSize
    && from + frames[k].decodedSize <= |bytes|
    && bytes[from..from + frames[k].decodedSize] == piece.value
  }

  lemma {:induction false} DecodesExactly(dec: Decoder, frames: seq<Frame>, bytes: seq<byte>)
    ensures DecodedSegment(dec, frames) == Some(bytes) <==> Decodes(dec, frames, bytes)
  {
    if frames != [] {
      var n := |frames| - 1;
      var from := OutputSize(frames[..n]);
      assert frames[..n + 1] == frames;
      if Decodes(dec, frames, bytes) {
        assert PieceAt(dec, frames, n, bytes);
        PiecesBefore(dec, frames, bytes[..from], bytes);
        DecodesExactly(dec, frames[..n], bytes[..from]);
        assert bytes == bytes[..from] + dec(frames).value;
      }
      if DecodedSegment(dec, frames) == Some(bytes) {
        var before := DecodedSegment(dec, frames[..n]).value;
        DecodesExactly(dec, frames[..n], before);
        assert bytes[..from] == before && bytes[from..] == dec(frames).value;
        PiecesBefore(dec, frames, before, bytes);
        assert PieceAt(dec, frames, n, bytes);
      }
    }
  }

  /** The pieces of all frames but the last lie in the bytes before the last one's. */
  lemma PiecesBefore(dec: Decoder, frames: seq<Frame>, before: seq<byte>, bytes: seq<byte>)
    requires frames != [] && |before| == OutputSize(frames[..|frames| - 1]) && before <= bytes
    ensures var n := |frames| - 1;
      forall k: nat :: k < n ==> (PieceAt(dec, frames, k, bytes) <==> PieceAt(dec, frames[..n], k, before))
  {
    var n := |frames| - 1;
    forall k: nat | k < n
      ensures PieceAt(dec, frames, k, bytes) <==> PieceAt(dec, frames[..n], k, before)
    {
      assert frames[..n][..k] == frames[..k] && frames[..n][..k + 1] == frames[..k + 1];
      var from, to := OutputSize(frames[..k]), OutputSize(frames[..k]) + frames[k].decodedSize;
      SizeWithin(frames[..n], k);
      assert before[from..to] == bytes[from..to];
    }
  }

  lemma {:induction false} SizeWithin(frames: seq<Frame>, k: nat)
    requires k < |frames|
    ensures OutputSize(frames[..k]) + frames[k].decodedSize <= OutputSize(frames)
  {
    var n := |frames| - 1;
    assert frames[..n][..k] == frames[..k];
    if k < n {
      SizeWithin(frames[..n], k);
    }
  }

  lemma {:induction false} BrokenStays(dec: Decoder, frames: seq<Frame>, k: nat)
    requires k <= |frames| && DecodedSegment(dec, frames[..k]).None?
    ensures DecodedSegment(dec, frames).None?
    decreases |frames| - k
  {
    if k == |frames| {
      assert frames[..k] == frames;
    } else {
      assert frames[..k + 1][..k] == frames[..k];
      BrokenStays(dec, frames, k + 1);
    }
  }

  lemma {:induction false} DecodedSize(dec: Decoder, frames: seq<Frame>)
    requires DecodedSegment(dec, frames).Some?
    ensures |DecodedSegment(dec, frames).value| == OutputSize(frames)
  {
    if frames != [] {
      DecodedSize(dec, frames[..|frames| - 1]);
    }
  }

  /** At most `n` consecutive frames from `pos`, none but the first a reset. */
  function SegmentFrom(data: seq<byte>, pos: nat, n: nat, first: bool): (frames: seq<Frame>)
    ensures |frames| <= n
    ensures forall i :: 0 <= i < |frames| ==> frames[i].decodedSize >= 1
    decreases n
  {
    if n == 0 then []
    else
      match FrameFromBytes(data, pos)
      case None => []
      case Some((f, next)) =>
        FrameShape(data, pos);
        if f.reset && !first then [] else [f] + SegmentFrom(data, next, n - 1, false)
  }

  predicate IsProbe(data: seq<byte>, pos: nat) {
    pos < |data| && ResetControl(data[pos]) && FrameFromBytes(data, pos).Some?
  }

  function ProbeCount(data: seq<byte>, n: nat): nat
    requires n <= |data|
  {
    if n == 0 then 0 else ProbeCount(data, n - 1) + (if IsProbe(data, n - 1) then 1 else 0)
  }

  /** The files that may still be found this way. */
  function ResyncTargets(files: seq<FileEntry>, attempted: set<FileName>): seq<FileEntry> {
    if files == [] then []
    else
      var f := files[0];
      (if f.crc.Some? && 0 < f.length <= SEGMENT_LIMIT && f.name !in attempted then [f] else [])
        + ResyncTargets(files[1..], attempted)
  }

  lemma {:induction false} ResyncTargetsMeaning(files: seq<FileEntry>, attempted: set<FileName>)
    ensures forall f :: f in ResyncTargets(files, attempted) <==>
      f in files && f.crc.Some? && 0 < f.length <= SEGMENT_LIMIT && f.name !in attempted
  {
    if files != [] {
      ResyncTargetsMeaning(files[1..], attempted);
    }
  }

  function Biggest(targets: seq<FileEntry>): (r: nat)
    ensures forall f :: f in targets ==> f.length <= r
  {
    if targets == [] then 0
    else
      var r := Biggest(targets[1..]);
      if targets[0].length > r then targets[0].length else r
  }

  predicate HasSize(targets: seq<FileEntry>, size: nat) {
    exists i :: 0 <= i < |targets| && targets[i].length == size
  }

  /** The bytes came from a segment at a probed position of the window. */
  ghost predicate FromSegment(call: Call, data: seq<byte>, dec: Decoder, prefix: string) {
    exists pos, k :: IsProbe(data, pos) && SegmentYields(data, pos, k, dec, call.bytes)
      && call.provenance == Resynced(prefix, pos)
  }

  /** The first `k` frames of the segment at `pos` decode to these bytes. */
  ghost predicate SegmentYields(data: seq<byte>, pos: nat, k: nat, dec: Decoder, bytes: seq<byte>) {
    var s := SegmentFrom(data, pos, MAX_FRAMES, true);
    1 <= k <= |s| && Decodes(dec, s[..k], bytes)
  }

  predicate IsFile(f: FileEntry, bytes: seq<byte>) {
    f.length == |bytes| && f.crc == Some(Crc(bytes))
  }

  lemma {:induction false} OutputSizeGrows(frames: seq<Frame>, k: nat)
    requires k <= |frames|
    requires forall i :: 0 <= i < |frames| ==> frames[i].decodedSize >= 1
    ensures OutputSize(frames[..k]) + (|frames| - k) <= OutputSize(frames)
  {
    if k == |frames| {
      assert frames[..k] == frames;
    } else {
      var n := |frames| - 1;
      assert frames[..n][..k] == frames[..k];
      OutputSizeGrows(frames[..n], k);
    }
  }

  // ----- the reference search

  /** What a search works with: the window, the decoder, the files still wanted, and where they go. */
  datatype Search = Search(data: seq<byte>, dec: Decoder, targets: seq<FileEntry>, prefix: string, accept: Accept)

  function Segment(s: Search, pos: nat): (frames: seq<Frame>)
    ensures |frames| <= MAX_FRAMES
  {
    SegmentFrom(s.data, pos, MAX_FRAMES, true)
  }

  function ResyncCall(s: Search, f: FileEntry, bytes: seq<byte>, pos: nat): Call {
    Call(f.name, bytes, f.length, Resynced(s.prefix, pos))
  }

  /** The name is taken before the file is offered, whatever the answer. */
  function TakeAndOffer(s: Search, f: FileEntry, bytes: seq<byte>, pos: nat, l: Ledger): Ledger {
    var call := ResyncCall(s, f, bytes, pos);
    Ledger(l.history + [Event(call, s.accept(l.history, call))], l.attempted + {f.name})
  }

  /** The first `n` wanted files, each offered the bytes if it is them and its name is still free. */
  function FilesOffered(s: Search, n: nat, bytes: seq<byte>, pos: nat, l: Ledger): Ledger
    requires n <= |s.targets|
  {
    if n == 0 then l
    else
      var l1 := FilesOffered(s, n - 1, bytes, pos, l);
      var f := s.targets[n - 1];
      if IsFile(f, bytes) && f.name !in l1.attempted then TakeAndOffer(s, f, bytes, pos, l1) else l1
  }

  /** The first `k` prefixes of the segment at `pos`, each offered if it decodes. */
  function PrefixesOffered(s: Search, pos: nat, k: nat, l: Ledger): Ledger
    requires k <= |Segment(s, pos)|
  {
    if k == 0 then l
    else
      var l1 := PrefixesOffered(s, pos, k - 1, l);
      match DecodedSegment(s.dec, Segment(s, pos)[..k])
      case None => l1
      case Some(bytes) => FilesOffered(s, |s.targets|, bytes, pos, l1)
  }

  function ProbeOffered(s: Search, pos: nat, l: Ledger): Ledger {
    PrefixesOffered(s, pos, |Segment(s, pos)|, l)
  }

  /** The first MAX_PROBES resets are looked at. */
  predicate Probed(data: seq<byte>, pos: nat)
    requires pos < |data|
  {
    IsProbe(data, pos) && ProbeCount(data, pos) < MAX_PROBES
  }

  /** The positions before `n`. */
  function Scanned(s: Search, n: nat, l: Ledger): Ledger
    requires n <= |s.data|
  {
    if n == 0 then l
    else
      var l1 := Scanned(s, n - 1, l);
      if Probed(s.data, n - 1) then ProbeOffered(s, n - 1, l1) else l1
  }

  function SearchFor(data: seq<byte>, files: seq<FileEntry>, dec: Decoder, prefix: string, accept: Accept,
                     attempted: set<FileName>): Search
  {
    Search(data, dec, ResyncTargets(files, attempted), prefix, accept)
  }

  /** The whole search over a window. */
  function ResyncLedger(data: seq<byte>, files: seq<FileEntry>, dec: Decoder, prefix: string, accept: Accept,
                        l: Ledger): Ledger
  {
    Scanned(SearchFor(data, files, dec, prefix, accept, l.attempted), |data|, l)
  }

  // ----- what the reference leaves in the ledger

  /** The names of the calls after `from`. */
  function NamesFrom(history: seq<Event>, from: nat): set<FileName> {
    set i | from <= i < |history| :: history[i].call.name
  }

  /** What each step adds: the ledger stays safe; every new call carries bytes that a segment of this
      window decodes to; a name is newly taken exactly when it was called, and called once. */
  ghost predicate Grown(s: Search, l: Ledger, l': Ledger, files: seq<FileEntry>) {
    && RunSafe(l', files)
    && l.history <= l'.history
    && (forall i :: |l.history| <= i < |l'.history| ==> FromSegment(l'.history[i].call, s.data, s.dec, s.prefix))
    && l'.attempted == l.attempted + NamesFrom(l'.history, |l.history|)
    && (forall i :: |l.history| <= i < |l'.history| ==> l'.history[i].call.name !in l.attempted)
    && (forall i, j :: |l.history| <= i < j < |l'.history| ==> l'.history[i].call.name != l'.history[j].call.name)
  }

  lemma NamesSnoc(history: seq<Event>, e: Event, from: nat)
    requires from <= |history|
    ensures NamesFrom(history + [e], from) == NamesFrom(history, from) + {e.call.name}
  {
    var all := history + [e];
    assert all[|history|] == e;
    forall name | name in NamesFrom(history, from) ensures name in NamesFrom(all, from) {
      var i :| from <= i < |history| && history[i].call.name == name;
      assert all[i].call.name == name;
    }
    forall name | name in NamesFrom(all, from) ensures name in NamesFrom(history, from) + {e.call.name} {
      var i :| from <= i < |all| && all[i].call.name == name;
      if i < |history| {
        assert history[i].call.name == name;
      }
    }
  }

  lemma GrownNone(s: Search, l: Ledger, files: seq<FileEntry>)
    requires RunSafe(l, files)
    ensures Grown(s, l, l, files)
  {
  }

  /** One more file is taken and offered. */
  lemma GrownStep(s: Search, l0: Ledger, l: Ledger, f: FileEntry, bytes: seq<byte>, pos: nat, k: nat,
                  files: seq<FileEntry>)
    requires Grown(s, l0, l, files) && f in files && IsFile(f, bytes) && f.name !in l.attempted
    requires IsProbe(s.data, pos) && SegmentYields(s.data, pos, k, s.dec, bytes)
    ensures Grown(s, l0, TakeAndOffer(s, f, bytes, pos, l), files)
  {
    hide SegmentYields, IsProbe, RunSafe, FromSegment, IsFile, NamesFrom;
    var call, l' := ResyncCall(s, f, bytes, pos), TakeAndOffer(s, f, bytes, pos, l);
    var e := Event(call, s.accept(l.history, call));
    CallProven(s, f, bytes, pos, k);
    RunSafeStep(l, files, e, l'.attempted, f);
    NamesSnoc(l.history, e, |l0.history|);
    NamesMember(l, l0);
  }

  lemma CallProven(s: Search, f: FileEntry, bytes: seq<byte>, pos: nat, k: nat)
    requires IsFile(f, bytes) && IsProbe(s.data, pos) && SegmentYields(s.data, pos, k, s.dec, bytes)
    ensures Proven(ResyncCall(s, f, bytes, pos), f)
    ensures FromSegment(ResyncCall(s, f, bytes, pos), s.data, s.dec, s.prefix)
  {
    hide SegmentYields, IsProbe;
  }

  /** New calls are of taken names. */
  lemma NamesMember(l: Ledger, l0: Ledger)
    requires l.attempted == l0.attempted + NamesFrom(l.history, |l0.history|)
    ensures forall i :: |l0.history| <= i < |l.history| ==> l.history[i].call.name in l.attempted
  {
    forall i | |l0.history| <= i < |l.history| ensures l.history[i].call.name in l.attempted {
      assert l.history[i].call.name in NamesFrom(l.history, |l0.history|);
    }
  }

  lemma {:induction false} FilesGrow(s: Search, n: nat, bytes: seq<byte>, pos: nat, k: nat, l0: Ledger, l: Ledger,
                                     files: seq<FileEntry>)
    requires n <= |s.targets| && Grown(s, l0, l, files) && forall f :: f in s.targets ==> f in files
    requires IsProbe(s.data, pos) && SegmentYields(s.data, pos, k, s.dec, bytes)
    ensures Grown(s, l0, FilesOffered(s, n, bytes, pos, l), files)
    ensures l.attempted <= FilesOffered(s, n, bytes, pos, l).attempted
    ensures forall j :: 0 <= j < n && IsFile(s.targets[j], bytes) ==>
      s.targets[j].name in FilesOffered(s, n, bytes, pos, l).attempted
  {
    hide Grown, IsProbe, SegmentYields, IsFile;
    if n > 0 {
      FilesGrow(s, n - 1, bytes, pos, k, l0, l, files);
      var l1, f := FilesOffered(s, n - 1, bytes, pos, l), s.targets[n - 1];
      if IsFile(f, bytes) && f.name !in l1.attempted {
        GrownStep(s, l0, l1, f, bytes, pos, k, files);
      }
    }
  }

  /** The wanted files that one of the first `k` prefixes is have their names taken. */
  ghost predicate Covered(s: Search, pos: nat, k: nat, attempted: set<FileName>) {
    forall j: nat, bytes, f ::
      (j <= k && SegmentYields(s.data, pos, j, s.dec, bytes) && f in s.targets && IsFile(f, bytes) ==>
       f.name in attempted)
  }

  lemma {:induction false} PrefixesGrow(s: Search, pos: nat, k: nat, l0: Ledger, l: Ledger, files: seq<FileEntry>)
    requires k <= |Segment(s, pos)| && Grown(s, l0, l, files) && forall f :: f in s.targets ==> f in files
    requires IsProbe(s.data, pos)
    ensures Grown(s, l0, PrefixesOffered(s, pos, k, l), files)
    ensures l.attempted <= PrefixesOffered(s, pos, k, l).attempted
    ensures Covered(s, pos, k, PrefixesOffered(s, pos, k, l).attempted)
  {
    hide Grown, IsProbe, IsFile, DecodedSegment, SegmentFrom, FilesOffered, Decodes;
    if k > 0 {
      PrefixesGrow(s, pos, k - 1, l0, l, files);
      forall bytes ensures SegmentYields(s.data, pos, k, s.dec, bytes)
                      <==> DecodedSegment(s.dec, Segment(s, pos)[..k]) == Some(bytes)
      {
        DecodesExactly(s.dec, Segment(s, pos)[..k], bytes);
      }
      var l1 := PrefixesOffered(s, pos, k - 1, l);
      match DecodedSegment(s.dec, Segment(s, pos)[..k])
      case None =>
      case Some(bytes) =>
        assert SegmentYields(s.data, pos, k, s.dec, bytes);
        FilesGrow(s, |s.targets|, bytes, pos, k, l0, l1, files);
    }
  }

  lemma {:induction false} ScanGrows(s: Search, n: nat, l: Ledger, files: seq<FileEntry>)
    requires n <= |s.data| && RunSafe(l, files) && forall f :: f in s.targets ==> f in files
    ensures Grown(s, l, Scanned(s, n, l), files)
    ensures forall pos :: 0 <= pos < n && Probed(s.data, pos) ==>
      Covered(s, pos, MAX_FRAMES, Scanned(s, n, l).attempted)
  {
    hide Grown, RunSafe, Probed, PrefixesOffered, Covered, Segment;
    if n == 0 {
      GrownNone(s, l, files);
    } else {
      ScanGrows(s, n - 1, l, files);
      var l1 := Scanned(s, n - 1, l);
      if Probed(s.data, n - 1) {
        var l2 := Scanned(s, n, l);
        ProbedIs(s.data, n - 1);
        PrefixesGrow(s, n - 1, |Segment(s, n - 1)|, l, l1, files);
        CoveredWhole(s, n - 1, l2.attempted);
        forall pos | 0 <= pos < n - 1 && Probed(s.data, pos) ensures Covered(s, pos, MAX_FRAMES, l2.attempted) {
          CoveredGrows(s, pos, MAX_FRAMES, l1.attempted, l2.attempted);
        }
      }
    }
  }

  lemma ProbedIs(data: seq<byte>, pos: nat)
    requires pos < |data| && Probed(data, pos)
    ensures IsProbe(data, pos)
  {
  }

  lemma CoveredGrows(s: Search, pos: nat, k: nat, attempted: set<FileName>, attempted': set<FileName>)
    requires Covered(s, pos, k, attempted) && attempted <= attempted'
    ensures Covered(s, pos, k, attempted')
  {
  }

  lemma CoveredWhole(s: Search, pos: nat, attempted: set<FileName>)
    requires Covered(s, pos, |Segment(s, pos)|, attempted)
    ensures Covered(s, pos, MAX_FRAMES, attempted)
  {
  }

  /** A wanted file that a prefix at a probed reset decodes to. */
  ghost predicate Findable(s: Search, f: FileEntry) {
    exists pos: nat, k: nat, bytes ::
      pos < |s.data| && Probed(s.data, pos) && SegmentYields(s.data, pos, k, s.dec, bytes) && f in s.targets
      && IsFile(f, bytes)
  }

  /** The reference is sound, and complete: every new call is a whole file of the archive decoded from a
      segment of the window, no name is called twice or after it was taken, and the name of every file
      that can be found this way is called. */
  lemma ResyncMeans(data: seq<byte>, files: seq<FileEntry>, dec: Decoder, prefix: string, accept: Accept, l: Ledger,
                    all: seq<FileEntry>)
    requires RunSafe(l, all) && forall f :: f in files ==> f in all
    ensures var s := SearchFor(data, files, dec, prefix, accept, l.attempted);
      var l' := ResyncLedger(data, files, dec, prefix, accept, l);
      && Grown(s, l, l', all)
      && forall f :: Findable(s, f) ==> exists i :: |l.history| <= i < |l'.history| && l'.history[i].call.name == f.name
  {
    hide RunSafe, IsProbe, IsFile, SegmentYields, FromSegment, Scanned;
    var s := SearchFor(data, files, dec, prefix, accept, l.attempted);
    var l' := ResyncLedger(data, files, dec, prefix, accept, l);
    ResyncTargetsMeaning(files, l.attempted);
    ScanGrows(s, |data|, l, all);
    forall f | Findable(s, f)
      ensures exists i :: |l.history| <= i < |l'.history| && l'.history[i].call.name == f.name
    {
      var pos: nat, k: nat, bytes :|
          pos < |s.data| && Probed(s.data, pos) && SegmentYields(s.data, pos, k, s.dec, bytes)
        && f in s.targets && IsFile(f, bytes);
      YieldsShort(s, pos, k, bytes);
      assert f.name in l'.attempted && f.name !in l.attempted;
      assert f.name in NamesFrom(l'.history, |l.history|);
    }
  }

  lemma YieldsShort(s: Search, pos: nat, k: nat, bytes: seq<byte>)
    requires SegmentYields(s.data, pos, k, s.dec, bytes)
    ensures 1 <= k <= MAX_FRAMES
  {
  }

  // ----- the shortcuts

  /** Bytes of a length no wanted file has are offered to none. */
  lemma {:induction false} NoSuchSize(s: Search, n: nat, bytes: seq<byte>, pos: nat, l: Ledger)
    requires n <= |s.targets| && !HasSize(s.targets, |bytes|)
    ensures FilesOffered(s, n, bytes, pos, l) == l
  {
    if n > 0 {
      NoSuchSize(s, n - 1, bytes, pos, l);
      assert s.targets[n - 1].length != |bytes|;
    }
  }

  /** A prefix of a length no wanted file has changes nothing. */
  lemma SkipPrefix(s: Search, pos: nat, k: nat, l: Ledger)
    requires 1 <= k <= |Segment(s, pos)| && !HasSize(s.targets, OutputSize(Segment(s, pos)[..k]))
    ensures PrefixesOffered(s, pos, k, l) == PrefixesOffered(s, pos, k - 1, l)
  {
    hide HasSize, SegmentFrom;
    var frames := Segment(s, pos)[..k];
    if DecodedSegment(s.dec, frames).Some? {
      DecodedSize(s.dec, frames);
      NoSuchSize(s, |s.targets|, DecodedSegment(s.dec, frames).value, pos, PrefixesOffered(s, pos, k - 1, l));
    }
  }

  /** Once a prefix is as large as any wanted file, longer ones change nothing. */
  lemma {:induction false} TooLarge(s: Search, pos: nat, n: nat, k: nat, l: Ledger)
    requires n <= k <= |Segment(s, pos)| && OutputSize(Segment(s, pos)[..n]) >= Biggest(s.targets)
    ensures PrefixesOffered(s, pos, k, l) == PrefixesOffered(s, pos, n, l)
    decreases k
  {
    hide SegmentFrom, PrefixesOffered, HasSize, Biggest;
    if n < k {
      TooLarge(s, pos, n, k - 1, l);
      var frames := Segment(s, pos)[..k];
      assert frames[..n] == Segment(s, pos)[..n];
      PrefixLonger(frames, n);
      OverBiggest(s.targets, OutputSize(frames));
      SkipPrefix(s, pos, k, l);
    }
  }

  lemma PrefixLonger(frames: seq<Frame>, n: nat)
    requires n < |frames| && forall i :: 0 <= i < |frames| ==> frames[i].decodedSize >= 1
    ensures OutputSize(frames[..n]) < OutputSize(frames)
  {
    OutputSizeGrows(frames, n);
  }

  lemma OverBiggest(targets: seq<FileEntry>, size: nat)
    requires size > Biggest(targets)
    ensures !HasSize(targets, size)
  {
  }

  /** Once a prefix fails to decode, it and every longer one change nothing. */
  lemma {:induction false} Undecodable(s: Search, pos: nat, n: nat, k: nat, l: Ledger)
    requires 1 <= n && n - 1 <= k <= |Segment(s, pos)| && n <= |Segment(s, pos)|
    requires DecodedSegment(s.dec, Segment(s, pos)[..n]).None?
    ensures PrefixesOffered(s, pos, k, l) == PrefixesOffered(s, pos, n - 1, l)
    decreases k
  {
    hide SegmentFrom, DecodedSegment, PrefixesOffered;
    if n <= k {
      Undecodable(s, pos, n, k - 1, l);
      var frames := Segment(s, pos)[..k];
      assert frames[..n] == Segment(s, pos)[..n];
      BrokenStays(s.dec, frames, n);
      BrokenPrefix(s, pos, k, l);
    }
  }

  lemma BrokenPrefix(s: Search, pos: nat, k: nat, l: Ledger)
    requires 1 <= k <= |Segment(s, pos)| && DecodedSegment(s.dec, Segment(s, pos)[..k]).None?
    ensures PrefixesOffered(s, pos, k, l) == PrefixesOffered(s, pos, k - 1, l)
  {
    hide DecodedSegment, SegmentFrom;
  }
}
