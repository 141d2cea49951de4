/** What recovery is for: data that was written and is still there is found, byte for byte. */
module UndamagedData {
  import opened Bits
  import opened Crc32
  import opened Wrappers
  import opened Lzma2Framing
  import opened Lzma2Writer
  import opened ArchiveFiles
  import opened BatchReference
  import opened StreamingRecovery
  import opened ResyncReference
  import opened DeepRecovery

  function Join(pieces: seq<seq<byte>>): seq<byte> {
    if pieces == [] then [] else Join(pieces[..|pieces| - 1]) + pieces[|pieces| - 1]
  }

  /** The decoder gives back the piece of every frame when it is fed from the reset before it. */
  ghost predicate Faithful(dec: Decoder, fs: seq<Frame>, pieces: seq<seq<byte>>) {
    && |pieces| == |fs|
    && (fs != [] ==> fs[0].reset)
    && (forall k :: 0 <= k < |fs| ==> |pieces[k]| == fs[k].decodedSize)
    && (forall r, k :: 0 <= r <= k < |fs| && LastReset(fs, r, k) ==> dec(fs[r..k + 1]) == Some(pieces[k]))
  }

  ghost predicate LastReset(fs: seq<Frame>, r: nat, k: nat)
    requires r <= k < |fs|
  {
    fs[r].reset && forall j :: r < j <= k ==> !fs[j].reset
  }

  lemma FaithfulBefore(dec: Decoder, fs: seq<Frame>, pieces: seq<seq<byte>>, n: nat)
    requires Faithful(dec, fs, pieces) && n <= |fs|
    ensures Faithful(dec, fs[..n], pieces[..n])
  {
    forall r, k | 0 <= r <= k < n && LastReset(fs[..n], r, k)
      ensures dec(fs[..n][r..k + 1]) == Some(pieces[..n][k])
    {
      assert LastReset(fs, r, k);
      assert fs[..n][r..k + 1] == fs[r..k + 1];
    }
  }

  /** The image of such a folder is what was written, every byte of it delivered. */
  lemma {:induction false} ImageIsWhole(dec: Decoder, fs: seq<Frame>, pieces: seq<seq<byte>>)
    requires Faithful(dec, fs, pieces)
    ensures |Image(dec, fs)| == |Join(pieces)| && BytesOf(Image(dec, fs)) == Join(pieces)
    ensures forall c :: c in Image(dec, fs) ==> c.Got?
  {
    hide Faithful, LastCells;
    if fs == [] {
      FaithfulSizes(dec, fs, pieces);
    } else {
      var n := |fs| - 1;
      FaithfulSizes(dec, fs, pieces);
      FaithfulBefore(dec, fs, pieces, n);
      ImageIsWhole(dec, fs[..n], pieces[..n]);
      LastIsPiece(dec, fs, pieces);
      BytesAppend(Image(dec, fs[..n]), LastCells(dec, fs));
    }
  }

  lemma FaithfulSizes(dec: Decoder, fs: seq<Frame>, pieces: seq<seq<byte>>)
    requires Faithful(dec, fs, pieces)
    ensures |pieces| == |fs| && forall k :: 0 <= k < |fs| ==> |pieces[k]| == fs[k].decodedSize
  {
  }

  lemma LastIsPiece(dec: Decoder, fs: seq<Frame>, pieces: seq<seq<byte>>)
    requires Faithful(dec, fs, pieces) && fs != []
    ensures BytesOf(LastCells(dec, fs)) == pieces[|fs| - 1]
    ensures forall c :: c in LastCells(dec, fs) ==> c.Got?
  {
    var n, r := |fs| - 1, SegmentStart(fs);
    assert r >= 0;
    forall j | r <= j < |fs| ensures GoodAt(dec, fs, r, j) {
      assert LastReset(fs, r, j);
    }
    assert LastReset(fs, r, n) && fs[r..n + 1] == fs[r..];
    assert Delivered(dec, fs);
    assert BytesOf(LastCells(dec, fs)) == pieces[n];
  }

  // ----- a folder

  /** The packed bytes of the folder are these chunks, all of them, and decode to these pieces. */
  ghost predicate Holds(meta: Metadata, cs: seq<Chunk>, end: seq<byte>, pieces: seq<seq<byte>>) {
    && AllValid(cs) && (end == [] || end[0] == 0)
    && meta.packed == Written(cs) + end && Whole(meta)
    && Faithful(meta.decoder, FramesOf(cs, 0, 0), pieces)
    && meta.unpackedSize == |Join(pieces)|
  }

  /** The files tile the content, and the recorded CRCs are those of the content. */
  ghost predicate Recorded(files: seq<FileEntry>, content: seq<byte>) {
    && Tile(files, 0, |content|)
    && forall f :: f in files && f.crc.Some? && f.offset + f.length <= |content| ==>
         Crc(content[f.offset..f.offset + f.length]) == f.crc.value
  }

  lemma {:induction false} TileWithin(files: seq<FileEntry>, from: nat, to: nat)
    requires Tile(files, from, to)
    ensures from <= to
    ensures forall f :: f in files ==> from <= f.offset && f.offset + f.length <= to
  {
    if files != [] {
      TileWithin(files[1..], from + files[0].length, to);
    }
  }

  /** Every frame is handled, and the framing holds. */
  lemma HoldsFrames(meta: Metadata, cs: seq<Chunk>, end: seq<byte>, pieces: seq<seq<byte>>)
    requires Holds(meta, cs, end, pieces)
    ensures FramingHolds(meta) && HandledFrames(meta) == FramesOf(cs, 0, 0)
    ensures BytesOf(Image(meta.decoder, FramesOf(cs, 0, 0))) == Join(pieces)
    ensures forall c :: c in Image(meta.decoder, FramesOf(cs, 0, 0)) ==> c.Got?
  {
    hide Faithful, Walk, WalkEnd, Intact, Within;
    var fs, d := FramesOf(cs, 0, 0), meta.packed;
    assert d[0..] == d;
    StreamBack(d, 0, 0, cs, end);
    ImageIsWhole(meta.decoder, fs, pieces);
    IntactExactly(d, 0, 0, meta.unpackedSize);
    WalkTiles(d, 0, 0);
    AllWithin(fs, meta.unpackedSize);
    if end != [] {
      assert d[|Written(cs)|] == end[0];
    }
  }

  lemma AllWithin(fs: seq<Frame>, limit: nat)
    requires Tiled(fs, 0, 0) && OutputSize(fs) <= limit
    ensures Within(fs, limit) == fs
  {
    forall k | 0 <= k < |fs| ensures fs[k].outputOffset + fs[k].decodedSize <= limit {
      TiledAt(fs, 0, 0, k);
      SizeWithin(fs, k);
    }
    assert Fits(fs, limit);
    assert fs + [] == fs;
    WithinStops(fs, [], limit);
  }

  /** The names are different from one another, and free. */
  ghost predicate FreshNames(targets: seq<Target>, attempted: set<FileName>) {
    && (forall i :: 0 <= i < |targets| ==> targets[i].name !in attempted)
    && (forall i, j :: 0 <= i < j < |targets| ==> targets[i].name != targets[j].name)
  }

  /** Files whose bytes are all there are called one after the other, none left out. */
  lemma {:induction false} AllCalled(img: seq<Cell>, targets: seq<Target>, accept: Accept, prefix: string, l: Ledger)
    requires FreshNames(targets, l.attempted) && forall i :: 0 <= i < |targets| ==> Publishable(img, targets[i])
    ensures var l' := Batch(img, targets, accept, prefix, l);
      && l.history <= l'.history && |l'.history| == |l.history| + |targets|
      && (forall i :: 0 <= i < |targets| ==> l'.history[|l.history| + i].call == CallFor(img, targets[i], prefix))
      && (forall name :: name in l'.attempted ==> name in l.attempted || Named(targets, name))
  {
    hide Publishable, Named, BytesOf, CallFor, Settle;
    if targets != [] {
      var n := |targets| - 1;
      AllCalled(img, targets[..n], accept, prefix, l);
      NamedSnoc(targets, l.attempted);
      SettleCalls(img, targets[n], accept, prefix, Batch(img, targets[..n], accept, prefix, l));
    }
  }

  lemma SettleCalls(img: seq<Cell>, t: Target, accept: Accept, prefix: string, l: Ledger)
    requires t.name !in l.attempted && Publishable(img, t)
    ensures var l' := Settle(img, t, accept, prefix, l);
      && |l'.history| == |l.history| + 1 && l.history <= l'.history
      && l'.history[|l.history|].call == CallFor(img, t, prefix)
      && l'.attempted <= l.attempted + {t.name}
  {
    hide Publishable;
  }

  lemma NamedSnoc(targets: seq<Target>, attempted: set<FileName>)
    requires targets != [] && FreshNames(targets, attempted)
    ensures var n := |targets| - 1;
      && Named(targets, targets[n].name) && !Named(targets[..n], targets[n].name)
      && forall name :: Named(targets[..n], name) ==> Named(targets, name)
  {
    var n := |targets| - 1;
    assert targets[n].name == targets[n].name;
    forall name | Named(targets[..n], name) ensures Named(targets, name) {
      var i :| 0 <= i < n && targets[..n][i].name == name;
      assert targets[i].name == name;
    }
  }

  ghost predicate Named(targets: seq<Target>, name: FileName) {
    exists i :: 0 <= i < |targets| && targets[i].name == name
  }

  lemma SliceBytes(img: seq<Cell>, content: seq<byte>, t: Target)
    requires BytesOf(img) == content && t.size > 0 && t.End() <= |content| && forall c :: c in img ==> c.Got?
    requires Crc(content[t.start..t.End()]) == t.crc
    ensures Publishable(img, t)
    ensures forall prefix :: CallFor(img, t, prefix).bytes == content[t.start..t.End()]
  {
    hide Crc32.Crc;
    assert BytesOf(img[t.start..t.End()]) == content[t.start..t.End()];
  }

  lemma {:induction false} FilesToTargets(files: seq<FileEntry>)
    ensures forall f :: f in files && f.crc.Some? && f.length > 0 ==>
      Target(f.offset, f.name, f.length, f.crc.value) in TargetsOf(files)
  {
    if files != [] {
      FilesToTargets(files[1..]);
    }
  }

  /** How the provenance of a streamed file begins. */
  function KindOf(meta: Metadata): string {
    if meta.encrypted then "7z_aes_lzma2" else "7z_lzma2"
  }

  /** Nothing damaged, nothing lost: the framing holds, and every file with bytes and a CRC is offered once,
      with exactly the bytes that were written in its place; nothing else is offered. */
  lemma UndamagedFolder(meta: Metadata, cs: seq<Chunk>, end: seq<byte>, pieces: seq<seq<byte>>, accept: Accept,
                        l: Ledger)
    requires Holds(meta, cs, end, pieces) && Recorded(meta.files, Join(pieces))
    requires FreshNames(TargetsOf(meta.files), l.attempted)
    ensures FramingHolds(meta)
    ensures var l', content := FolderLedger(meta, accept, l), Join(pieces);
      && l.history <= l'.history && |l'.history| == |l.history| + |TargetsOf(meta.files)|
      && (forall name :: name in l'.attempted ==> name in l.attempted || Named(TargetsOf(meta.files), name))
      && (forall f :: f in meta.files && f.crc.Some? && f.length > 0 ==>
            && f.offset + f.length <= |content|
            && exists i :: |l.history| <= i < |l'.history| && OffersAs(l'.history[i].call, f, content, KindOf(meta)))
  {
    hide Recorded, Faithful, Written, Whole, Image, FreshNames, Crc32.Crc, HandledFrames, FramingHolds, Batch,
      TargetsOf;
    hide Publishable, BytesOf, Join, Tile, Named;
    HoldsFrames(meta, cs, end, pieces);
    AllOffered(meta.files, Image(meta.decoder, FramesOf(cs, 0, 0)), Join(pieces), accept, Prefix(meta), l);
  }

  /** The batch reference on a whole image. */
  lemma AllOffered(files: seq<FileEntry>, img: seq<Cell>, content: seq<byte>, accept: Accept, prefix: string, l: Ledger)
    requires Recorded(files, content) && BytesOf(img) == content && forall c :: c in img ==> c.Got?
    requires FreshNames(TargetsOf(files), l.attempted)
    ensures var l' := Batch(img, TargetsOf(files), accept, prefix, l);
      && l.history <= l'.history && |l'.history| == |l.history| + |TargetsOf(files)|
      && (forall name :: name in l'.attempted ==> name in l.attempted || Named(TargetsOf(files), name))
      && (forall f :: f in files && f.crc.Some? && f.length > 0 ==>
            && f.offset + f.length <= |content|
            && exists i :: |l.history| <= i < |l'.history| && OffersAs(l'.history[i].call, f, content, prefix))
  {
    hide Recorded, Publishable, CallFor, Crc32.Crc, FreshNames, BytesOf, Batch, TargetsOf;
    var targets := TargetsOf(files);
    FilesToTargets(files);
    AllPublishable(files, img, content);
    AllCalled(img, targets, accept, prefix, l);
    var l' := Batch(img, targets, accept, prefix, l);
    forall f | f in files && f.crc.Some? && f.length > 0
      ensures f.offset + f.length <= |content|
      ensures exists i :: |l.history| <= i < |l'.history| && OffersAs(l'.history[i].call, f, content, prefix)
    {
      var t := Target(f.offset, f.name, f.length, f.crc.value);
      var i :| 0 <= i < |targets| && targets[i] == t;
      assert OffersAs(l'.history[|l.history| + i].call, f, content, prefix);
    }
  }

  /** With the file's own bytes, from the stream of a folder of that kind. */
  ghost predicate OffersAs(call: Call, f: FileEntry, content: seq<byte>, prefix: string)
    requires f.offset + f.length <= |content|
  {
    && call.name == f.name && call.size == f.length && call.bytes == content[f.offset..f.offset + f.length]
    && call.provenance.Streamed? && call.provenance.prefix == prefix
  }

  ghost predicate AsStreamed(call: Call, t: Target, bytes: seq<byte>, prefix: string) {
    && call.name == t.name && call.bytes == bytes && call.size == t.size
    && call.provenance.Streamed? && call.provenance.prefix == prefix
  }

  lemma AllPublishable(files: seq<FileEntry>, img: seq<Cell>, content: seq<byte>)
    requires Recorded(files, content) && BytesOf(img) == content && forall c :: c in img ==> c.Got?
    ensures forall i :: 0 <= i < |TargetsOf(files)| ==>
      var t := TargetsOf(files)[i];
      && t.End() <= |content| && Publishable(img, t)
      && forall prefix :: AsStreamed(CallFor(img, t, prefix), t, content[t.start..t.End()], prefix)
  {
    hide Crc32.Crc;
    TileWithin(files, 0, |content|);
    TargetsFromFiles(files);
    TargetsAscending(files, 0, |content|);
    forall i | 0 <= i < |TargetsOf(files)|
      ensures var t := TargetsOf(files)[i];
        && t.End() <= |content| && Publishable(img, t)
        && forall prefix :: AsStreamed(CallFor(img, t, prefix), t, content[t.start..t.End()], prefix)
    {
      var t := TargetsOf(files)[i];
      assert FileEntry(t.name, t.start, t.size, Some(t.crc)) in files;
      SliceBytes(img, content, t);
    }
  }

  // ----- all folders

  /** What a folder holds: its chunks, what ends them, and what they decode to. */
  datatype Content = Content(chunks: seq<Chunk>, end: seq<byte>, pieces: seq<seq<byte>>)

  ghost predicate HoldsAll(blocks: seq<Metadata>, contents: seq<Content>) {
    && |blocks| == |contents|
    && forall b :: 0 <= b < |blocks| ==>
         && Holds(blocks[b], contents[b].chunks, contents[b].end, contents[b].pieces)
         && Recorded(blocks[b].files, Join(contents[b].pieces))
  }

  /** The files with bytes and a CRC of the first `n` folders. */
  function TargetsUpTo(blocks: seq<Metadata>, n: nat): seq<Target>
    requires n <= |blocks|
  {
    if n == 0 then [] else TargetsUpTo(blocks, n - 1) + TargetsOf(blocks[n - 1].files)
  }

  ghost predicate OfferedIn(history: seq<Event>, f: FileEntry, content: seq<byte>, prefix: string) {
    f.offset + f.length <= |content|
    && exists i :: 0 <= i < |history| && OffersAs(history[i].call, f, content, prefix)
  }

  ghost predicate AllOfferedUpTo(blocks: seq<Metadata>, contents: seq<Content>, n: nat, history: seq<Event>)
    requires n <= |blocks| == |contents|
  {
    forall b, f :: 0 <= b < n && f in blocks[b].files && f.crc.Some? && f.length > 0 ==>
      OfferedIn(history, f, Join(contents[b].pieces), KindOf(blocks[b]))
  }

  lemma FreshParts(a: seq<Target>, b: seq<Target>, attempted: set<FileName>)
    requires FreshNames(a + b, {}) && forall name :: name in attempted ==> Named(a, name)
    ensures FreshNames(a, {}) && FreshNames(b, attempted)
    ensures forall name :: Named(a, name) || Named(b, name) ==> Named(a + b, name)
  {
    var all := a + b;
    assert forall i :: 0 <= i < |a| ==> all[i] == a[i];
    assert forall i :: 0 <= i < |b| ==> all[|a| + i] == b[i];
    forall i, j | 0 <= i < |b| && 0 <= j < |a| ensures b[i].name != a[j].name {
      assert all[|a| + i].name != all[j].name;
    }
    forall name | Named(a, name) || Named(b, name) ensures Named(all, name) {
      if Named(a, name) {
        var i :| 0 <= i < |a| && a[i].name == name;
        assert all[i].name == name;
      } else {
        var i :| 0 <= i < |b| && b[i].name == name;
        assert all[|a| + i].name == name;
      }
    }
  }

  /** An archive of which nothing is damaged, whose names are all different: every file with bytes and a CRC
      is offered with exactly its bytes, and nothing is offered besides. */
  lemma {:induction false} UndamagedRun(blocks: seq<Metadata>, contents: seq<Content>, n: nat, accept: Accept)
    requires n <= |blocks| && HoldsAll(blocks, contents) && FreshNames(TargetsUpTo(blocks, n), {})
    ensures var l := RunLedger(blocks, n, accept);
      && AllOfferedUpTo(blocks, contents, n, l.history) && |l.history| == |TargetsUpTo(blocks, n)|
      && forall name :: name in l.attempted ==> Named(TargetsUpTo(blocks, n), name)
  {
    hide HoldsAll, FreshNames, Named, AllOfferedUpTo, FolderLedger, TargetsOf;
    if n == 0 {
      NoneOffered(blocks, contents);
    } else {
      var before, targets := TargetsUpTo(blocks, n - 1), TargetsOf(blocks[n - 1].files);
      FreshParts(before, targets, {});
      UndamagedRun(blocks, contents, n - 1, accept);
      var l := RunLedger(blocks, n - 1, accept);
      FreshParts(before, targets, l.attempted);
      FolderOffered(blocks, contents, n - 1, accept, l);
    }
  }

  lemma NoneOffered(blocks: seq<Metadata>, contents: seq<Content>)
    requires |blocks| == |contents| || HoldsAll(blocks, contents)
    ensures |blocks| == |contents| && AllOfferedUpTo(blocks, contents, 0, [])
  {
  }

  lemma FolderOffered(blocks: seq<Metadata>, contents: seq<Content>, n: nat, accept: Accept, l: Ledger)
    requires n < |blocks| && HoldsAll(blocks, contents) && AllOfferedUpTo(blocks, contents, n, l.history)
    requires FreshNames(TargetsOf(blocks[n].files), l.attempted)
    ensures var l' := FolderLedger(blocks[n], accept, l);
      && AllOfferedUpTo(blocks, contents, n + 1, l'.history)
      && |l'.history| == |l.history| + |TargetsOf(blocks[n].files)|
      && (forall name :: name in l'.attempted ==> name in l.attempted || Named(TargetsOf(blocks[n].files), name))
  {
    hide FreshNames, Named, FolderLedger, Holds, Recorded, Join, OffersAs;
    var c, l' := contents[n], FolderLedger(blocks[n], accept, l);
    UndamagedFolder(blocks[n], c.chunks, c.end, c.pieces, accept, l);
    forall b, f | 0 <= b < n + 1 && f in blocks[b].files && f.crc.Some? && f.length > 0
      ensures OfferedIn(l'.history, f, Join(contents[b].pieces), KindOf(blocks[b]))
    {
      if b < n {
        assert OfferedIn(l.history, f, Join(contents[b].pieces), KindOf(blocks[b]));
        var i :| 0 <= i < |l.history| && OffersAs(l.history[i].call, f, Join(contents[b].pieces), KindOf(blocks[b]));
        assert l'.history[i] == l.history[i];
      }
    }
  }

  // ----- a segment found after the framing was lost

  /** The frames that random access finds at these chunks; it leaves output offsets at zero. */
  ghost function Loose(cs: seq<Chunk>, pos: nat): (fs: seq<Frame>)
    requires AllValid(cs)
    ensures |fs| == |cs|
  {
    if cs == [] then [] else [FrameOf(cs[0], pos, 0)] + Loose(cs[1..], pos + |ChunkBytes(cs[0])|)
  }

  lemma {:induction false} LooseStarts(cs: seq<Chunk>, pos: nat)
    requires AllValid(cs)
    ensures forall i :: 0 <= i < |cs| ==> Loose(cs, pos)[i].reset == StartsSegment(cs[i])
    decreases |cs|
  {
    hide ChunkBytes, ValidChunk, SizeOf, StartsSegment;
    if cs != [] {
      LooseStarts(cs[1..], pos + |ChunkBytes(cs[0])|);
    }
  }

  /** One segment: only its first chunk starts one. */
  ghost predicate OneSegment(cs: seq<Chunk>) {
    cs != [] && AllValid(cs) && StartsSegment(cs[0]) && forall i :: 1 <= i < |cs| ==> !StartsSegment(cs[i])
  }

  lemma {:induction false} SegmentBack(d: seq<byte>, pos: nat, cs: seq<Chunk>, n: nat, first: bool)
    requires AllValid(cs) && |cs| <= n && Has(d, pos, Written(cs))
    requires forall i :: 0 <= i < |cs| && (i > 0 || !first) ==> !StartsSegment(cs[i])
    ensures Loose(cs, pos) <= SegmentFrom(d, pos, n, first)
    decreases |cs|
  {
    hide FrameFromBytes, ChunkBytes, ValidChunk, SizeOf, StartsSegment, Has, SegmentFrom;
    if cs != [] {
      var head, rest := ChunkBytes(cs[0]), Written(cs[1..]);
      HasHead(d, pos, head, rest);
      ChunkBack(d, pos, cs[0]);
      SegmentBack(d, pos + |head|, cs[1..], n - 1, false);
      SegmentStarts(d, pos, n, first);
      PrefixCons(FrameOf(cs[0], pos, 0), Loose(cs[1..], pos + |head|), SegmentFrom(d, pos + |head|, n - 1, false));
    }
  }

  lemma PrefixCons(f: Frame, a: seq<Frame>, b: seq<Frame>)
    requires a <= b
    ensures [f] + a <= [f] + b
  {
  }

  lemma SegmentStarts(d: seq<byte>, pos: nat, n: nat, first: bool)
    requires n > 0 && FrameFromBytes(d, pos).Some? && (first || !FrameFromBytes(d, pos).value.0.reset)
    ensures var (f, next) := FrameFromBytes(d, pos).value;
            SegmentFrom(d, pos, n, first) == [f] + SegmentFrom(d, next, n - 1, false)
  {
    hide FrameFromBytes;
  }

  /** From the one reset on, the pieces follow one another. */
  lemma {:induction false} PiecesDecode(dec: Decoder, fs: seq<Frame>, pieces: seq<seq<byte>>)
    requires Faithful(dec, fs, pieces) && forall i :: 1 <= i < |fs| ==> !fs[i].reset
    requires |Join(pieces)| <= SEGMENT_LIMIT
    ensures DecodedSegment(dec, fs) == Some(Join(pieces))
  {
    if fs != [] {
      var n := |fs| - 1;
      FaithfulBefore(dec, fs, pieces, n);
      PiecesDecode(dec, fs[..n], pieces[..n]);
      assert LastReset(fs, 0, n) && fs[0..n + 1] == fs;
    }
  }

  /** Wherever the framing was lost: a file that is a run of chunks from a reset on, all of them in the
      window and the reset among the first ones probed, is found and its name called. */
  lemma UndamagedSegment(data: seq<byte>, pos: nat, cs: seq<Chunk>, pieces: seq<seq<byte>>, f: FileEntry,
                         files: seq<FileEntry>, dec: Decoder, prefix: string, accept: Accept, l: Ledger,
                         all: seq<FileEntry>)
    requires OneSegment(cs) && |cs| <= MAX_FRAMES && Has(data, pos, Written(cs))
    requires pos <= |data| && ProbeCount(data, pos) < MAX_PROBES
    requires Faithful(dec, Loose(cs, pos), pieces)
    requires f in files && f.length == |Join(pieces)| <= SEGMENT_LIMIT && f.crc == Some(Crc(Join(pieces)))
    requires f.name !in l.attempted && RunSafe(l, all) && forall g :: g in files ==> g in all
    ensures var l' := ResyncLedger(data, files, dec, prefix, accept, l);
            exists i :: |l.history| <= i < |l'.history| && l'.history[i].call.name == f.name
  {
    hide RunSafe, Faithful, Crc32.Crc, ResyncLedger, ProbeCount, Join, SegmentFrom, Grown;
    var fs, s := Loose(cs, pos), SearchFor(data, files, dec, prefix, accept, l.attempted);
    SegmentBack(data, pos, cs, MAX_FRAMES, true);
    LooseStarts(cs, pos);
    PiecesDecode(dec, fs, pieces);
    assert SegmentFrom(data, pos, MAX_FRAMES, true)[..|cs|] == fs;
    DecodesExactly(dec, fs, Join(pieces));
    ResyncTargetsMeaning(files, l.attempted);
    SegmentProbed(data, pos, cs);
    assert SegmentYields(data, pos, |cs|, dec, Join(pieces));
    ResyncMeans(data, files, dec, prefix, accept, l, all);
    WantedIsFindable(s, pos, |cs|, Join(pieces), f);
  }

  lemma SegmentProbed(data: seq<byte>, pos: nat, cs: seq<Chunk>)
    requires OneSegment(cs) && Has(data, pos, Written(cs))
    ensures IsProbe(data, pos)
  {
    hide FrameFromBytes, ChunkBytes, ValidChunk, Has;
    HasHead(data, pos, ChunkBytes(cs[0]), Written(cs[1..]));
    ChunkBack(data, pos, cs[0]);
    FrameShape(data, pos);
  }

  lemma WantedIsFindable(s: Search, pos: nat, k: nat, bytes: seq<byte>, f: FileEntry)
    requires pos <= |s.data| && IsProbe(s.data, pos) && ProbeCount(s.data, pos) < MAX_PROBES
    requires SegmentYields(s.data, pos, k, s.dec, bytes) && f in s.targets && IsFile(f, bytes)
    ensures Findable(s, f)
  {
    hide SegmentYields, IsFile, ProbeCount;
    assert pos < |s.data| && Probed(s.data, pos);
  }
}
