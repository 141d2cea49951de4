/** What is done once framing is lost: look for a dictionary reset whose segment is, as a whole, one
    of the files that are still missing. The program's loops leave exactly the reference's ledger. */
module SegmentResync {
  import opened Bits
  import opened Wrappers
  import opened Crc32
  import opened Lzma2Framing
  import opened ArchiveFiles
  import opened BatchReference
  import opened StreamingRecovery
  import opened ResyncReference

  method DecodeSegment(dec: Decoder, frames: seq<Frame>) returns (r: Option<seq<byte>>)
    ensures r == if frames == [] || !frames[0].reset then None else DecodedSegment(dec, frames)
  {
    if frames == [] || !frames[0].reset {
      return None;
    }
    var result: seq<byte> := [];
    var i := 0;
    while i < |frames|
      invariant i <= |frames|
      invariant DecodedSegment(dec, frames[..i]) == Some(result)
    {
      ghost var upTo := frames[..i + 1];
      assert upTo[..|upTo| - 1] == frames[..i];
      assert DecodedSegment(dec, upTo).None? ==> DecodedSegment(dec, frames).None? by {
        if DecodedSegment(dec, upTo).None? {
          BrokenStays(dec, frames, i + 1);
        }
      }
      var piece := dec(frames[..i + 1]);
      if piece.None? || |piece.value| != frames[i].decodedSize {
        return None;
      }
      result := result + piece.value;
      if |result| > SEGMENT_LIMIT {
        return None;
      }
      i := i + 1;
    }
    assert frames[..i] == frames;
    return Some(result);
  }

  lemma AcceptedNext(history: seq<Event>, e: Event)
    ensures AcceptedCount(history + [e]) == AcceptedCount(history) + if e.accepted then 1 else 0
  {
    assert (history + [e])[..|history|] == history;
  }

  /** Offering one decoded segment to every file of its size and CRC whose name is free. */
  method OfferMatches(pub: Publisher, targets: seq<FileEntry>, decoded: seq<byte>, prefix: string, pos: nat,
                      ghost s: Search)
    returns (proven: nat)
    requires s.targets == targets && s.prefix == prefix && s.accept == pub.accept
    modifies pub
    ensures pub.Book() == FilesOffered(s, |targets|, decoded, pos, old(pub.Book()))
    ensures AcceptedCount(pub.history) == AcceptedCount(old(pub.history)) + proven
  {
    hide Crc, AcceptedCount;
    proven := 0;
    var checksum := Crc(decoded);
    ghost var l := pub.Book();
    var i := 0;
    while i < |targets|
      invariant i <= |targets|
      invariant pub.Book() == FilesOffered(s, i, decoded, pos, l)
      invariant AcceptedCount(pub.history) == AcceptedCount(l.history) + proven
    {
      var f := targets[i];
      if f.length == |decoded| && f.name !in pub.attempted && Some(checksum) == f.crc {
        ghost var was := pub.history;
        pub.attempted := pub.attempted + {f.name};
        var call := Call(f.name, decoded, f.length, Resynced(prefix, pos));
        var ok := pub.Publish(call);
        AcceptedNext(was, Event(call, ok));
        if ok {
          proven := proven + 1;
        }
      }
      i := i + 1;
    }
  }

  /** The next frame of the segment: what is left after it. */
  lemma SegmentNext(data: seq<byte>, pos: nat, frames: seq<Frame>, idx: nat, n: nat)
    requires n == |frames| < MAX_FRAMES
    requires SegmentFrom(data, pos, MAX_FRAMES, true) == frames + SegmentFrom(data, idx, MAX_FRAMES - n, frames == [])
    requires FrameFromBytes(data, idx).Some?
    requires !(FrameFromBytes(data, idx).value.0.reset && frames != [])
    ensures
      var (f, next) := FrameFromBytes(data, idx).value;
      && SegmentFrom(data, pos, MAX_FRAMES, true) == (frames + [f]) + SegmentFrom(data, next, MAX_FRAMES - n - 1, false)
  {
    var (f, next) := FrameFromBytes(data, idx).value;
    assert SegmentFrom(data, idx, MAX_FRAMES - n, frames == [])
        == [f] + SegmentFrom(data, next, MAX_FRAMES - n - 1, false);
  }

  /** One more frame of the segment: decode what there is and offer it, if a file has that size. The
      answer says whether longer prefixes are still worth looking at; when not, they would add nothing. */
  method TryPrefix(pub: Publisher, targets: seq<FileEntry>, biggest: nat, frames: seq<Frame>, size: nat, pos: nat,
                   dec: Decoder, prefix: string, ghost s: Search, ghost l: Ledger)
    returns (proven: nat, more: bool)
    requires s.targets == targets && s.prefix == prefix && s.accept == pub.accept && s.dec == dec
    requires biggest == Biggest(targets) && forall f :: f in targets ==> f.length <= SEGMENT_LIMIT
    requires frames != [] && size == OutputSize(frames) && frames[0].reset
    requires frames <= Segment(s, pos)
    requires pub.Book() == PrefixesOffered(s, pos, |frames| - 1, l)
    modifies pub
    ensures pub.Book() == if more then PrefixesOffered(s, pos, |frames|, l) else ProbeOffered(s, pos, l)
    ensures AcceptedCount(pub.history) == AcceptedCount(old(pub.history)) + proven
  {
    hide SegmentFrom, Biggest, HasSize, FilesOffered, AcceptedCount, DecodedSegment;
    var whole, n := Segment(s, pos), |frames|;
    assert whole[..n] == frames;
    if size > biggest || size > SEGMENT_LIMIT {
      OverBiggestOrLimit(targets, size);
      SkipPrefix(s, pos, n, l);
      TooLarge(s, pos, n, |whole|, l);
      return 0, false;
    }
    if !HasSize(targets, size) {
      SkipPrefix(s, pos, n, l);
      return 0, true;
    }
    var decoded := DecodeSegment(dec, frames);
    if decoded.None? {
      Undecodable(s, pos, n, |whole|, l);
      return 0, false;
    }
    proven := OfferMatches(pub, targets, decoded.value, prefix, pos, s);
    if size == biggest {
      TooLarge(s, pos, n, |whole|, l);
      return proven, false;
    }
    return proven, true;
  }

  lemma OverBiggestOrLimit(targets: seq<FileEntry>, size: nat)
    requires size > Biggest(targets) || size > SEGMENT_LIMIT
    requires forall f :: f in targets ==> f.length <= SEGMENT_LIMIT
    ensures !HasSize(targets, size) && size >= Biggest(targets)
  {
    BiggestWithin(targets);
  }

  lemma {:induction false} BiggestWithin(targets: seq<FileEntry>)
    requires forall f :: f in targets ==> f.length <= SEGMENT_LIMIT
    ensures Biggest(targets) <= SEGMENT_LIMIT
  {
    if targets != [] {
      BiggestWithin(targets[1..]);
    }
  }

  /** Where the scan of one segment stands. */
  ghost predicate Scanning(data: seq<byte>, pos: nat, frames: seq<Frame>, idx: nat, n: nat, size: nat) {
    && n == |frames| <= MAX_FRAMES
    && SegmentFrom(data, pos, MAX_FRAMES, true) == frames + SegmentFrom(data, idx, MAX_FRAMES - n, frames == [])
    && size == OutputSize(frames)
    && (frames == [] ==> idx == pos)
    && (frames != [] ==> frames[0].reset)
  }

  lemma ScanStart(data: seq<byte>, pos: nat)
    ensures Scanning(data, pos, [], pos, 0, 0)
  {
  }

  lemma ScanStep(data: seq<byte>, pos: nat, frames: seq<Frame>, idx: nat, n: nat, size: nat)
    requires Scanning(data, pos, frames, idx, n, size) && IsProbe(data, pos) && n < MAX_FRAMES
    requires FrameFromBytes(data, idx).Some? && !(FrameFromBytes(data, idx).value.0.reset && frames != [])
    ensures
      var (f, next) := FrameFromBytes(data, idx).value;
      && Scanning(data, pos, frames + [f], next, n + 1, size + f.decodedSize)
      && frames + [f] <= SegmentFrom(data, pos, MAX_FRAMES, true)
      && (frames + [f])[0].reset
      && size + f.decodedSize == OutputSize(frames + [f])
  {
    var (f, next) := FrameFromBytes(data, idx).value;
    FrameShape(data, idx);
    SegmentNext(data, pos, frames, idx, n);
    OutputSizeSnoc(frames, f);
  }

  /** When the scan runs out of frames, it has seen the whole segment. */
  lemma ScanEnd(data: seq<byte>, pos: nat, frames: seq<Frame>, idx: nat, n: nat, size: nat)
    requires Scanning(data, pos, frames, idx, n, size)
    requires n == MAX_FRAMES || FrameFromBytes(data, idx).None?
             || (FrameFromBytes(data, idx).value.0.reset && frames != [])
    ensures SegmentFrom(data, pos, MAX_FRAMES, true) == frames
  {
  }

  /** The segment that starts at one probed position: every prefix of it has its turn. */
  method ProbeAt(pub: Publisher, targets: seq<FileEntry>, biggest: nat, data: seq<byte>, pos: nat, dec: Decoder,
                 prefix: string, ghost s: Search)
    returns (proven: nat)
    requires s == Search(data, dec, targets, prefix, pub.accept)
    requires biggest == Biggest(targets) && forall f :: f in targets ==> f.length <= SEGMENT_LIMIT
    requires IsProbe(data, pos)
    modifies pub
    ensures pub.Book() == ProbeOffered(s, pos, old(pub.Book()))
    ensures AcceptedCount(pub.history) == AcceptedCount(old(pub.history)) + proven
  {
    hide IsProbe, FrameFromBytes, SegmentFrom, Scanning, Biggest, AcceptedCount, PrefixesOffered;
    var frames: seq<Frame> := [];
    var idx: nat, size: nat := pos, 0;
    proven := 0;
    ScanStart(data, pos);
    ghost var l := pub.Book();
    NoPrefix(s, pos, l);
    for n := 0 to MAX_FRAMES
      invariant Scanning(data, pos, frames, idx, n, size)
      invariant n == |frames| && frames <= Segment(s, pos)
      invariant pub.Book() == PrefixesOffered(s, pos, n, l)
      invariant AcceptedCount(pub.history) == AcceptedCount(l.history) + proven
    {
      var part := FrameFromBytes(data, idx);
      if part.None? || (part.value.0.reset && frames != []) {
        ScanEnd(data, pos, frames, idx, n, size);
        return;
      }
      ScanStep(data, pos, frames, idx, n, size);
      frames := frames + [part.value.0];
      size := size + part.value.0.decodedSize;
      idx := part.value.1;
      var found, more := TryPrefix(pub, targets, biggest, frames, size, pos, dec, prefix, s, l);
      proven := proven + found;
      if !more {
        return;
      }
    }
  }

  lemma NoPrefix(s: Search, pos: nat, l: Ledger)
    ensures PrefixesOffered(s, pos, 0, l) == l
  {
  }

  /** The bytes of the packed range that are left, at most WINDOW of them. */
  method ReadWindow(stream: DecryptedStream) returns (r: Result<seq<byte>, Reason>)
    requires stream.Valid()
    modifies stream
    ensures stream.Valid()
    ensures r.Err? ==> !stream.Whole() && r.error == PackedDataTruncated
    ensures r.Ok? ==>
      var left := stream.packedSize - old(stream.consumed);
      var end := old(stream.consumed) + if left < WINDOW then left else WINDOW;
      end <= |stream.packed| && r.value == stream.packed[old(stream.consumed)..end]
  {
    var window: seq<byte> := [];
    var remaining := stream.remaining + |stream.buffer|;
    while |window| < WINDOW && remaining > 0
      invariant stream.Valid() && remaining == stream.packedSize - stream.consumed
      invariant |window| <= WINDOW && stream.consumed <= |stream.packed|
      invariant old(stream.consumed) <= stream.consumed
          && window == stream.packed[old(stream.consumed)..stream.consumed]
      decreases remaining
    {
      var n := if READ_CHUNK < WINDOW - |window| then READ_CHUNK else WINDOW - |window|;
      ghost var at := stream.consumed;
      var part :- stream.Read(if n < remaining then n else remaining);
      SliceJoin(stream.packed, old(stream.consumed), at, stream.consumed);
      window := window + part;
      remaining := remaining - |part|;
    }
    return Ok(window);
  }

  /** Nothing wanted, nothing offered. */
  lemma {:induction false} NothingWanted(s: Search, n: nat, l: Ledger)
    requires n <= |s.data| && s.targets == []
    ensures Scanned(s, n, l) == l
  {
    hide PrefixesOffered, Segment, Probed;
    if n > 0 {
      NothingWanted(s, n - 1, l);
      NothingOffered(s, n - 1, |Segment(s, n - 1)|, l);
    }
  }

  lemma {:induction false} NothingOffered(s: Search, pos: nat, k: nat, l: Ledger)
    requires k <= |Segment(s, pos)| && s.targets == []
    ensures PrefixesOffered(s, pos, k, l) == l
  {
    hide SegmentFrom, DecodedSegment;
    if k > 0 {
      NothingOffered(s, pos, k - 1, l);
    }
  }

  /** The search itself leaves exactly what the reference leaves: the shortcuts change nothing. */
  method Resync(pub: Publisher, data: seq<byte>, files: seq<FileEntry>, dec: Decoder, prefix: string)
    returns (proven: nat)
    modifies pub
    ensures pub.Book() == ResyncLedger(data, files, dec, prefix, pub.accept, old(pub.Book()))
    ensures AcceptedCount(pub.history) == AcceptedCount(old(pub.history)) + proven
  {
    hide FrameFromBytes, IsProbe, ProbeOffered, AcceptedCount, Biggest, Segment;
    var targets := ResyncTargets(files, pub.attempted);
    ghost var s, l := SearchFor(data, files, dec, prefix, pub.accept, pub.attempted), pub.Book();
    ResyncTargetsMeaning(files, pub.attempted);
    proven := 0;
    if targets == [] {
      NothingWanted(s, |data|, l);
      return;
    }
    var biggest := Biggest(targets);
    var probed := 0;
    var pos := 0;
    while pos < |data|
      invariant pos <= |data| && probed == ProbeCount(data, pos) <= MAX_PROBES
      invariant pub.Book() == Scanned(s, pos, l)
      invariant AcceptedCount(pub.history) == AcceptedCount(l.history) + proven
    {
      if IsProbe(data, pos) {
        probed := probed + 1;
        if probed > MAX_PROBES {
          ProbesPile(data, pos);
          NoneLeft(s, pos, |data|, l);
          return;
        }
        var found := ProbeAt(pub, targets, biggest, data, pos, dec, prefix, s);
        proven := proven + found;
      }
      pos := pos + 1;
    }
  }

  /** Positions that are not probed add nothing. */
  lemma {:induction false} NoneLeft(s: Search, pos: nat, n: nat, l: Ledger)
    requires pos <= n <= |s.data| && forall p :: pos <= p < |s.data| ==> !Probed(s.data, p)
    ensures Scanned(s, n, l) == Scanned(s, pos, l)
    decreases n
  {
    if pos < n {
      NoneLeft(s, pos, n - 1, l);
    }
  }

  /** Positions after the last one probed have at least MAX_PROBES probes before them. */
  lemma ProbesPile(data: seq<byte>, pos: nat)
    requires pos <= |data|
    ensures forall p :: pos <= p < |data| ==> ProbeCount(data, p) >= ProbeCount(data, pos)
  {
    forall p | pos <= p < |data|
      ensures ProbeCount(data, p) >= ProbeCount(data, pos)
    {
      ProbeCountGrows(data, pos, p);
    }
  }

  lemma {:induction false} ProbeCountGrows(data: seq<byte>, a: nat, b: nat)
    requires a <= b <= |data|
    ensures ProbeCount(data, a) <= ProbeCount(data, b)
  {
    if a < b {
      ProbeCountGrows(data, a, b - 1);
    }
  }
}
