/** The incremental extractor of one packed folder: a cursor over the files, at most one candidate
    file being spooled, and resets and decode failures that interrupt it. */
module StreamingRecovery {
  import opened Bits
  import opened Wrappers
  import opened Crc32
  import opened Lzma2Framing
  import opened ArchiveFiles
  import opened BatchReference

  /** The publish callback with everything it was called with, and the names taken so far. */
  class Publisher {
    const accept: Accept
    var history: seq<Event>
    var attempted: set<FileName>

    constructor (accept: Accept)
      ensures this.accept == accept && Book() == Ledger([], {})
    {
      this.accept := accept;
      history := [];
      attempted := {};
    }

    function Book(): Ledger
      reads this
    {
      Ledger(history, attempted)
    }

    method Publish(call: Call) returns (ok: bool)
      modifies this
      ensures ok == accept(old(history), call)
      ensures history == old(history) + [Event(call, ok)]
      ensures attempted == old(attempted)
    {
      ok := accept(history, call);
      history := history + [Event(call, ok)];
    }

    /** The streaming path marks a name only once its call was accepted. */
    method PublishThenTake(call: Call) returns (ok: bool)
      modifies this
      ensures Book() == Offer(accept, old(Book()), call)
      ensures ok == accept(old(history), call)
    {
      ok := Publish(call);
      if ok {
        attempted := attempted + {call.name};
      }
    }
  }

  /** The candidate holds exactly the bytes delivered from the start of its file up to here; without
      a candidate, every file still ahead starts later or has already lost a byte. */
  ghost predicate CandidateOk(img: seq<Cell>, targets: seq<Target>, cursor: nat, candidate: Option<seq<byte>>,
                              written: nat, crc: nat, attempted: set<FileName>)
  {
    match candidate
    case None =>
      && written == 0 && crc == 0
      && forall i :: cursor <= i < |targets| && targets[i].start < |img| ==> HasLost(img, targets[i])
    case Some(c) =>
      && cursor < |targets|
      && var t := targets[cursor];
      && t.start + |c| == |img|
      && |c| < t.size
      && written == |c| && crc == Crc(c)
      && t.name !in attempted
      && (forall o :: t.start <= o < |img| ==> img[o].Got?)
      && c == BytesOf(img[t.start..])
  }

  /** Lost bytes end the candidate, and mark every file they touch. */
  lemma LoseFrame(img: seq<Cell>, n: nat, targets: seq<Target>, cursor: nat, candidate: Option<seq<byte>>,
                  written: nat, crc: nat, attempted: set<FileName>)
    requires n >= 1 && Ascending(targets) && cursor <= |targets|
    requires CandidateOk(img, targets, cursor, candidate, written, crc, attempted)
    ensures CandidateOk(img + LostCells(n), targets, cursor, None, 0, 0, attempted)
  {
    var all := img + LostCells(n);
    forall i | cursor <= i < |targets| && targets[i].start < |all|
      ensures HasLost(all, targets[i])
    {
      var t := targets[i];
      if t.start >= |img| {
        assert all[t.start] == Lost;
      } else if candidate.Some? {
        assert i == cursor;
        assert all[|img|] == Lost;
      } else {
        var o :| t.start <= o < t.End() && o < |img| && img[o].Lost?;
        assert all[o] == Lost;
      }
    }
  }

  /** Delivered bytes that stop before the next file leave nothing to remember. */
  lemma PassGap(img: seq<Cell>, more: seq<Cell>, targets: seq<Target>, cursor: nat, attempted: set<FileName>)
    requires Ascending(targets) && cursor < |targets|
    requires |img| + |more| <= targets[cursor].start
    ensures CandidateOk(img + more, targets, cursor, None, 0, 0, attempted)
  {
    assert forall i :: cursor < i < |targets| ==> targets[cursor].End() <= targets[i].start;
  }

  lemma BytesAppend(a: seq<Cell>, b: seq<Cell>)
    ensures BytesOf(a + b) == BytesOf(a) + BytesOf(b)
  {
  }

  /** Spooling the next delivered bytes keeps the candidate equal to the file's delivered prefix. */
  lemma SpoolBlock(img: seq<Cell>, block: seq<byte>, origin: nat, t: Target, c: seq<byte>)
    requires t.start + |c| == |img|
    requires forall o :: t.start <= o < |img| ==> img[o].Got?
    requires c == BytesOf(img[t.start..])
    ensures var img' := img + GotCells(block, origin);
      && t.start + |c + block| == |img'|
      && (forall o :: t.start <= o < |img'| ==> img'[o].Got?)
      && c + block == BytesOf(img'[t.start..])
      && Crc(c + block) == Update(block, Crc(c))
  {
    var img' := img + GotCells(block, origin);
    var cells := GotCells(block, origin);
    assert img'[t.start..] == img[t.start..] + cells;
    BytesAppend(img[t.start..], cells);
    assert BytesOf(cells) == block;
    UpdateAppend(c, block, 0);
  }

  /** The ledger is what the batch reference gives for the files before the cursor, and none of
      those verdicts can change. */
  ghost predicate LedgerOk(img: seq<Cell>, targets: seq<Target>, cursor: nat, accept: Accept, prefix: string,
                           before: Ledger, l: Ledger, recovered: nat)
  {
    && cursor <= |targets|
    && l == Batch(img, targets[..cursor], accept, prefix, before)
    && Settled(img, targets[..cursor], accept, prefix, before)
    && before.history <= l.history
    && recovered == AcceptedCount(l.history[|before.history|..])
  }

  lemma LedgerExtends(img: seq<Cell>, more: seq<Cell>, targets: seq<Target>, cursor: nat, accept: Accept,
                      prefix: string, before: Ledger, l: Ledger, recovered: nat)
    requires LedgerOk(img, targets, cursor, accept, prefix, before, l, recovered)
    ensures LedgerOk(img + more, targets, cursor, accept, prefix, before, l, recovered)
  {
    BatchStable(img, more, targets[..cursor], accept, prefix, before);
  }

  /** Moving past a file whose verdict is in. */
  lemma LedgerAdvances(img: seq<Cell>, targets: seq<Target>, cursor: nat, accept: Accept, prefix: string,
                       before: Ledger, l: Ledger, recovered: nat)
    requires LedgerOk(img, targets, cursor, accept, prefix, before, l, recovered)
    requires cursor < |targets| && (targets[cursor].name in l.attempted || Decided(img, targets[cursor]))
    ensures
      var l' := Settle(img, targets[cursor], accept, prefix, l);
      && l.history <= l'.history
      && LedgerOk(img, targets, cursor + 1, accept, prefix, before, l',
                  recovered + if |l'.history| > |l.history| && l'.history[|l.history|].accepted then 1 else 0)
  {
    var t, l' := targets[cursor], Settle(img, targets[cursor], accept, prefix, l);
    assert targets[..cursor + 1] == targets[..cursor] + [t];
    SettledSnoc(img, targets[..cursor], t, accept, prefix, before);
    if l' != l {
      var e := l'.history[|l.history|];
      assert l'.history[|before.history|..] == l.history[|before.history|..] + [e];
      AcceptedSnoc(l.history[|before.history|..], e);
    }
  }

  /** The candidate holds the whole file: every byte arrived, the last one just now. */
  ghost predicate Spooled(img: seq<Cell>, block: seq<byte>, origin: nat, t: Target, c: seq<byte>,
                          attempted: set<FileName>) {
    && block != [] && t.size > 0 && t.start <= |img| && t.End() == |img| + |block|
    && (forall o :: t.start <= o < t.End() ==> (img + GotCells(block, origin))[o].Got?)
    && c == BytesOf((img + GotCells(block, origin))[t.start..])
    && t.name !in attempted
  }

  /** What the streaming code does with a fully spooled file. */
  function FinishLedger(t: Target, c: seq<byte>, origin: nat, accept: Accept, prefix: string, l: Ledger): Ledger {
    if Crc(c) == t.crc then Offer(accept, l, Call(t.name, c, t.size, Streamed(prefix, origin))) else l
  }

  lemma FinishSettles(img: seq<Cell>, block: seq<byte>, origin: nat, t: Target, c: seq<byte>, accept: Accept,
                      prefix: string, l: Ledger)
    requires Spooled(img, block, origin, t, c, l.attempted)
    ensures Settle(img + GotCells(block, origin), t, accept, prefix, l) == FinishLedger(t, c, origin, accept, prefix, l)
  {
    var img' := img + GotCells(block, origin);
    assert img'[t.start..] == img'[t.start..t.End()];
    assert img'[t.End() - 1] == Got(block[|block| - 1], origin);
  }

  lemma FinishFile(img: seq<Cell>, block: seq<byte>, origin: nat, targets: seq<Target>, cursor: nat, c: seq<byte>,
                   accept: Accept, prefix: string, before: Ledger, l: Ledger, recovered: nat)
    requires Ascending(targets) && cursor < |targets|
    requires Spooled(img, block, origin, targets[cursor], c, l.attempted)
    requires LedgerOk(img + GotCells(block, origin), targets, cursor, accept, prefix, before, l, recovered)
    ensures
      var img' := img + GotCells(block, origin);
      var l' := FinishLedger(targets[cursor], c, origin, accept, prefix, l);
      && var more := if l'.attempted == l.attempted then 0 else 1;
      LedgerOk(img', targets, cursor + 1, accept, prefix, before, l', recovered + more)
      && CandidateOk(img', targets, cursor + 1, None, 0, 0, l'.attempted)
  {
    var img' := img + GotCells(block, origin);
    var t := targets[cursor];
    FinishSettles(img, block, origin, t, c, accept, prefix, l);
    LedgerAdvances(img', targets, cursor, accept, prefix, before, l, recovered);
    var l' := FinishLedger(t, c, origin, accept, prefix, l);
    if l' != l && l'.history[|l.history|].accepted {
      assert t.name in l'.attempted;
    }
  }

  /** Without a candidate, a file that began before this point is not published. */
  lemma MissedFile(img: seq<Cell>, targets: seq<Target>, cursor: nat, attempted: set<FileName>)
    requires CandidateOk(img, targets, cursor, None, 0, 0, attempted)
    requires cursor < |targets| && targets[cursor].start < |img|
    ensures Decided(img, targets[cursor]) && !Publishable(img, targets[cursor])
    ensures CandidateOk(img, targets, cursor + 1, None, 0, 0, attempted)
  {
    var t := targets[cursor];
    var o :| t.start <= o < t.End() && o < |img| && img[o].Lost?;
  }

  function ResetCount(frames: seq<Frame>): nat {
    if frames == [] then 0
    else ResetCount(frames[..|frames| - 1]) + (if frames[|frames| - 1].reset then 1 else 0)
  }

  /** Frames that were tried and did not decode. */
  ghost function RejectCount(dec: Decoder, frames: seq<Frame>): nat {
    if frames == [] then 0
    else
      var prior := frames[..|frames| - 1];
      var tried := frames[|frames| - 1].reset || (prior != [] && Delivered(dec, prior));
      RejectCount(dec, prior) + (if tried && !Delivered(dec, frames) then 1 else 0)
  }

  /** The decoder state is the one the frames seen so far lead to. */
  ghost predicate TracksOk(dec: Decoder, frames: seq<Frame>, decoding: bool, fed: seq<Frame>, origin: nat,
                           resetPoints: nat, rejected: nat)
  {
    && (decoding <==> frames != [] && Delivered(dec, frames))
    && (decoding ==> fed == frames[SegmentStart(frames)..] && origin == frames[SegmentStart(frames)].inputOffset)
    && resetPoints == ResetCount(frames)
    && rejected == RejectCount(dec, frames)
  }

  /** Between the reset handling and the decoding of the last frame of `frames`. */
  ghost predicate Primed(dec: Decoder, frames: seq<Frame>, decoding: bool, fed: seq<Frame>, origin: nat,
                         resetPoints: nat, rejected: nat)
    requires frames != []
  {
    && resetPoints == ResetCount(frames)
    && (decoding ==>
          && SegmentStart(frames) >= 0
          && fed + [frames[|frames| - 1]] == frames[SegmentStart(frames)..]
          && origin == frames[SegmentStart(frames)].inputOffset
          && (Delivered(dec, frames) <==> GoodPiece(dec, fed + [frames[|frames| - 1]])))
    && (!decoding ==> !Delivered(dec, frames))
    && RejectCount(dec, frames) == rejected + if decoding && !Delivered(dec, frames) then 1 else 0
  }

  lemma PrimeReset(dec: Decoder, frames: seq<Frame>, f: Frame, decoding: bool, fed: seq<Frame>, origin: nat,
                   resetPoints: nat, rejected: nat)
    requires TracksOk(dec, frames, decoding, fed, origin, resetPoints, rejected) && f.reset
    ensures Primed(dec, frames + [f], true, [], f.inputOffset, resetPoints + 1, rejected)
  {
    assert (frames + [f])[..|frames|] == frames;
    SegmentStep(frames, f);
    DeliveredReset(dec, frames, f);
    assert (frames + [f])[|frames|..] == [f] == [] + [f];
  }

  lemma PrimeContinue(dec: Decoder, frames: seq<Frame>, f: Frame, decoding: bool, fed: seq<Frame>, origin: nat,
                      resetPoints: nat, rejected: nat)
    requires TracksOk(dec, frames, decoding, fed, origin, resetPoints, rejected) && !f.reset
    ensures Primed(dec, frames + [f], decoding, fed, origin, resetPoints, rejected)
  {
    assert (frames + [f])[..|frames|] == frames;
    SegmentStep(frames, f);
    DeliveredContinue(dec, frames, f);
    if decoding {
      assert (frames + [f])[SegmentStart(frames)..] == frames[SegmentStart(frames)..] + [f];
    }
  }

  lemma GotAppend(img: seq<Cell>, piece: seq<byte>, pos: nat, next: nat, origin: nat)
    requires pos <= next <= |piece|
    ensures img + GotCells(piece[..pos], origin) + GotCells(piece[pos..next], origin)
        == img + GotCells(piece[..next], origin)
  {
  }

  lemma AcceptedSnoc(history: seq<Event>, e: Event)
    ensures AcceptedCount(history + [e]) == AcceptedCount(history) + (if e.accepted then 1 else 0)
  {
    assert (history + [e])[..|history|] == history;
  }

  /** The frames handled before the declared size would be exceeded. */
  function Within(frames: seq<Frame>, limit: nat): seq<Frame> {
    if frames == [] || frames[0].outputOffset + frames[0].decodedSize > limit then []
    else [frames[0]] + Within(frames[1..], limit)
  }

  ghost predicate Fits(frames: seq<Frame>, limit: nat) {
    forall k :: 0 <= k < |frames| ==> frames[k].outputOffset + frames[k].decodedSize <= limit
  }

  lemma {:induction false} WithinStops(seen: seq<Frame>, rest: seq<Frame>, limit: nat)
    requires Fits(seen, limit)
    requires rest == [] || rest[0].outputOffset + rest[0].decodedSize > limit
    ensures Within(seen + rest, limit) == seen
  {
    if seen != [] {
      assert (seen + rest)[1..] == seen[1..] + rest;
      WithinStops(seen[1..], rest, limit);
    }
  }

  lemma OutputSizeSnoc(frames: seq<Frame>, f: Frame)
    ensures OutputSize(frames + [f]) == OutputSize(frames) + f.decodedSize
  {
    assert (frames + [f])[..|frames|] == frames;
  }

  lemma WalkStep(data: seq<byte>, pos: nat, out: nat)
    requires pos <= |data| && FrameFromBytes(data, pos).Some?
    ensures var (f, next) := FrameFromBytes(data, pos).value;
      && pos < next <= |data| && f.decodedSize >= 1 && f.outputOffset == 0
      && Walk(data, pos, out) == [f.(outputOffset := out)] + Walk(data, next, out + f.decodedSize)
  {
    FrameShape(data, pos);
  }

  /** The framing holds from `pos` on, where `out` bytes have been declared: every frame stays within the
      declared size, the sizes add up to it, and parsing stops at a zero byte or at the end. */
  predicate Intact(d: seq<byte>, pos: nat, out: nat, limit: nat)
    requires pos <= |d|
    decreases |d| - pos
  {
    match FrameFromBytes(d, pos)
    case None => out == limit && (pos == |d| || d[pos] == 0)
    case Some((f, next)) =>
      FrameShape(d, pos);
      out + f.decodedSize <= limit && Intact(d, next, out + f.decodedSize, limit)
  }

  /** How far the stream is read: after the first frame that exceeds the declared size, or to where the
      parser stops. */
  function ReadUpTo(d: seq<byte>, pos: nat, out: nat, limit: nat): (at: nat)
    requires pos <= |d|
    ensures pos <= at <= |d|
    decreases |d| - pos
  {
    match FrameFromBytes(d, pos)
    case None => StopAt(d, pos)
    case Some((f, next)) =>
      FrameShape(d, pos);
      if out + f.decodedSize > limit then next else ReadUpTo(d, next, out + f.decodedSize, limit)
  }

  /** The framing holds exactly when the frames of the stream add up to the declared size and parsing
      stops at a zero byte or at the end. */
  lemma {:induction false} IntactExactly(d: seq<byte>, pos: nat, out: nat, limit: nat)
    requires pos <= |d|
    ensures Intact(d, pos, out, limit) <==>
      out + OutputSize(Walk(d, pos, out)) == limit && (WalkEnd(d, pos) == |d| || d[WalkEnd(d, pos)] == 0)
    decreases |d| - pos
  {
    hide FrameFromBytes;
    if FrameFromBytes(d, pos).Some? {
      var (f, next) := FrameFromBytes(d, pos).value;
      FrameShape(d, pos);
      IntactExactly(d, next, out + f.decodedSize, limit);
      OutputSizeCons(f.(outputOffset := out), Walk(d, next, out + f.decodedSize));
    }
  }

  class BlockRecovery {
    const targets: seq<Target>
    const prefix: string
    const decoder: Decoder
    const pub: Publisher
    /** The ledger when work on this folder began. */
    ghost const before: Ledger

    var cursor: nat
    var candidate: Option<seq<byte>>
    var candidateWritten: nat
    var candidateCrc: nat
    var recovered: nat
    var resetPoints: nat
    var rejected: nat
    var decoding: bool
    var resetOrigin: nat
    /** The frames fed to the current decompressor. */
    var fed: seq<Frame>

    constructor (targets: seq<Target>, prefix: string, decoder: Decoder, pub: Publisher)
      requires Ascending(targets)
      ensures this.targets == targets && this.prefix == prefix && this.decoder == decoder && this.pub == pub
      ensures before == pub.Book()
      ensures Books([]) && Tracks([]) && recovered == resetPoints == rejected == 0
      ensures fresh(this)
    {
      this.targets := targets;
      this.prefix := prefix;
      this.decoder := decoder;
      this.pub := pub;
      before := pub.Book();
      cursor := 0;
      candidate := None;
      candidateWritten, candidateCrc := 0, 0;
      recovered, resetPoints, rejected := 0, 0, 0;
      decoding := false;
      resetOrigin := 0;
      fed := [];
    }

    ghost predicate Ledgered(img: seq<Cell>)
      reads this, pub
    {
      LedgerOk(img, targets, cursor, pub.accept, prefix, before, pub.Book(), recovered)
    }

    ghost predicate Books(img: seq<Cell>)
      reads this, pub
    {
      && Ascending(targets)
      && cursor <= |targets|
      && Ledgered(img)
      && CandidateOk(img, targets, cursor, candidate, candidateWritten, candidateCrc, pub.attempted)
    }

    ghost predicate Tracks(frames: seq<Frame>)
      reads this
    {
      && TracksOk(decoder, frames, decoding, fed, resetOrigin, resetPoints, rejected)
      && (candidate.Some? ==> decoding)
    }

    method Discard()
      modifies `candidate, `candidateWritten, `candidateCrc
      ensures candidate == None && candidateWritten == candidateCrc == 0
    {
      candidate := None;
      candidateWritten, candidateCrc := 0, 0;
    }

    /** Giving up on the file at the cursor: its name is taken, or it has lost a byte. */
    method SkipTarget(ghost img: seq<Cell>)
      requires Books(img) && cursor < |targets| && candidate == None
      requires targets[cursor].name in pub.attempted || targets[cursor].start < |img|
      modifies `cursor
      ensures Books(img) && cursor == old(cursor) + 1
    {
      hide LedgerOk;
      if targets[cursor].start < |img| {
        MissedFile(img, targets, cursor, pub.attempted);
      }
      LedgerAdvances(img, targets, cursor, pub.accept, prefix, before, pub.Book(), recovered);
      cursor := cursor + 1;
    }

    /** The whole file is spooled: publish it if its CRC matches, and move on either way. */
    method FinishCandidate(block: seq<byte>, ghost img: seq<Cell>)
      requires Ascending(targets) && Ledgered(img + GotCells(block, resetOrigin)) && cursor < |targets|
      requires candidate.Some? && candidateCrc == Crc(candidate.value)
      requires Spooled(img, block, resetOrigin, targets[cursor], candidate.value, pub.attempted)
      requires targets[cursor].name !in pub.attempted
      modifies `cursor, `candidate, `candidateWritten, `candidateCrc, `recovered, pub
      ensures Books(img + GotCells(block, resetOrigin)) && cursor == old(cursor) + 1
    {
      hide LedgerOk, CandidateOk, Spooled, Crc, Settle;
      FinishFile(img, block, resetOrigin, targets, cursor, candidate.value, pub.accept, prefix, before, pub.Book(),
                    recovered);
      var t := targets[cursor];
      if candidateCrc == t.crc {
        var ok := pub.PublishThenTake(Call(t.name, candidate.value, t.size, Streamed(prefix, resetOrigin)));
        if ok {
          recovered := recovered + 1;
        }
      }
      Discard();
      cursor := cursor + 1;
    }

    /** `block` continues the candidate; the file is published when it is whole and its CRC matches. */
    method Spool(block: seq<byte>, ghost img: seq<Cell>)
      requires Books(img) && block != [] && cursor < |targets|
      requires candidate.Some? && |img| + |block| <= targets[cursor].End()
      modifies `cursor, `candidate, `candidateWritten, `candidateCrc, `recovered, pub
      ensures Books(img + GotCells(block, resetOrigin))
      ensures cursor == old(cursor) || cursor == old(cursor) + 1
    {
      hide LedgerOk, Update, Crc, BytesOf, Ascending;
      SpoolBlock(img, block, resetOrigin, targets[cursor], candidate.value);
      LedgerExtends(img, GotCells(block, resetOrigin), targets, cursor, pub.accept, prefix, before, pub.Book(),
                    recovered);
      candidate := Some(candidate.value + block);
      candidateWritten := candidateWritten + |block|;
      candidateCrc := Update(block, candidateCrc);
      if candidateWritten == targets[cursor].size {
        FinishCandidate(block, img);
      }
    }

    /** Delivered bytes that end before the file at the cursor begins. */
    lemma Pass(img: seq<Cell>, more: seq<Cell>)
      requires Books(img) && candidate == None && cursor < |targets| && |img| + |more| <= targets[cursor].start
      ensures Books(img + more)
    {
      hide LedgerOk;
      LedgerExtends(img, more, targets, cursor, pub.accept, prefix, before, pub.Book(), recovered);
      PassGap(img, more, targets, cursor, pub.attempted);
    }

    method OpenCandidate(ghost img: seq<Cell>)
      requires Books(img) && candidate == None && cursor < |targets|
      requires targets[cursor].start == |img| && targets[cursor].name !in pub.attempted
      modifies `candidate
      ensures candidate.Some? && Books(img)
    {
      hide LedgerOk, Update;
      candidate := Some([]);
      UpdateEmpty(0);
    }

    /** As many bytes of the piece as the file at the cursor still needs. */
    method TakeBlock(piece: seq<byte>, at: nat, pos: nat, ghost img: seq<Cell>) returns (next: nat)
      requires Books(img) && |img| == at + pos && pos < |piece| && cursor < |targets|
      requires targets[cursor].name !in pub.attempted
      requires candidate.None? ==> targets[cursor].start == |img|
      modifies `cursor, `candidate, `candidateWritten, `candidateCrc, `recovered, pub
      ensures pos < next <= |piece| && old(cursor) <= cursor
      ensures Books(img + GotCells(piece[pos..next], resetOrigin))
    {
      hide LedgerOk, CandidateOk;
      if candidate.None? {
        LiveEndsHere(img);
        OpenCandidate(img);
      }
      LiveEndsHere(img);
      var needed := targets[cursor].End() - (at + pos);
      var take := if |piece| - pos < needed then |piece| - pos else needed;
      Spool(piece[pos..pos + take], img);
      next := pos + take;
    }

    /** One turn of the loop over a decoded piece: `pos` bytes of it are dealt with already. */
    method ConsumeStep(piece: seq<byte>, at: nat, pos: nat, ghost img: seq<Cell>) returns (next: nat)
      requires Books(img) && |img| == at + pos && pos < |piece| && cursor < |targets|
      modifies `cursor, `candidate, `candidateWritten, `candidateCrc, `recovered, pub
      ensures pos <= next <= |piece|
      ensures Books(img + GotCells(piece[pos..next], resetOrigin))
      ensures old(cursor) <= cursor && (next > pos || cursor > old(cursor))
    {
      hide LedgerOk, CandidateOk;
      LiveEndsHere(img);
      var t := targets[cursor];
      var absolute := at + pos;
      if t.End() <= absolute || t.name in pub.attempted {
        Discard();
        SkipTarget(img);
        next := pos;
        assert img + GotCells(piece[pos..next], resetOrigin) == img;
      } else if absolute < t.start {
        next := pos + if |piece| - pos < t.start - absolute then |piece| - pos else t.start - absolute;
        Pass(img, GotCells(piece[pos..next], resetOrigin));
      } else if candidate.None? && absolute != t.start {
        SkipTarget(img);
        next := pos;
        assert img + GotCells(piece[pos..next], resetOrigin) == img;
      } else {
        next := TakeBlock(piece, at, pos, img);
      }
    }

    /** One decoded piece, delivered at output offset `at`. */
    method Consume(piece: seq<byte>, at: nat, ghost img: seq<Cell>)
      requires Books(img) && |img| == at
      modifies `cursor, `candidate, `candidateWritten, `candidateCrc, `recovered, pub
      ensures Books(img + GotCells(piece, resetOrigin))
    {
      hide LedgerOk;
      var pos := 0;
      ghost var v := img;
      assert img + GotCells(piece[..0], resetOrigin) == img;
      while pos < |piece| && cursor < |targets|
        invariant pos <= |piece|
        invariant v == img + GotCells(piece[..pos], resetOrigin)
        invariant Books(v)
        decreases |piece| - pos + |targets| - cursor
      {
        var next := ConsumeStep(piece, at, pos, v);
        GotAppend(img, piece, pos, next, resetOrigin);
        v := img + GotCells(piece[..next], resetOrigin);
        pos := next;
      }
      GotAppend(img, piece, pos, |piece|, resetOrigin);
      assert piece[..|piece|] == piece;
      if pos < |piece| {
        LedgerExtends(v, GotCells(piece[pos..|piece|], resetOrigin), targets, cursor, pub.accept, prefix, before,
                      pub.Book(), recovered);
      }
    }

    /** A frame that contributes no bytes: the ledger stands, and the candidate must go. */
    lemma Lose(frame: Frame, frames: seq<Frame>)
      requires Books(Image(decoder, frames)) && frame.decodedSize >= 1
      requires !Delivered(decoder, frames + [frame])
      ensures Ledgered(Image(decoder, frames + [frame]))
      ensures CandidateOk(Image(decoder, frames + [frame]), targets, cursor, None, 0, 0, pub.attempted)
    {
      hide LedgerOk;
      ImageStep(decoder, frames, frame);
      var img := Image(decoder, frames);
      LedgerExtends(img, LostCells(frame.decodedSize), targets, cursor, pub.accept, prefix, before, pub.Book(),
                    recovered);
      LoseFrame(img, frame.decodedSize, targets, cursor, candidate, candidateWritten, candidateCrc, pub.attempted);
    }

    /** Where a live candidate stands. */
    lemma LiveEndsHere(img: seq<Cell>)
      requires Books(img)
      ensures candidate.Some? ==>
          cursor < |targets| && targets[cursor].start + candidateWritten == |img| < targets[cursor].End()
      ensures candidate.Some? ==> targets[cursor].name !in pub.attempted
      ensures candidate.None? ==> candidateWritten == candidateCrc == 0
    {
      hide LedgerOk;
    }

    /** A dictionary reset: a fresh decompressor, and a candidate kept only if it ends exactly here,
        which a live candidate always does. */
    method OnReset(frame: Frame, ghost img: seq<Cell>)
      requires Books(img) && (candidate.Some? ==> decoding) && |img| == frame.outputOffset
      modifies `cursor, `candidate, `candidateWritten, `candidateCrc, `resetPoints, `resetOrigin, `decoding, `fed
      ensures Books(img)
      ensures candidate == old(candidate)
      ensures decoding && fed == [] && resetOrigin == frame.inputOffset && resetPoints == old(resetPoints) + 1
    {
      hide LedgerOk, CandidateOk;
      LiveEndsHere(img);
      resetPoints := resetPoints + 1;
      resetOrigin := frame.inputOffset;
      var contiguous := candidate.Some? && decoding && cursor < |targets|
        && targets[cursor].start + candidateWritten == frame.outputOffset;
      if !contiguous {
        Discard();
      }
      decoding := true;
      fed := [];
      if !contiguous {
        SkipStarted(frame.outputOffset, img);
      }
    }

    /** Files that began before this offset were not seen from their first byte. */
    method SkipStarted(offset: nat, ghost img: seq<Cell>)
      requires Books(img) && candidate == None && |img| == offset
      modifies `cursor
      ensures Books(img)
    {
      hide LedgerOk, CandidateOk;
      while cursor < |targets| && targets[cursor].start < offset
        invariant Books(img)
        decreases |targets| - cursor
      {
        SkipTarget(img);
      }
    }

    /** A frame of a segment that is already broken, or before the first reset. */
    lemma Skipped(frame: Frame, frames: seq<Frame>)
      requires Books(Image(decoder, frames)) && candidate == None && !decoding && frame.decodedSize >= 1
      requires Primed(decoder, frames + [frame], decoding, fed, resetOrigin, resetPoints, rejected)
      ensures Books(Image(decoder, frames + [frame])) && Tracks(frames + [frame])
    {
      hide LedgerOk;
      Lose(frame, frames);
    }

    /** The decompressor raises or returns the wrong length: the file in progress is given up. */
    method Reject(frame: Frame, ghost frames: seq<Frame>)
      requires Books(Image(decoder, frames)) && frame.decodedSize >= 1
      requires decoding && !GoodPiece(decoder, fed + [frame])
      requires Primed(decoder, frames + [frame], decoding, fed, resetOrigin, resetPoints, rejected)
      requires (frames + [frame])[|frames + [frame]| - 1] == frame
      modifies `rejected, `candidate, `candidateWritten, `candidateCrc, `decoding
      ensures Books(Image(decoder, frames + [frame])) && Tracks(frames + [frame])
    {
      hide LedgerOk, Image, Delivered, ResetCount;
      Lose(frame, frames);
      rejected := rejected + 1;
      Discard();
      decoding := false;
    }

    /** A piece that decoded to its declared size. */
    method Deliver(frame: Frame, ghost frames: seq<Frame>)
      requires Books(Image(decoder, frames)) && frame.outputOffset == OutputSize(frames)
      requires decoding && GoodPiece(decoder, fed + [frame])
      requires Primed(decoder, frames + [frame], decoding, fed, resetOrigin, resetPoints, rejected)
      requires (frames + [frame])[|frames + [frame]| - 1] == frame
      modifies `cursor, `candidate, `candidateWritten, `candidateCrc, `recovered, `fed, pub
      ensures Books(Image(decoder, frames + [frame])) && Tracks(frames + [frame])
    {
      hide LedgerOk, CandidateOk;
      fed := fed + [frame];
      ImageStep(decoder, frames, frame);
      Consume(decoder(fed).value, frame.outputOffset, Image(decoder, frames));
    }

    /** The frame is fed to the decompressor, if the segment is still intact. */
    method Decode(frame: Frame, ghost frames: seq<Frame>)
      requires Books(Image(decoder, frames)) && (candidate.Some? ==> decoding)
      requires Primed(decoder, frames + [frame], decoding, fed, resetOrigin, resetPoints, rejected)
      requires frame.outputOffset == OutputSize(frames) && frame.decodedSize >= 1
      modifies this, pub
      ensures Books(Image(decoder, frames + [frame])) && Tracks(frames + [frame])
    {
      hide LedgerOk, CandidateOk, Primed, TracksOk;
      if !decoding {
        Skipped(frame, frames);
        return;
      }
      var data := decoder(fed + [frame]);
      if data.None? || |data.value| != frame.decodedSize {
        Reject(frame, frames);
      } else {
        Deliver(frame, frames);
      }
    }

    /** Everything the loop does with one frame of the stream. */
    method OnFrame(frame: Frame, ghost frames: seq<Frame>)
      requires Books(Image(decoder, frames)) && Tracks(frames)
      requires frame.outputOffset == OutputSize(frames) && frame.decodedSize >= 1
      modifies this, pub
      ensures Books(Image(decoder, frames + [frame])) && Tracks(frames + [frame])
    {
      hide LedgerOk, CandidateOk, Primed, TracksOk;
      if frame.reset {
        PrimeReset(decoder, frames, frame, decoding, fed, resetOrigin, resetPoints, rejected);
        OnReset(frame, Image(decoder, frames));
      } else {
        PrimeContinue(decoder, frames, frame, decoding, fed, resetOrigin, resetPoints, rejected);
      }
      Decode(frame, frames);
    }

    /** At the end of the frames the ledger is the batch reference's verdict on every file. */
    lemma LedgerFinal(img: seq<Cell>)
      requires Books(img)
      ensures pub.Book() == Batch(img, targets, pub.accept, prefix, before)
    {
      forall i | cursor <= i < |targets|
        ensures !Complete(img, targets[i])
      {
        if candidate.Some? && i > cursor {
          assert targets[cursor].End() <= targets[i].start;
        } else if candidate.None? && targets[i].start < |img| {
          var o :| targets[i].start <= o < targets[i].End() && o < |img| && img[o].Lost?;
        }
      }
      BatchIgnores(img, targets, cursor, pub.accept, prefix, before);
    }

    /** The loop invariant: `seen` are the frames before offset `at` of the packed stream, all handled. */
    ghost predicate Seen(seen: seq<Frame>, packed: seq<byte>, at: nat, prior: nat, unpackedSize: nat)
      reads this, pub
    {
      && Books(Image(decoder, seen)) && Tracks(seen)
      && prior == OutputSize(seen) && prior <= unpackedSize
      && at <= |packed|
      && Walk(packed, 0, 0) == seen + Walk(packed, at, prior)
      && Fits(seen, unpackedSize)
    }

    /** What the invariant says when the loop is left. */
    lemma SeenMeans(seen: seq<Frame>, packed: seq<byte>, at: nat, prior: nat, unpackedSize: nat)
      requires Seen(seen, packed, at, prior, unpackedSize)
      ensures Books(Image(decoder, seen))
      ensures before.history <= pub.history && recovered == AcceptedCount(pub.history[|before.history|..])
      ensures resetPoints == ResetCount(seen) && rejected == RejectCount(decoder, seen)
      ensures seen <= Walk(packed, 0, 0) && OutputSize(seen) <= unpackedSize
    {
      hide Image, FrameFromBytes, CandidateOk, Delivered, ResetCount, RejectCount, Ascending, Fits, Batch;
    }

    /** The next frame of the stream, when it stays within the declared size. */
    method HandleFrame(frame: Frame, ghost packed: seq<byte>, ghost at: nat, ghost next: nat, prior: nat,
                       unpackedSize: nat, ghost seen: seq<Frame>)
      requires Seen(seen, packed, at, prior, unpackedSize)
      requires FrameFromBytes(packed, at) == Some((frame.(outputOffset := 0), next)) && frame.outputOffset == prior
      requires prior + frame.decodedSize <= unpackedSize
      modifies this, pub
      ensures Seen(seen + [frame], packed, next, prior + frame.decodedSize, unpackedSize)
    {
      hide Books, Tracks, FrameFromBytes, Image;
      WalkStep(packed, at, prior);
      OnFrame(frame, seen);
      OutputSizeSnoc(seen, frame);
      assert seen + ([frame] + Walk(packed, next, prior + frame.decodedSize))
          == (seen + [frame]) + Walk(packed, next, prior + frame.decodedSize);
    }

    method FrameLoop(stream: DecryptedStream, unpackedSize: nat)
      returns (lost: Option<Reason>, ghost seen: seq<Frame>, ghost at: nat)
      requires stream.Valid() && stream.consumed == 0
      requires Seen([], stream.packed, 0, 0, unpackedSize)
      modifies this, pub, stream
      ensures stream.Valid()
      ensures Seen(seen, stream.packed, at, OutputSize(seen), unpackedSize)
      ensures stream.Whole() ==> seen == Within(Walk(stream.packed, 0, 0), unpackedSize)
      ensures lost.None? ==> OutputSize(seen) == unpackedSize && seen == Walk(stream.packed, 0, 0)
      ensures stream.Whole() ==> (lost.None? <==> Intact(stream.packed, 0, 0, unpackedSize))
      ensures stream.Whole() ==> stream.consumed == ReadUpTo(stream.packed, 0, 0, unpackedSize)
    {
      hide Books, Tracks, FrameFromBytes, Image, StopAt, Within;
      seen := [];
      var prior: nat, output: nat := 0, 0;
      ghost var d := stream.packed;
      while true
        invariant stream.Valid() && Seen(seen, d, stream.consumed, prior, unpackedSize) && output == prior
        invariant Intact(d, 0, 0, unpackedSize) == Intact(d, stream.consumed, prior, unpackedSize)
        invariant ReadUpTo(d, 0, 0, unpackedSize) == ReadUpTo(d, stream.consumed, prior, unpackedSize)
        decreases stream.packedSize - stream.consumed
      {
        at := stream.consumed;
        var step := NextFrame(stream, output);
        if step.Yield? {
          var frame := step.frame;
          WalkStep(d, at, prior);
          if prior + frame.decodedSize > unpackedSize {
            WithinStops(seen, Walk(d, at, prior), unpackedSize);
            return Some(UnpackedSizeMismatch), seen, at;
          }
          HandleFrame(frame, d, at, stream.consumed, prior, unpackedSize, seen);
          prior := prior + frame.decodedSize;
          seen := seen + [frame];
          output := output + frame.decodedSize;
        } else {
          WithinStops(seen, [], unpackedSize);
          assert seen + [] == seen;
          if step.Broken? {
            return Some(step.reason), seen, at;
          } else if prior != unpackedSize {
            return Some(UnpackedSizeMismatch), seen, at;
          }
          return None, seen, at;
        }
      }
    }

    /** The loop over the frames of a folder. `seen` are the frames handled; the result is the reason
        framing was lost, if it was. */
    method RunFrames(stream: DecryptedStream, unpackedSize: nat) returns (lost: Option<Reason>, ghost seen: seq<Frame>)
      requires stream.Valid() && stream.consumed == 0
      requires Books([]) && Tracks([])
      modifies this, pub, stream
      ensures stream.Valid() && candidate == None
      ensures pub.Book() == Batch(Image(decoder, seen), targets, pub.accept, prefix, before)
      ensures before.history <= pub.history && recovered == AcceptedCount(pub.history[|before.history|..])
      ensures resetPoints == ResetCount(seen) && rejected == RejectCount(decoder, seen)
      ensures seen <= Walk(stream.packed, 0, 0) && OutputSize(seen) <= unpackedSize
      ensures stream.Whole() ==> seen == Within(Walk(stream.packed, 0, 0), unpackedSize)
      ensures lost.None? ==> OutputSize(seen) == unpackedSize && seen == Walk(stream.packed, 0, 0)
      ensures stream.Whole() ==> (lost.None? <==> Intact(stream.packed, 0, 0, unpackedSize))
      ensures stream.Whole() ==> stream.consumed == ReadUpTo(stream.packed, 0, 0, unpackedSize)
    {
      hide FrameFromBytes, Walk, Within, Intact, ReadUpTo, Batch, ResetCount, RejectCount;
      assert [] + Walk(stream.packed, 0, 0) == Walk(stream.packed, 0, 0);
      assert Seen([], stream.packed, 0, 0, unpackedSize);
      hide Seen, Books, Tracks, Image;
      ghost var at: nat;
      lost, seen, at := FrameLoop(stream, unpackedSize);
      SeenMeans(seen, stream.packed, at, OutputSize(seen), unpackedSize);
      LedgerFinal(Image(decoder, seen));
      Discard();
    }
  }
}
