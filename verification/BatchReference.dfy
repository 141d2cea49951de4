/** What streaming recovery must compute, said without cursors or candidates: lay all decoded bytes
    out at their output offsets, then look at each file's range. */
module BatchReference {
  import opened Bits
  import opened Wrappers
  import opened Crc32
  import opened Lzma2Framing
  import opened ArchiveFiles

  /** The raw LZMA2 decoder: what the last of these frames decodes to when all of them are fed, in
      order, to a fresh decoder; None when it raises. */
  type Decoder = seq<Frame> -> Option<seq<byte>>

  /** One uncompressed byte of the folder: not decoded, or decoded by the segment that starts at the
      reset frame with input offset `origin`. */
  datatype Cell = Lost | Got(b: byte, origin: nat)

  /** Index of the last dictionary reset, or -1. */
  function SegmentStart(frames: seq<Frame>): (r: int)
    ensures -1 <= r < |frames|
    ensures r >= 0 ==> frames[r].reset
    ensures forall j :: r < j < |frames| ==> !frames[j].reset
  {
    if frames == [] then -1
    else if frames[|frames| - 1].reset then |frames| - 1
    else SegmentStart(frames[..|frames| - 1])
  }

  predicate GoodPiece(dec: Decoder, segment: seq<Frame>)
    requires segment != []
  {
    dec(segment).Some? && |dec(segment).value| == segment[|segment| - 1].decodedSize
  }

  /** The last frame follows a reset, and every frame from that reset on decodes to its declared size. */
  ghost predicate Delivered(dec: Decoder, frames: seq<Frame>)
    requires frames != []
  {
    var r := SegmentStart(frames);
    r >= 0 && forall j :: r <= j < |frames| ==> GoodAt(dec, frames, r, j)
  }

  ghost predicate GoodAt(dec: Decoder, frames: seq<Frame>, r: nat, j: nat)
    requires r <= j < |frames|
  {
    GoodPiece(dec, frames[r..j + 1])
  }

  function GotCells(piece: seq<byte>, origin: nat): (cells: seq<Cell>)
    ensures |cells| == |piece|
    ensures forall i :: 0 <= i < |piece| ==> cells[i] == Got(piece[i], origin)
  {
    seq(|piece|, i requires 0 <= i < |piece| => Got(piece[i], origin))
  }

  function LostCells(n: nat): (cells: seq<Cell>)
    ensures |cells| == n
    ensures forall i :: 0 <= i < n ==> cells[i] == Lost
  {
    seq(n, i => Lost)
  }

  ghost function LastCells(dec: Decoder, frames: seq<Frame>): (cells: seq<Cell>)
    requires frames != []
    ensures |cells| == frames[|frames| - 1].decodedSize
  {
    if Delivered(dec, frames) then
      var r := SegmentStart(frames);
      assert GoodAt(dec, frames, r, |frames| - 1) && frames[r..|frames| - 1 + 1] == frames[r..];
      GotCells(dec(frames[r..]).value, frames[r].inputOffset)
    else
      LostCells(frames[|frames| - 1].decodedSize)
  }

  /** The folder's uncompressed bytes as far as these frames reach. */
  ghost function Image(dec: Decoder, frames: seq<Frame>): (cells: seq<Cell>)
    ensures |cells| == OutputSize(frames)
  {
    if frames == [] then [] else Image(dec, frames[..|frames| - 1]) + LastCells(dec, frames)
  }

  function BytesOf(cells: seq<Cell>): (bytes: seq<byte>)
    ensures |bytes| == |cells|
    ensures forall i :: 0 <= i < |cells| && cells[i].Got? ==> bytes[i] == cells[i].b
  {
    seq(|cells|, i requires 0 <= i < |cells| => match cells[i] case Got(b, _) => b case Lost => 0)
  }

  /** Every byte of the file's range was delivered. */
  ghost predicate Complete(img: seq<Cell>, t: Target) {
    t.End() <= |img| && forall o :: t.start <= o < t.End() ==> img[o].Got?
  }

  ghost predicate Publishable(img: seq<Cell>, t: Target) {
    t.size > 0 && Complete(img, t) && Crc(BytesOf(img[t.start..t.End()])) == t.crc
  }

  /** The publish call a file gets: its own slice, and the reset its last byte was decoded from. */
  ghost function CallFor(img: seq<Cell>, t: Target, prefix: string): Call
    requires Publishable(img, t)
  {
    Call(t.name, BytesOf(img[t.start..t.End()]), t.size, Streamed(prefix, img[t.End() - 1].origin))
  }

  /** Calling publish; an accepted name is never offered again. */
  function Offer(accept: Accept, l: Ledger, call: Call): Ledger {
    var ok := accept(l.history, call);
    Ledger(l.history + [Event(call, ok)], if ok then l.attempted + {call.name} else l.attempted)
  }

  ghost function Settle(img: seq<Cell>, t: Target, accept: Accept, prefix: string, l: Ledger): Ledger {
    if t.name !in l.attempted && Publishable(img, t) then Offer(accept, l, CallFor(img, t, prefix)) else l
  }

  /** The batch reference: settle the files in offset order against the finished image. */
  ghost function Batch(img: seq<Cell>, targets: seq<Target>, accept: Accept, prefix: string, l: Ledger): Ledger {
    if targets == [] then l
    else Settle(img, targets[|targets| - 1], accept, prefix, Batch(img, targets[..|targets| - 1], accept, prefix, l))
  }

  lemma SegmentStep(frames: seq<Frame>, f: Frame)
    ensures SegmentStart(frames + [f]) == if f.reset then |frames| else SegmentStart(frames)
  {
    assert (frames + [f])[..|frames|] == frames;
  }

  /** One more frame, at a reset: delivery depends on that frame alone. */
  lemma DeliveredReset(dec: Decoder, frames: seq<Frame>, f: Frame)
    requires f.reset
    ensures Delivered(dec, frames + [f]) <==> GoodPiece(dec, [f])
  {
    SegmentStep(frames, f);
    var all, n := frames + [f], |frames|;
    assert all[n..n + 1] == [f];
    assert GoodAt(dec, all, n, n) == GoodPiece(dec, [f]);
  }

  /** One more frame inside a segment: the segment must be intact so far. */
  lemma DeliveredContinue(dec: Decoder, frames: seq<Frame>, f: Frame)
    requires !f.reset
    ensures frames == [] ==> !Delivered(dec, frames + [f])
    ensures frames != [] && !Delivered(dec, frames) ==> !Delivered(dec, frames + [f])
    ensures frames != [] && Delivered(dec, frames) ==>
      (Delivered(dec, frames + [f]) <==> GoodPiece(dec, frames[SegmentStart(frames)..] + [f]))
  {
    hide GoodPiece, SegmentStart;
    SegmentStep(frames, f);
    var all, r := frames + [f], SegmentStart(frames);
    if r >= 0 {
      forall j | r <= j < |frames|
        ensures GoodAt(dec, all, r, j) == GoodAt(dec, frames, r, j)
      {
        assert all[r..j + 1] == frames[r..j + 1];
      }
      assert all[r..|frames| + 1] == frames[r..] + [f];
      assert GoodAt(dec, all, r, |frames|) == GoodPiece(dec, frames[r..] + [f]);
    }
  }

  lemma ImageStep(dec: Decoder, frames: seq<Frame>, f: Frame)
    ensures Image(dec, frames + [f]) == Image(dec, frames) + LastCells(dec, frames + [f])
  {
    assert (frames + [f])[..|frames + [f]| - 1] == frames;
  }

  /** Some byte of the range is known to be lost. */
  ghost predicate HasLost(img: seq<Cell>, t: Target) {
    exists o :: t.start <= o < t.End() && o < |img| && img[o].Lost?
  }

  /** The image already decides this file: nothing appended later can change the verdict. */
  ghost predicate Decided(img: seq<Cell>, t: Target) {
    t.End() <= |img| || HasLost(img, t)
  }

  lemma DecidedStays(img: seq<Cell>, more: seq<Cell>, t: Target)
    requires Decided(img, t)
    ensures Decided(img + more, t)
    ensures Publishable(img + more, t) <==> Publishable(img, t)
    ensures Publishable(img, t) ==> forall p :: CallFor(img + more, t, p) == CallFor(img, t, p)
  {
    var all := img + more;
    if t.End() <= |img| {
      assert all[t.start..t.End()] == img[t.start..t.End()];
      if Complete(all, t) {
        forall o | t.start <= o < t.End()
          ensures img[o].Got?
        {
          assert all[o] == img[o];
        }
      }
      if Complete(img, t) {
        forall o | t.start <= o < t.End()
          ensures all[o].Got?
        {
          assert all[o] == img[o];
        }
      }
    } else {
      var o :| t.start <= o < t.End() && o < |img| && img[o].Lost?;
      assert all[o].Lost?;
    }
  }

  /** Every file of `targets` has its verdict, from the image or because its name is taken. */
  ghost predicate Settled(img: seq<Cell>, targets: seq<Target>, accept: Accept, prefix: string, l: Ledger) {
    targets == [] || (
      var n := |targets| - 1;
      && Settled(img, targets[..n], accept, prefix, l)
      && (Decided(img, targets[n]) || targets[n].name in Batch(img, targets[..n], accept, prefix, l).attempted))
  }

  lemma {:induction false} BatchStable(img: seq<Cell>, more: seq<Cell>, targets: seq<Target>, accept: Accept,
                                       prefix: string, l: Ledger)
    requires Settled(img, targets, accept, prefix, l)
    ensures Batch(img + more, targets, accept, prefix, l) == Batch(img, targets, accept, prefix, l)
    ensures Settled(img + more, targets, accept, prefix, l)
  {
    if targets != [] {
      var n := |targets| - 1;
      BatchStable(img, more, targets[..n], accept, prefix, l);
      if Decided(img, targets[n]) {
        DecidedStays(img, more, targets[n]);
      }
    }
  }

  lemma SettledSnoc(img: seq<Cell>, targets: seq<Target>, t: Target, accept: Accept, prefix: string, l: Ledger)
    requires Settled(img, targets, accept, prefix, l)
    requires Decided(img, t) || t.name in Batch(img, targets, accept, prefix, l).attempted
    ensures Settled(img, targets + [t], accept, prefix, l)
    ensures Batch(img, targets + [t], accept, prefix, l)
      == Settle(img, t, accept, prefix, Batch(img, targets, accept, prefix, l))
  {
    assert (targets + [t])[..|targets|] == targets;
  }

  /** Files that can no longer be complete add nothing. */
  lemma {:induction false} BatchIgnores(img: seq<Cell>, targets: seq<Target>, n: nat, accept: Accept, prefix: string,
                                        l: Ledger)
    requires n <= |targets|
    requires forall i :: n <= i < |targets| ==> !Complete(img, targets[i])
    ensures Batch(img, targets, accept, prefix, l) == Batch(img, targets[..n], accept, prefix, l)
  {
    if n == |targets| {
      assert targets[..n] == targets;
    } else {
      var m := |targets| - 1;
      assert targets[..m][..n] == targets[..n];
      BatchIgnores(img, targets[..m], n, accept, prefix, l);
    }
  }

  /** File `i` gets its turn: its name is still free when the files before it are settled, and its
      whole range was delivered with the recorded CRC. */
  ghost predicate Due(img: seq<Cell>, targets: seq<Target>, i: nat, accept: Accept, prefix: string, l: Ledger)
    requires i < |targets|
  {
    targets[i].name !in Batch(img, targets[..i], accept, prefix, l).attempted && Publishable(img, targets[i])
  }

  /** The calls of the files that are due, in order. */
  ghost function DueCalls(img: seq<Cell>, targets: seq<Target>, accept: Accept, prefix: string, l: Ledger): seq<Call> {
    if targets == [] then []
    else
      var n := |targets| - 1;
      DueCalls(img, targets[..n], accept, prefix, l)
        + (if Due(img, targets, n, accept, prefix, l) then [CallFor(img, targets[n], prefix)] else [])
  }

  function CallsOf(history: seq<Event>): (calls: seq<Call>)
    ensures |calls| == |history|
    ensures forall i :: 0 <= i < |history| ==> calls[i] == history[i].call
  {
    seq(|history|, i requires 0 <= i < |history| => history[i].call)
  }

  /** The batch reference calls publish for exactly the files that are due, once each and in offset
      order, and marks a name exactly when its call was accepted. */
  lemma {:induction false} BatchMeaning(img: seq<Cell>, targets: seq<Target>, accept: Accept, prefix: string, l: Ledger)
    ensures var l' := Batch(img, targets, accept, prefix, l);
      && l.history <= l'.history
      && CallsOf(l'.history) == CallsOf(l.history) + DueCalls(img, targets, accept, prefix, l)
      && l'.attempted == l.attempted + AcceptedNames(l'.history[|l.history|..])
  {
    hide Publishable, CallFor;
    var l' := Batch(img, targets, accept, prefix, l);
    if targets == [] {
      assert l'.history[|l.history|..] == [];
    } else {
      var n := |targets| - 1;
      var l1 := Batch(img, targets[..n], accept, prefix, l);
      BatchMeaning(img, targets[..n], accept, prefix, l);
      if Due(img, targets, n, accept, prefix, l) {
        var e := l'.history[|l1.history|];
        assert l'.history == l1.history + [e];
        assert l'.history[|l.history|..] == l1.history[|l.history|..] + [e];
        AcceptedNamesSnoc(l1.history[|l.history|..], e);
      }
    }
  }

  function AcceptedNames(history: seq<Event>): set<FileName> {
    set i | 0 <= i < |history| && history[i].accepted :: history[i].call.name
  }

  lemma AcceptedNamesSnoc(history: seq<Event>, e: Event)
    ensures AcceptedNames(history + [e]) == AcceptedNames(history) + (if e.accepted then {e.call.name} else {})
  {
    var all := history + [e];
    forall name | name in AcceptedNames(history) + (if e.accepted then {e.call.name} else {})
      ensures name in AcceptedNames(all)
    {
      if name in AcceptedNames(history) {
        var i :| 0 <= i < |history| && history[i].accepted && history[i].call.name == name;
        assert all[i] == history[i];
      } else {
        assert all[|history|] == e;
      }
    }
  }
}
