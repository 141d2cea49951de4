/** The packed-stream reader and the two LZMA2 frame parsers: one over the reader, one over a byte string. */
module Lzma2Framing {
  import opened Bits
  import opened Wrappers

  const FRAME_OUTPUT_LIMIT: nat := 2 * 1024 * 1024
  const PACKED_LIMIT: nat := 65536
  const READ_CHUNK: nat := 256 * 1024

  datatype Reason =
    | InvalidChunkSize
    | PackedDataTruncated
    | PackedStreamExhausted
    | DamagedFraming
    | DamagedProperties
    | UnpackedSizeMismatch

  datatype Frame = Frame(raw: seq<byte>, decodedSize: nat, inputOffset: nat, outputOffset: nat, reset: bool)

  predicate ResetControl(control: byte) {
    control == 1 || control >= 0xE0
  }

  predicate ValidProps(prop: byte) {
    prop < 225 && prop % 9 + (prop / 9) % 5 <= 4
  }

  /** The uncompressed size an LZMA chunk header declares. */
  function ChunkSize(control: byte, hi: byte, lo: byte): nat {
    And(control, 31) * 0x1_0000 + BigEndian16(hi, lo) + 1
  }

  /** Random access: the frame that starts at `start`, and the offset after it. */
  function FrameFromBytes(buffer: seq<byte>, start: nat): (r: Option<(Frame, nat)>) {
    if start >= |buffer| then None
    else
      var control := buffer[start];
      if control == 1 || control == 2 then
        if start + 3 > |buffer| then None
        else
          var size := BigEndian16(buffer[start + 1], buffer[start + 2]) + 1;
          CheckedFrame(buffer, start, size, start + 3 + size)
      else if control >= 0x80 then
        if start + 6 > |buffer| then None
        else
          var size := ChunkSize(control, buffer[start + 1], buffer[start + 2]);
          var packed := BigEndian16(buffer[start + 3], buffer[start + 4]) + 1;
          var header := if control >= 0xC0 then 6 else 5;
          if size > FRAME_OUTPUT_LIMIT || packed > PACKED_LIMIT then None
          else if control >= 0xC0 && !ValidProps(buffer[start + 5]) then None
          else CheckedFrame(buffer, start, size, start + header + packed)
      else None
  }

  function CheckedFrame(buffer: seq<byte>, start: nat, size: nat, end: nat): Option<(Frame, nat)>
    requires start < |buffer| && start < end
  {
    if end > |buffer| then None
    else Some((Frame(buffer[start..end], size, start, 0, ResetControl(buffer[start])), end))
  }

  lemma ChunkSizeBounds(control: byte, hi: byte, lo: byte)
    ensures ChunkSize(control, hi, lo) == (control % 32) * 65536 + 256 * hi + lo + 1
    ensures 1 <= ChunkSize(control, hi, lo) <= FRAME_OUTPUT_LIMIT
  {
    assert Pow2(5) == 32;
    AndMask(control, 5);
  }

  /** The size limits both parsers test can never be exceeded by a frame header. */
  lemma GuardsNeverFire(control: byte, b1: byte, b2: byte, b3: byte, b4: byte)
    ensures ChunkSize(control, b1, b2) <= FRAME_OUTPUT_LIMIT
    ensures BigEndian16(b3, b4) + 1 <= PACKED_LIMIT
    ensures BigEndian16(b1, b2) + 1 <= PACKED_LIMIT
  {
    ChunkSizeBounds(control, b1, b2);
  }

  lemma FrameShape(buffer: seq<byte>, start: nat)
    requires FrameFromBytes(buffer, start).Some?
    ensures
      var (f, next) := FrameFromBytes(buffer, start).value;
      && start < next <= |buffer|
      && f.raw == buffer[start..next]
      && f.inputOffset == start && f.outputOffset == 0
      && 1 <= f.decodedSize <= FRAME_OUTPUT_LIMIT
      && f.reset == ResetControl(buffer[start])
  {
    if buffer[start] >= 0x80 {
      ChunkSizeBounds(buffer[start], buffer[start + 1], buffer[start + 2]);
    }
  }

  /** Iterating the random-access parser from `pos`, with running output offsets. */
  function Walk(data: seq<byte>, pos: nat, out: nat): seq<Frame>
    requires pos <= |data|
    decreases |data| - pos
  {
    match FrameFromBytes(data, pos)
    case None => []
    case Some((f, next)) =>
      FrameShape(data, pos);
      [f.(outputOffset := out)] + Walk(data, next, out + f.decodedSize)
  }

  function WalkEnd(data: seq<byte>, pos: nat): (end: nat)
    requires pos <= |data|
    ensures pos <= end <= |data|
    ensures FrameFromBytes(data, end).None?
    decreases |data| - pos
  {
    match FrameFromBytes(data, pos)
    case None => pos
    case Some((f, next)) => FrameShape(data, pos); WalkEnd(data, next)
  }

  function Raws(frames: seq<Frame>): seq<byte> {
    if frames == [] then [] else frames[0].raw + Raws(frames[1..])
  }

  function OutputSize(frames: seq<Frame>): nat {
    if frames == [] then 0 else OutputSize(frames[..|frames| - 1]) + frames[|frames| - 1].decodedSize
  }

  lemma {:induction false} OutputSizeCons(f: Frame, frames: seq<Frame>)
    ensures OutputSize([f] + frames) == f.decodedSize + OutputSize(frames)
    decreases |frames|
  {
    var all := [f] + frames;
    if frames == [] {
      assert all[..0] == [];
      assert OutputSize(all) == OutputSize(all[..0]) + f.decodedSize;
    } else {
      assert all[..|all| - 1] == [f] + frames[..|frames| - 1];
      OutputSizeCons(f, frames[..|frames| - 1]);
    }
  }

  /** Consecutive frames: no gap in the input, none in the output. */
  ghost predicate Tiled(frames: seq<Frame>, pos: nat, out: nat) {
    frames == [] || (
      && frames[0].inputOffset == pos
      && frames[0].outputOffset == out
      && frames[0].decodedSize >= 1
      && Tiled(frames[1..], pos + |frames[0].raw|, out + frames[0].decodedSize))
  }

  /** The frames tile the stream, and their raw bytes are the stream up to where parsing stops. */
  lemma {:induction false} WalkTiles(data: seq<byte>, pos: nat, out: nat)
    requires pos <= |data|
    ensures Tiled(Walk(data, pos, out), pos, out)
    ensures Raws(Walk(data, pos, out)) == data[pos..WalkEnd(data, pos)]
    decreases |data| - pos
  {
    match FrameFromBytes(data, pos)
    case None =>
    case Some((f, next)) =>
      FrameShape(data, pos);
      WalkTiles(data, next, out + f.decodedSize);
      var fs := Walk(data, pos, out);
      assert fs[1..] == Walk(data, next, out + f.decodedSize);
      assert data[pos..next] + data[next..WalkEnd(data, next)] == data[pos..WalkEnd(data, next)];
  }

  /** Every offset is the sum of what came before it. */
  lemma {:induction false} TiledAt(frames: seq<Frame>, pos: nat, out: nat, k: nat)
    requires Tiled(frames, pos, out) && k < |frames|
    ensures frames[k].outputOffset == out + OutputSize(frames[..k])
    ensures frames[k].inputOffset == pos + |Raws(frames[..k])|
    ensures frames[k].decodedSize >= 1
  {
    if k > 0 {
      var f := frames[0];
      TiledAt(frames[1..], pos + |f.raw|, out + f.decodedSize, k - 1);
      assert frames[..k] == [f] + frames[1..][..k - 1];
      assert frames[..k][1..] == frames[1..][..k - 1];
      OutputSizeCons(f, frames[1..][..k - 1]);
    }
  }

  /** How asking for the next frame can end. */
  datatype Step = Yield(frame: Frame) | Done | Broken(reason: Reason)

  /** How far the packed range has been fetched once bytes up to `goal` are wanted: whole chunks, until
      there is enough or nothing is left. */
  function Fetched(at: nat, goal: int, size: nat): (end: nat)
    requires at <= size
    ensures at <= end <= size && (end >= goal || end == size)
    decreases size - at
  {
    if at >= goal || at == size then at
    else Fetched(if size - at < READ_CHUNK then size else at + READ_CHUNK, goal, size)
  }

  /** Bounded reads of the packed range of one folder. `packed` holds the bytes the file has in that
      range, after decryption where the folder is encrypted; it is shorter than `packedSize` only
      when the file is. */
  class DecryptedStream {
    const packed: seq<byte>
    const packedSize: nat
    var remaining: nat
    var buffer: seq<byte>
    var consumed: nat

    ghost predicate Valid()
      reads this
    {
      && |packed| <= packedSize
      && consumed + |buffer| + remaining == packedSize
      && packedSize - remaining <= |packed|
      && buffer == packed[consumed..packedSize - remaining]
    }

    ghost predicate Whole() {
      |packed| == packedSize
    }

    constructor (packed: seq<byte>, packedSize: nat)
      requires |packed| <= packedSize
      ensures Valid() && consumed == 0
      ensures this.packed == packed && this.packedSize == packedSize
    {
      this.packed := packed;
      this.packedSize := packedSize;
      remaining := packedSize;
      buffer := [];
      consumed := 0;
    }

    /** What fetching enough for `n` more bytes comes to. */
    ghost function FetchEnd(n: int): nat
      reads this
      requires Valid()
    {
      Fetched(packedSize - remaining, consumed + n, packedSize)
    }

    /** Successive successful reads hand out consecutive slices of `packed`; a read fails as truncated
        exactly when a chunk it has to fetch is not all there, and as exhausted exactly when it goes
        beyond the declared size. */
    method Read(n: int) returns (r: Result<seq<byte>, Reason>)
      requires Valid()
      modifies this
      ensures Valid()
      ensures r.Ok? ==>
        && 0 <= n <= FRAME_OUTPUT_LIMIT
        && old(consumed) + n == consumed <= |packed|
        && r.value == packed[old(consumed)..consumed]
      ensures r.Err? ==> consumed == old(consumed)
      ensures r == Err(InvalidChunkSize) <==> !(0 <= n <= FRAME_OUTPUT_LIMIT)
      ensures r.Err? ==> r.error in {InvalidChunkSize, PackedDataTruncated, PackedStreamExhausted}
      ensures r == Err(PackedDataTruncated) <==> 0 <= n <= FRAME_OUTPUT_LIMIT && old(FetchEnd(n)) > |packed|
      ensures r == Err(PackedStreamExhausted) <==>
        0 <= n <= FRAME_OUTPUT_LIMIT && old(FetchEnd(n)) <= |packed| && old(consumed) + n > packedSize
      ensures Whole() && 0 <= n <= FRAME_OUTPUT_LIMIT ==> (r.Ok? <==> old(consumed) + n <= packedSize)
    {
      if n < 0 || n > FRAME_OUTPUT_LIMIT {
        return Err(InvalidChunkSize);
      }
      while |buffer| < n && remaining > 0
        invariant Valid() && consumed == old(consumed)
        invariant FetchEnd(n) == old(FetchEnd(n))
        decreases remaining
      {
        var count := if remaining < READ_CHUNK then remaining else READ_CHUNK;
        var at := packedSize - remaining;
        if at + count > |packed| {
          return Err(PackedDataTruncated);
        }
        buffer := buffer + packed[at..at + count];
        remaining := remaining - count;
      }
      if |buffer| < n {
        return Err(PackedStreamExhausted);
      }
      var out := buffer[..n];
      buffer := buffer[n..];
      consumed := consumed + n;
      return Ok(out);
    }
  }

  function ToBigEndian16(n: nat): (s: seq<byte>)
    requires n < 65536
    ensures |s| == 2
  {
    [n / 256, n % 256]
  }

  /** How far the streaming parser has read when it finds no frame at `start`: up to the part of the
      header that is missing or wrong, or up to the body that is missing. */
  function StopAt(d: seq<byte>, start: nat): (at: nat)
    requires start <= |d| && FrameFromBytes(d, start).None?
    ensures start <= at <= |d|
  {
    if start == |d| then start
    else if d[start] == 1 || d[start] == 2 then (if start + 3 > |d| then start + 1 else start + 3)
    else if d[start] >= 0x80 then
      if start + 5 > |d| then start + 1
      else if d[start] >= 0xC0 && start + 6 <= |d| then start + 6
      else start + 5
    else start + 1
  }

  /** What a chunk read from the stream must agree with: the random-access parser at `start`. */
  ghost predicate Agrees(d: seq<byte>, start: nat, r: Result<(seq<byte>, nat), Reason>, end: nat, whole: bool)
    requires start <= |d|
  {
    match r
    case Ok((raw, size)) =>
      start < |d| && FrameFromBytes(d, start) == Some((Frame(raw, size, start, 0, ResetControl(d[start])), end))
    case Err(e) =>
      && (whole ==> FrameFromBytes(d, start).None? && end == StopAt(d, start))
      && e != UnpackedSizeMismatch && e != InvalidChunkSize
  }

  lemma BigEndianRoundTrip(hi: byte, lo: byte)
    ensures ToBigEndian16(BigEndian16(hi, lo)) == [hi, lo]
  {
  }

  lemma SliceJoin(d: seq<byte>, a: nat, b: nat, c: nat)
    requires a <= b <= c <= |d|
    ensures d[a..b] + d[b..c] == d[a..c]
  {
  }

  /** What the random-access parser says at an uncompressed chunk. */
  lemma UncompressedAt(d: seq<byte>, start: nat)
    requires start < |d| && (d[start] == 1 || d[start] == 2)
    ensures start + 3 > |d| ==> FrameFromBytes(d, start) == None
    ensures start + 3 <= |d| ==>
      var size := BigEndian16(d[start + 1], d[start + 2]) + 1;
      FrameFromBytes(d, start) == if start + 3 + size > |d| then None
        else Some((Frame(d[start..start + 3 + size], size, start, 0, ResetControl(d[start])), start + 3 + size))
  {
  }

  method UncompressedChunk(stream: DecryptedStream, control: byte) returns (r: Result<(seq<byte>, nat), Reason>)
    requires stream.Valid() && stream.consumed >= 1
    requires control == stream.packed[stream.consumed - 1] && (control == 1 || control == 2)
    modifies stream
    ensures stream.Valid() && old(stream.consumed) <= stream.consumed
    ensures Agrees(stream.packed, old(stream.consumed) - 1, r, stream.consumed, stream.Whole())
  {
    hide FrameFromBytes, ToBigEndian16, BigEndian16, Fetched;
    ghost var d, start := stream.packed, stream.consumed - 1;
    UncompressedAt(d, start);
    var lens :- stream.Read(2);
    BigEndianRoundTrip(lens[0], lens[1]);
    assert lens == [d[start + 1], d[start + 2]];
    var size := BigEndian16(lens[0], lens[1]) + 1;
    var body :- stream.Read(size);
    var raw := [control] + ToBigEndian16(size - 1) + body;
    assert [control] + lens == d[start..start + 3];
    SliceJoin(d, start, start + 3, stream.consumed);
    return Ok((raw, size));
  }

  /** What the random-access parser says at an LZMA chunk. */
  lemma LzmaAt(d: seq<byte>, start: nat)
    requires start < |d| && d[start] >= 0x80
    ensures start + 6 > |d| ==> FrameFromBytes(d, start) == None
    ensures start + 6 <= |d| ==>
      var size := ChunkSize(d[start], d[start + 1], d[start + 2]);
      var header := if d[start] >= 0xC0 then 6 else 5;
      var end := start + header + BigEndian16(d[start + 3], d[start + 4]) + 1;
      FrameFromBytes(d, start) ==
        if end > |d| || (d[start] >= 0xC0 && !ValidProps(d[start + 5])) then None
        else Some((Frame(d[start..end], size, start, 0, ResetControl(d[start])), end))
  {
    if start + 6 <= |d| {
      GuardsNeverFire(d[start], d[start + 1], d[start + 2], d[start + 3], d[start + 4]);
    }
  }

  /** Where the streaming parser is when an LZMA chunk has no frame. */
  lemma LzmaStop(d: seq<byte>, start: nat)
    requires start < |d| && d[start] >= 0x80 && FrameFromBytes(d, start).None?
    ensures StopAt(d, start)
         == if start + 5 > |d| then start + 1 else if d[start] >= 0xC0 && start + 6 <= |d| then start + 6 else start + 5
  {
  }

  /** The size bytes and the optional property byte of an LZMA chunk. */
  method LzmaHeader(stream: DecryptedStream, control: byte) returns (r: Result<(seq<byte>, seq<byte>), Reason>)
    requires stream.Valid() && stream.consumed >= 1
    requires control == stream.packed[stream.consumed - 1] && control >= 0x80
    modifies stream
    ensures stream.Valid() && old(stream.consumed) <= stream.consumed
    ensures r.Ok? ==>
      var (sizes, props) := r.value;
      var start := old(stream.consumed) - 1;
      && |sizes| == 4 && |props| == (if control >= 0xC0 then 1 else 0)
      && stream.consumed == start + 5 + |props| <= |stream.packed|
      && sizes == stream.packed[start + 1..start + 5] && props == stream.packed[start + 5..start + 5 + |props|]
      && (props != [] ==> ValidProps(props[0]))
    ensures r.Err? ==> r.error != UnpackedSizeMismatch && r.error != InvalidChunkSize
    ensures r.Err? && stream.Whole() ==>
      var start := old(stream.consumed) - 1;
      FrameFromBytes(stream.packed, start).None? && stream.consumed == StopAt(stream.packed, start)
  {
    hide FrameFromBytes, ChunkSize, ValidProps, BigEndian16, Fetched, StopAt;
    ghost var d, start := stream.packed, stream.consumed - 1;
    LzmaAt(d, start);
    if FrameFromBytes(d, start).None? {
      LzmaStop(d, start);
    }
    var sizes :- stream.Read(4);
    var size := ChunkSize(control, sizes[0], sizes[1]);
    var compressed := BigEndian16(sizes[2], sizes[3]) + 1;
    GuardsNeverFire(control, sizes[0], sizes[1], sizes[2], sizes[3]);
    if size > FRAME_OUTPUT_LIMIT || compressed > PACKED_LIMIT {
      return Err(DamagedFraming);
    }
    var props: seq<byte> := [];
    if control >= 0xC0 {
      props :- stream.Read(1);
      assert props[0] == d[start + 5];
    }
    if props != [] && !ValidProps(props[0]) {
      return Err(DamagedProperties);
    }
    return Ok((sizes, props));
  }

  method LzmaChunk(stream: DecryptedStream, control: byte) returns (r: Result<(seq<byte>, nat), Reason>)
    requires stream.Valid() && stream.consumed >= 1
    requires control == stream.packed[stream.consumed - 1] && control >= 0x80
    modifies stream
    ensures stream.Valid() && old(stream.consumed) <= stream.consumed
    ensures Agrees(stream.packed, old(stream.consumed) - 1, r, stream.consumed, stream.Whole())
  {
    hide FrameFromBytes, ChunkSize, ValidProps, BigEndian16, Fetched, StopAt;
    ghost var d, start := stream.packed, stream.consumed - 1;
    LzmaAt(d, start);
    if FrameFromBytes(d, start).None? {
      LzmaStop(d, start);
    }
    var header :- LzmaHeader(stream, control);
    var (sizes, props) := header;
    assert forall i :: 0 <= i < 4 ==> sizes[i] == d[start + 1 + i];
    assert props != [] ==> props[0] == d[start + 5];
    var size := ChunkSize(control, sizes[0], sizes[1]);
    var compressed := BigEndian16(sizes[2], sizes[3]) + 1;
    GuardsNeverFire(control, sizes[0], sizes[1], sizes[2], sizes[3]);
    var body :- stream.Read(compressed);
    var raw := [control] + sizes + props + body;
    assert [control] + sizes + props == d[start..start + 5 + |props|];
    SliceJoin(d, start, stream.consumed - compressed, stream.consumed);
    return Ok((raw, size));
  }

  /** One step of the streaming frame parser: it yields exactly the frame the random-access parser
      finds at the same place, and stops or breaks exactly where that parser finds none. */
  method NextFrame(stream: DecryptedStream, output: nat) returns (step: Step)
    requires stream.Valid()
    modifies stream
    ensures stream.Valid()
    ensures step.Yield? ==>
      FrameFromBytes(stream.packed, old(stream.consumed)) == Some((step.frame.(outputOffset := 0), stream.consumed))
      && step.frame.outputOffset == output
    ensures step.Done? ==>
      && FrameFromBytes(stream.packed, old(stream.consumed)).None?
      && stream.consumed == StopAt(stream.packed, old(stream.consumed))
      && (|| old(stream.consumed) == stream.packedSize
          || (old(stream.consumed) < |stream.packed| && stream.packed[old(stream.consumed)] == 0))
    ensures step.Broken? && stream.Whole() ==>
      && FrameFromBytes(stream.packed, old(stream.consumed)).None?
      && stream.consumed == StopAt(stream.packed, old(stream.consumed))
      && old(stream.consumed) < stream.packedSize
      && stream.packed[old(stream.consumed)] != 0
    ensures step.Broken? ==> step.reason != UnpackedSizeMismatch && step.reason != InvalidChunkSize
    ensures old(stream.consumed) <= stream.consumed
  {
    if stream.remaining == 0 && stream.buffer == [] {
      return Done;
    }
    var start := stream.consumed;
    ghost var d := stream.packed;
    var head := stream.Read(1);
    if head.Err? {
      return Broken(head.error);
    }
    var control := head.value[0];
    assert control == d[start];
    var chunk: Result<(seq<byte>, nat), Reason>;
    if control == 0 {
      return Done;
    } else if control == 1 || control == 2 {
      chunk := UncompressedChunk(stream, control);
    } else if control >= 0x80 {
      chunk := LzmaChunk(stream, control);
    } else {
      return Broken(DamagedFraming);
    }
    if chunk.Err? {
      return Broken(chunk.error);
    }
    var (raw, size) := chunk.value;
    return Yield(Frame(raw, size, start, output, ResetControl(control)));
  }
}
