/** A writer of LZMA2 chunks after the format description, and what the frame parsers read back: they
    accept exactly the chunks the format has. */
module Lzma2Writer {
  import opened Bits
  import opened Wrappers
  import opened Lzma2Framing

  /** lc, lp and pb of an LZMA stream. */
  datatype Properties = Properties(literalContext: nat, literalPosition: nat, position: nat)

  /** What an LZMA chunk resets before it is decoded. */
  datatype Reset = Nothing | State | StateAndProperties(p: Properties) | Everything(p: Properties)

  datatype Chunk =
    | Stored(data: seq<byte>, dictionaryReset: bool)
    | Packed(reset: Reset, size: nat, data: seq<byte>)

  ghost predicate ValidProperties(p: Properties) {
    p.literalContext + p.literalPosition <= 4 && p.position <= 4
  }

  ghost predicate ValidChunk(c: Chunk) {
    && 1 <= |c.data| <= 0x1_0000
    && (c.Packed? ==> 1 <= c.size <= 0x20_0000)
    && (c.Packed? && (c.reset.StateAndProperties? || c.reset.Everything?) ==> ValidProperties(c.reset.p))
  }

  /** The size of what the chunk decodes to. */
  function SizeOf(c: Chunk): nat {
    match c
    case Stored(data, _) => |data|
    case Packed(_, size, _) => size
  }

  /** A new segment starts at the chunk: nothing before it is needed to decode it. */
  predicate StartsSegment(c: Chunk) {
    match c
    case Stored(_, dictionaryReset) => dictionaryReset
    case Packed(reset, _, _) => reset.Everything?
  }

  function TwoBytes(n: nat): seq<byte>
    requires n < 0x1_0000
  {
    [n / 256, n % 256]
  }

  function PropertyByte(p: Properties): (b: byte)
    requires ValidProperties(p)
  {
    assert (p.position * 5 + p.literalPosition) * 9 + p.literalContext <= 220;
    (p.position * 5 + p.literalPosition) * 9 + p.literalContext
  }

  function Header(reset: Reset, high: nat): seq<byte>
    requires high < 32
  {
    match reset
    case Nothing => [0x80 + high]
    case State => [0xA0 + high]
    case StateAndProperties(_) => [0xC0 + high]
    case Everything(_) => [0xE0 + high]
  }

  function PropertyBytes(reset: Reset): (s: seq<byte>)
    requires (reset.StateAndProperties? || reset.Everything?) ==> ValidProperties(reset.p)
    ensures |s| == if reset.StateAndProperties? || reset.Everything? then 1 else 0
  {
    match reset
    case StateAndProperties(p) => [PropertyByte(p)]
    case Everything(p) => [PropertyByte(p)]
    case _ => []
  }

  function ChunkBytes(c: Chunk): (s: seq<byte>)
    requires ValidChunk(c)
    ensures |s| >= 4
  {
    match c
    case Stored(data, dictionaryReset) => [if dictionaryReset then 1 else 2] + TwoBytes(|data| - 1) + data
    case Packed(reset, size, data) =>
      Header(reset, (size - 1) / 0x1_0000) + TwoBytes((size - 1) % 0x1_0000) + TwoBytes(|data| - 1)
        + PropertyBytes(reset) + data
  }

  ghost function FrameOf(c: Chunk, pos: nat, out: nat): Frame
    requires ValidChunk(c)
  {
    Frame(ChunkBytes(c), SizeOf(c), pos, out, StartsSegment(c))
  }

  /** A chunk is read back wherever it stands, with its size and the reset it was written with. */
  lemma ChunkBack(d: seq<byte>, pos: nat, c: Chunk)
    requires ValidChunk(c) && Has(d, pos, ChunkBytes(c))
    ensures FrameFromBytes(d, pos) == Some((FrameOf(c, pos, 0), pos + |ChunkBytes(c)|))
  {
    hide FrameFromBytes, ChunkBytes, Has;
    match c
    case Stored(data, dictionaryReset) => StoredBack(d, pos, data, dictionaryReset);
    case Packed(reset, size, data) => PackedBack(d, pos, reset, size, data);
  }

  lemma StoredBack(d: seq<byte>, pos: nat, data: seq<byte>, dictionaryReset: bool)
    requires ValidChunk(Stored(data, dictionaryReset)) && Has(d, pos, ChunkBytes(Stored(data, dictionaryReset)))
    ensures var c := Stored(data, dictionaryReset);
            FrameFromBytes(d, pos) == Some((FrameOf(c, pos, 0), pos + |ChunkBytes(c)|))
  {
    var c := Stored(data, dictionaryReset);
    var front: seq<byte> := [if dictionaryReset then 1 else 2] + TwoBytes(|data| - 1);
    assert ChunkBytes(c) == front + data;
    HasHead(d, pos, front, data);
    assert front[0] == (if dictionaryReset then 1 else 2);
    assert front[1] == (|data| - 1) / 256 && front[2] == (|data| - 1) % 256;
  }

  /** The five bytes before the properties. */
  function Front(reset: Reset, size: nat, length: nat): (s: seq<byte>)
    requires 1 <= size <= 0x20_0000 && 1 <= length <= 0x1_0000
    ensures |s| == 5
  {
    Header(reset, (size - 1) / 0x1_0000) + TwoBytes((size - 1) % 0x1_0000) + TwoBytes(length - 1)
  }

  lemma PackedLayout(reset: Reset, size: nat, data: seq<byte>)
    requires ValidChunk(Packed(reset, size, data))
    ensures ChunkBytes(Packed(reset, size, data)) == Front(reset, size, |data|) + (PropertyBytes(reset) + data)
  {
    hide PropertyBytes, Header, TwoBytes;
  }

  lemma FrontMeans(reset: Reset, size: nat, length: nat)
    requires 1 <= size <= 0x20_0000 && 1 <= length <= 0x1_0000
    ensures var s := Front(reset, size, length);
            && ChunkSize(s[0], s[1], s[2]) == size && BigEndian16(s[3], s[4]) == length - 1
            && s[0] >= 0x80 && (s[0] >= 0xC0 <==> reset.StateAndProperties? || reset.Everything?)
            && (s[0] >= 0xE0 <==> reset.Everything?)
  {
    hide ChunkSize;
    var s := Front(reset, size, length);
    ChunkSizeBounds(s[0], s[1], s[2]);
  }

  lemma HasHead(d: seq<byte>, pos: nat, head: seq<byte>, rest: seq<byte>)
    requires Has(d, pos, head + rest)
    ensures Has(d, pos, head) && Has(d, pos + |head|, rest)
    ensures forall i :: 0 <= i < |head| ==> d[pos + i] == head[i]
  {
    HasSplit(d, pos, head, rest);
    forall i | 0 <= i < |head| ensures d[pos + i] == head[i] {
      assert d[pos..pos + |head|][i] == d[pos + i];
    }
  }

  lemma PackedBack(d: seq<byte>, pos: nat, reset: Reset, size: nat, data: seq<byte>)
    requires ValidChunk(Packed(reset, size, data)) && Has(d, pos, ChunkBytes(Packed(reset, size, data)))
    ensures var c := Packed(reset, size, data);
            FrameFromBytes(d, pos) == Some((FrameOf(c, pos, 0), pos + |ChunkBytes(c)|))
  {
    hide ChunkSize, ChunkBytes, Front, Has, PropertyByte, ValidProps;
    PackedLayout(reset, size, data);
    var s := Front(reset, size, |data|);
    HasHead(d, pos, s, PropertyBytes(reset) + data);
    HasHead(d, pos + 5, PropertyBytes(reset), data);
    FrontMeans(reset, size, |data|);
    HasEnd(d, pos, ChunkBytes(Packed(reset, size, data)));
    if reset.StateAndProperties? || reset.Everything? {
      PropertyBack(reset.p);
    }
  }

  lemma HasEnd(d: seq<byte>, pos: nat, s: seq<byte>)
    requires Has(d, pos, s)
    ensures pos + |s| <= |d| && d[pos..pos + |s|] == s
  {
  }

  lemma PropertyBack(p: Properties)
    requires ValidProperties(p)
    ensures ValidProps(PropertyByte(p))
    ensures PropertyByte(p) % 9 == p.literalContext && PropertyByte(p) / 9 == p.position * 5 + p.literalPosition
  {
  }

  // ----- nothing else is accepted

  function PropertiesOf(b: byte): Properties {
    Properties(b % 9, b / 9 % 5, b / 45)
  }

  lemma PropertiesBack(b: byte)
    requires ValidProps(b)
    ensures ValidProperties(PropertiesOf(b)) && PropertyByte(PropertiesOf(b)) == b
  {
  }

  function ResetOf(control: byte, property: byte): Reset {
    if control < 0xA0 then Nothing
    else if control < 0xC0 then State
    else if control < 0xE0 then StateAndProperties(PropertiesOf(property))
    else Everything(PropertiesOf(property))
  }

  /** The chunk that a frame found at `pos` is. */
  ghost function ChunkAt(d: seq<byte>, pos: nat): Chunk
    requires FrameFromBytes(d, pos).Some?
  {
    var (f, next) := FrameFromBytes(d, pos).value;
    if d[pos] < 0x80 then Stored(d[pos + 3..next], d[pos] == 1)
    else Packed(ResetOf(d[pos], d[pos + 5]), f.decodedSize, d[pos + (if d[pos] >= 0xC0 then 6 else 5)..next])
  }

  lemma FrameIsChunk(d: seq<byte>, pos: nat)
    requires FrameFromBytes(d, pos).Some?
    ensures var c := ChunkAt(d, pos);
            ValidChunk(c) && FrameFromBytes(d, pos).value.1 == pos + |ChunkBytes(c)| && Has(d, pos, ChunkBytes(c))
  {
    hide ChunkBytes, Has;
    if d[pos] < 0x80 {
      StoredFound(d, pos);
    } else {
      PackedFound(d, pos);
    }
  }

  lemma StoredFound(d: seq<byte>, pos: nat)
    requires FrameFromBytes(d, pos).Some? && d[pos] < 0x80
    ensures var c := ChunkAt(d, pos);
            ValidChunk(c) && FrameFromBytes(d, pos).value.1 == pos + |ChunkBytes(c)| && Has(d, pos, ChunkBytes(c))
  {
    var c, next := ChunkAt(d, pos), FrameFromBytes(d, pos).value.1;
    assert ChunkBytes(c) == d[pos..next];
  }

  lemma PackedFound(d: seq<byte>, pos: nat)
    requires FrameFromBytes(d, pos).Some? && 0x80 <= d[pos]
    ensures var c := ChunkAt(d, pos);
            ValidChunk(c) && FrameFromBytes(d, pos).value.1 == pos + |ChunkBytes(c)| && Has(d, pos, ChunkBytes(c))
  {
    hide ChunkSize, FrameFromBytes, ChunkAt, ChunkBytes, Front, PropertyByte, ValidProps, PropertiesOf, Has;
    PackedShape(d, pos);
    var c, next := ChunkAt(d, pos), FrameFromBytes(d, pos).value.1;
    ChunkSizeBounds(d[pos], d[pos + 1], d[pos + 2]);
    FrontBack(d[pos], d[pos + 5], d[pos + 1], d[pos + 2], d[pos + 3], d[pos + 4]);
    HasFive(d, pos);
    HasSlice(d, next - |c.data|, next);
    HasProperty(d, pos);
    PackedLayout(c.reset, c.size, c.data);
    HasSplit(d, pos + 5, PropertyBytes(c.reset), c.data);
    HasSplit(d, pos, Front(c.reset, c.size, |c.data|), PropertyBytes(c.reset) + c.data);
  }

  lemma HasSlice(d: seq<byte>, from: nat, to: nat)
    requires from <= to <= |d|
    ensures Has(d, from, d[from..to])
  {
  }

  lemma HasFive(d: seq<byte>, pos: nat)
    requires pos + 5 <= |d|
    ensures Has(d, pos, [d[pos], d[pos + 1], d[pos + 2], d[pos + 3], d[pos + 4]])
  {
    assert d[pos..pos + 5] == [d[pos], d[pos + 1], d[pos + 2], d[pos + 3], d[pos + 4]];
  }

  lemma HasProperty(d: seq<byte>, pos: nat)
    requires pos + 5 < |d| && 0x80 <= d[pos] && (d[pos] >= 0xC0 ==> ValidProps(d[pos + 5]))
    ensures var reset := ResetOf(d[pos], d[pos + 5]);
            && (reset.StateAndProperties? || reset.Everything? <==> d[pos] >= 0xC0)
            && (d[pos] >= 0xC0 ==> ValidProperties(reset.p))
            && Has(d, pos + 5, PropertyBytes(reset))
  {
    hide PropertyByte, ValidProps, PropertiesOf;
    if d[pos] >= 0xC0 {
      PropertiesBack(d[pos + 5]);
    }
  }

  lemma FrontBack(control: byte, property: byte, b1: byte, b2: byte, b3: byte, b4: byte)
    requires control >= 0x80
    ensures 1 <= ChunkSize(control, b1, b2) <= 0x20_0000
    ensures Front(ResetOf(control, property), ChunkSize(control, b1, b2), BigEndian16(b3, b4) + 1)
            == [control, b1, b2, b3, b4]
  {
    hide ChunkSize, PropertiesOf;
    ChunkSizeBounds(control, b1, b2);
    SizeBytes(control % 32, b1, b2);
    TwoBytesBack(b3, b4);
  }

  lemma PackedShape(d: seq<byte>, pos: nat)
    requires FrameFromBytes(d, pos).Some? && 0x80 <= d[pos]
    ensures var header := if d[pos] >= 0xC0 then 6 else 5;
            var next := FrameFromBytes(d, pos).value.1;
            && next == pos + header + BigEndian16(d[pos + 3], d[pos + 4]) + 1 <= |d|
            && ChunkAt(d, pos)
               == Packed(ResetOf(d[pos], d[pos + 5]), ChunkSize(d[pos], d[pos + 1], d[pos + 2]), d[pos + header..next])
            && (d[pos] >= 0xC0 ==> ValidProps(d[pos + 5]))
  {
    hide ChunkSize, ValidProps;
  }

  lemma SizeBytes(high: nat, b1: byte, b2: byte)
    ensures var n := high * 65536 + 256 * b1 + b2; n / 0x1_0000 == high && TwoBytes(n % 0x1_0000) == [b1, b2]
  {
  }

  lemma TwoBytesBack(b1: byte, b2: byte)
    ensures TwoBytes(BigEndian16(b1, b2)) == [b1, b2]
  {
  }

  /** A frame is found exactly where a chunk of the format stands. */
  lemma FramesExactly(d: seq<byte>, pos: nat)
    ensures FrameFromBytes(d, pos).Some? <==> exists c :: ValidChunk(c) && Has(d, pos, ChunkBytes(c))
    ensures forall c :: ValidChunk(c) && Has(d, pos, ChunkBytes(c)) ==>
      FrameFromBytes(d, pos) == Some((FrameOf(c, pos, 0), pos + |ChunkBytes(c)|))
  {
    hide FrameFromBytes, ChunkBytes, ValidChunk, Has;
    if FrameFromBytes(d, pos).Some? {
      FrameIsChunk(d, pos);
    }
    forall c | ValidChunk(c) && Has(d, pos, ChunkBytes(c))
      ensures FrameFromBytes(d, pos) == Some((FrameOf(c, pos, 0), pos + |ChunkBytes(c)|))
    {
      ChunkBack(d, pos, c);
    }
  }

  // ----- whole streams

  ghost predicate AllValid(cs: seq<Chunk>) {
    forall i :: 0 <= i < |cs| ==> ValidChunk(cs[i])
  }

  function Written(cs: seq<Chunk>): seq<byte>
    requires AllValid(cs)
  {
    if cs == [] then [] else ChunkBytes(cs[0]) + Written(cs[1..])
  }

  /** One frame for each chunk, each at the sum of the lengths and sizes before it. */
  ghost function FramesOf(cs: seq<Chunk>, pos: nat, out: nat): (fs: seq<Frame>)
    requires AllValid(cs)
    ensures |fs| == |cs|
  {
    if cs == [] then []
    else [FrameOf(cs[0], pos, out)] + FramesOf(cs[1..], pos + |ChunkBytes(cs[0])|, out + SizeOf(cs[0]))
  }

  /** A stream of chunks, ended by a zero byte or by its end, reads back as its chunks. */
  lemma {:induction false} StreamBack(d: seq<byte>, pos: nat, out: nat, cs: seq<Chunk>, end: seq<byte>)
    requires AllValid(cs) && pos <= |d| && (end == [] || end[0] == 0)
    requires d[pos..] == Written(cs) + end
    ensures Walk(d, pos, out) == FramesOf(cs, pos, out)
    ensures WalkEnd(d, pos) == pos + |Written(cs)|
    decreases |cs|
  {
    hide *;
    if cs == [] {
      NothingWritten();
      assert [] + end == end;
      NothingAt(d, pos);
      WalkStops(d, pos, out);
    } else {
      FirstWritten(cs, pos, out);
      var head, rest := ChunkBytes(cs[0]), Written(cs[1..]);
      assert head + rest + end == head + (rest + end);
      TailAfter(d, pos, head, rest + end);
      ChunkBack(d, pos, cs[0]);
      StreamBack(d, pos + |head|, out + SizeOf(cs[0]), cs[1..], end);
      WalkStep(d, pos, out);
    }
  }

  lemma NothingWritten()
    ensures Written([]) == [] && forall pos, out :: FramesOf([], pos, out) == []
  {
  }

  lemma FirstWritten(cs: seq<Chunk>, pos: nat, out: nat)
    requires AllValid(cs) && cs != []
    ensures ValidChunk(cs[0]) && AllValid(cs[1..])
    ensures Written(cs) == ChunkBytes(cs[0]) + Written(cs[1..])
    ensures FramesOf(cs, pos, out)
         == [FrameOf(cs[0], pos, 0).(outputOffset := out)]
              + FramesOf(cs[1..], pos + |ChunkBytes(cs[0])|, out + FrameOf(cs[0], pos, 0).decodedSize)
    ensures FrameOf(cs[0], pos, 0).decodedSize == SizeOf(cs[0])
  {
    hide ChunkBytes, ValidChunk, SizeOf, StartsSegment;
  }

  lemma WalkStops(d: seq<byte>, pos: nat, out: nat)
    requires pos <= |d| && FrameFromBytes(d, pos).None?
    ensures Walk(d, pos, out) == [] && WalkEnd(d, pos) == pos
  {
  }

  lemma WalkStep(d: seq<byte>, pos: nat, out: nat)
    requires FrameFromBytes(d, pos).Some?
    ensures var (f, next) := FrameFromBytes(d, pos).value;
            && pos <= next <= |d|
            && Walk(d, pos, out) == [f.(outputOffset := out)] + Walk(d, next, out + f.decodedSize)
            && WalkEnd(d, pos) == WalkEnd(d, next)
  {
    hide FrameFromBytes;
    FrameShape(d, pos);
  }

  lemma TailAfter(d: seq<byte>, pos: nat, head: seq<byte>, rest: seq<byte>)
    requires pos <= |d| && d[pos..] == head + rest
    ensures Has(d, pos, head) && d[pos + |head|..] == rest
  {
    assert d[pos..][..|head|] == head && d[pos..][|head|..] == rest;
    assert d[pos + |head|..] == d[pos..][|head|..];
  }

  lemma NothingAt(d: seq<byte>, pos: nat)
    requires pos <= |d| && (d[pos..] == [] || d[pos..][0] == 0)
    ensures FrameFromBytes(d, pos).None?
  {
    if pos < |d| {
      assert d[pos] == d[pos..][0];
    }
  }
}
