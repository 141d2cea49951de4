/** A writer of whole 7z archives after the format description (7zFormat.txt): start header, packed
    streams, header. */
module ArchiveWriter {
  import opened Bits
  import opened Crc32
  import opened Wrappers
  import opened ArchiveFiles
  import opened SevenZipNumber
  import opened SevenZipStreams
  import opened SevenZipFiles
  import opened SevenZipFilesWriter
  import opened SevenZipHeader
  import SevenZipWriter
  import ArchiveInspection

  // ----- the header

  /** What the format can hold of folders and entries. */
  ghost predicate WritableHeader(blocks: seq<Block>, items: seq<Item>, extras: seq<Extra>) {
    && SevenZipWriter.Writable(blocks) && Conserved(blocks, blocks[0].packPos)
    && WritableFiles(items, extras) && |StreamNames(items)| == |AllSizes(blocks)|
  }

  function HeaderBytes(blocks: seq<Block>, items: seq<Item>, extras: seq<Extra>): seq<byte>
    requires SevenZipWriter.Writable(blocks) && ValidItems(items)
  {
    [1, 4] + (SevenZipWriter.StreamBytes(blocks) + ([5] + (SectionBytes(items, extras) + [0])))
  }

  /** A header that was written is read back: the folders as they were, the files as the entries say. */
  lemma HeaderRoundTrip(blocks: seq<Block>, items: seq<Item>, extras: seq<Extra>)
    requires WritableHeader(blocks, items, extras)
    ensures var d := HeaderBytes(blocks, items, extras);
            HeaderAt(d).Got? && HeaderAt(d).value.0 == blocks && FilesAre(HeaderAt(d).value.1, items, blocks)
  {
    hide *;
    HeaderPieces(blocks, items, extras);
    var d := HeaderBytes(blocks, items, extras);
    var q := 2 + |SevenZipWriter.StreamBytes(blocks)|;
    SevenZipWriter.StreamInfoRoundTrip(blocks, d, 2);
    FilesRoundTrip(d, q + 1, items, extras, blocks, blocks[0].packPos);
    HeaderSteps(d, q, q + 1 + |SectionBytes(items, extras)|);
  }

  lemma HeaderPieces(blocks: seq<Block>, items: seq<Item>, extras: seq<Extra>)
    requires WritableHeader(blocks, items, extras)
    ensures blocks != [] && SevenZipWriter.Writable(blocks) && Conserved(blocks, blocks[0].packPos)
    ensures WritableFiles(items, extras) && ValidItems(items) && |StreamNames(items)| == |AllSizes(blocks)|
    ensures var d := HeaderBytes(blocks, items, extras);
            var s, f := SevenZipWriter.StreamBytes(blocks), SectionBytes(items, extras);
            && Has(d, 0, [1, 4]) && Has(d, 2, s) && Has(d, 2 + |s|, [5]) && Has(d, 2 + |s| + 1, f)
            && Has(d, 2 + |s| + 1 + |f|, [0]) && |d| == 2 + |s| + 1 + |f| + 1
  {
    hide SevenZipWriter.StreamBytes, SectionBytes, Conserved, StreamNames, AllSizes, Has;
    FivePieces(HeaderBytes(blocks, items, extras), SevenZipWriter.StreamBytes(blocks), SectionBytes(items, extras));
  }

  lemma FivePieces(d: seq<byte>, s: seq<byte>, f: seq<byte>)
    requires d == [1, 4] + (s + ([5] + (f + [0])))
    ensures Has(d, 0, [1, 4]) && Has(d, 2, s) && Has(d, 2 + |s|, [5]) && Has(d, 2 + |s| + 1, f)
    ensures Has(d, 2 + |s| + 1 + |f|, [0]) && |d| == 2 + |s| + 1 + |f| + 1
  {
    hide Has;
    assert Has(d, 0, d) by {
      HasAll(d);
    }
    HasSplit(d, 0, [1, 4], s + ([5] + (f + [0])));
    HasSplit(d, 2, s, [5] + (f + [0]));
    HasSplit(d, 2 + |s|, [5], f + [0]);
    HasSplit(d, 2 + |s| + 1, f, [0]);
  }

  lemma HasAll(d: seq<byte>)
    ensures Has(d, 0, d)
  {
  }

  lemma HeaderSteps(d: seq<byte>, q: nat, u: nat)
    requires Has(d, 0, [1, 4]) && Has(d, q, [5]) && Has(d, u, [0]) && |d| == u + 1
    requires StreamInfoAt(d, 2).Got? && StreamInfoAt(d, 2).pos == q
    requires FileInfoAt(d, q + 1, StreamInfoAt(d, 2).value).Got?
        && FileInfoAt(d, q + 1, StreamInfoAt(d, 2).value).pos == u
    ensures HeaderAt(d).Got?
    ensures HeaderAt(d).value == (StreamInfoAt(d, 2).value, FileInfoAt(d, q + 1, StreamInfoAt(d, 2).value).value)
  {
    hide StreamInfoAt, FileInfoAt;
    assert d[0..2] == [1, 4];
    assert d[0] == d[0..2][0] == 1 && d[1] == d[0..2][1] == 4;
    assert d[q] == d[q..q + 1][0] == 5 && d[u] == d[u..u + 1][0] == 0;
  }

  // ----- the archive

  /** Where the header lies and what its CRC is. */
  function Tail(packedSize: nat, header: seq<byte>): (s: seq<byte>)
    ensures |s| == 20
  {
    LittleEndianBytes(packedSize, 8) + LittleEndianBytes(|header|, 8) + LittleEndianBytes(Crc(header), 4)
  }

  const SIGNATURE: seq<byte> := [0x37, 0x7A, 0xBC, 0xAF, 0x27, 0x1C]

  function Start(packedSize: nat, header: seq<byte>): (s: seq<byte>)
    ensures |s| == 32
  {
    SIGNATURE + [0, 4] + LittleEndianBytes(Crc(Tail(packedSize, header)), 4) + Tail(packedSize, header)
  }

  function ArchiveBytes(packed: seq<byte>, header: seq<byte>): seq<byte> {
    Start(|packed|, header) + packed + header
  }

  /** The header of an archive is found where it was written. */
  lemma NextHeaderBack(packed: seq<byte>, header: seq<byte>)
    requires |packed| < Pow2(64) && |header| <= HEADER_LIMIT
    ensures ArchiveInspection.NextHeader(ArchiveBytes(packed, header)) == Ok((header, 32 + |packed|))
  {
    hide Pow2, Crc, LittleEndianBytes, LittleEndian;
    var d := ArchiveBytes(packed, header);
    var tail := Tail(|packed|, header);
    CrcBound(header);
    CrcBound(tail);
    LittleEndianRoundTrip(Crc(tail), 4);
    LittleEndianRoundTrip(Crc(header), 4);
    LittleEndianRoundTrip(|packed|, 8);
    LimitFits(|header|);
    LittleEndianRoundTrip(|header|, 8);
    StartFields(packed, header);
    assert d[32 + |packed|..32 + |packed| + |header|] == header;
  }

  lemma StartFields(packed: seq<byte>, header: seq<byte>)
    ensures var d, tail := ArchiveBytes(packed, header), Tail(|packed|, header);
            && |d| == 32 + |packed| + |header|
            && d[..6] == SIGNATURE && d[8..12] == LittleEndianBytes(Crc(tail), 4) && d[12..32] == tail
            && d[12..20] == LittleEndianBytes(|packed|, 8) && d[20..28] == LittleEndianBytes(|header|, 8)
            && d[28..32] == LittleEndianBytes(Crc(header), 4)
  {
    hide Crc, LittleEndianBytes;
    var d, tail := ArchiveBytes(packed, header), Tail(|packed|, header);
    assert d[12..32] == tail;
    assert d[12..20] == tail[..8] && d[20..28] == tail[8..16] && d[28..32] == tail[16..];
  }

  lemma {:induction false} BytesBack(s: seq<byte>)
    ensures LittleEndianBytes(LittleEndian(s), |s|) == s
  {
    if s != [] {
      BytesBack(s[1..]);
      LowByte(s[0], LittleEndian(s[1..]));
    }
  }

  lemma LowByte(b: byte, rest: nat)
    ensures (b + 256 * rest) % 256 == b && (b + 256 * rest) / 256 == rest
  {
  }

  /** The start header and the header as the format has them, whatever the version and what lies between. */
  ghost predicate Verified(source: seq<byte>, header: seq<byte>, start: nat) {
    && |source| >= 32 && source[..6] == SIGNATURE
    && source[8..12] == LittleEndianBytes(Crc(source[12..32]), 4)
    && start >= 32 && source[12..20] == LittleEndianBytes(start - 32, 8) && start - 32 < Pow2(64)
    && source[20..28] == LittleEndianBytes(|header|, 8)
    && source[28..32] == LittleEndianBytes(Crc(header), 4)
    && |header| <= 16 * 1024 * 1024 && Has(source, start, header)
  }

  /** A header is accepted exactly when the bounds and both CRCs are right. */
  lemma NextHeaderExactly(source: seq<byte>, header: seq<byte>, start: nat)
    ensures ArchiveInspection.NextHeader(source) == Ok((header, start)) <==> Verified(source, header, start)
  {
    hide Crc, LittleEndian, LittleEndianBytes, Pow2;
    if Verified(source, header, start) {
      CrcBound(header);
      CrcBound(source[12..32]);
      LittleEndianRoundTrip(Crc(source[12..32]), 4);
      LittleEndianRoundTrip(Crc(header), 4);
      LittleEndianRoundTrip(start - 32, 8);
      LimitFits(|header|);
      LittleEndianRoundTrip(|header|, 8);
    }
    if ArchiveInspection.NextHeader(source) == Ok((header, start)) {
      BytesBack(source[8..12]);
      BytesBack(source[12..20]);
      BytesBack(source[20..28]);
      BytesBack(source[28..32]);
      LittleEndianBound(source[12..20]);
    }
  }

  /** Why a next header is refused. */
  lemma NextHeaderRefused(source: seq<byte>)
    ensures var r := ArchiveInspection.NextHeader(source);
      && (r == Err(ArchiveInspection.NotSevenZip) <==> !(SIGNATURE <= source && |source| >= 32))
      && (r == Err(ArchiveInspection.StartHeaderCrcMismatch) <==>
            |source| >= 32 && SIGNATURE <= source && source[8..12] != LittleEndianBytes(Crc(source[12..32]), 4))
      && (r.Err? ==> r.error in {ArchiveInspection.NotSevenZip, ArchiveInspection.StartHeaderCrcMismatch,
                                 ArchiveInspection.InvalidNextHeaderBounds, ArchiveInspection.NextHeaderCrcMismatch})
  {
    hide Crc, LittleEndian, LittleEndianBytes, Pow2;
    if |source| >= 32 {
      BytesBack(source[8..12]);
      CrcBound(source[12..32]);
      LittleEndianRoundTrip(Crc(source[12..32]), 4);
      assert SIGNATURE <= source <==> source[..6] == SIGNATURE;
    }
  }

  lemma {:induction false} LittleEndianBound(s: seq<byte>)
    ensures LittleEndian(s) < Pow2(8 * |s|)
  {
    if s != [] {
      LittleEndianBound(s[1..]);
      Powers();
      Pow2Add(8, 8 * (|s| - 1));
    }
  }

  /** What recovery finds in a written archive: the inspection of the folders that were written, with the
      files of the entries. */
  lemma WrittenStructure(packed: seq<byte>, blocks: seq<Block>, items: seq<Item>, extras: seq<Extra>,
                         decode: ArchiveInspection.Decode)
    requires WritableHeader(blocks, items, extras)
    requires |packed| < Pow2(64) && |HeaderBytes(blocks, items, extras)| <= HEADER_LIMIT
    requires decode(HeaderBytes(blocks, items, extras)) == Ok(HeaderBytes(blocks, items, extras))
    ensures exists info: FileInfo :: (
      && |info.files| == |blocks| && FilesAre(info, items, blocks)
      && ArchiveInspection.Structure(ArchiveBytes(packed, HeaderBytes(blocks, items, extras)), decode)
         == ArchiveInspection.Inspection(blocks, info.files, 32 + |packed|))
  {
    hide *;
    HeaderRoundTrip(blocks, items, extras);
    HeaderPieces(blocks, items, extras);
    var header := HeaderBytes(blocks, items, extras);
    NextHeaderBack(packed, header);
    ArchiveInspection.InspectionSound(header, 32 + |packed|);
    StructureFrom(ArchiveBytes(packed, header), header, 32 + |packed|, decode);
    var info := HeaderAt(header).value.1;
    assert |info.files| == |blocks| && FilesAre(info, items, blocks);
  }

  lemma StructureFrom(source: seq<byte>, header: seq<byte>, limit: nat, decode: ArchiveInspection.Decode)
    requires ArchiveInspection.NextHeader(source) == Ok((header, limit)) && decode(header) == Ok(header)
    requires HeaderAt(header).Got? && |HeaderAt(header).value.0| == |HeaderAt(header).value.1.files|
    ensures ArchiveInspection.Structure(source, decode)
         == ArchiveInspection.Inspection(HeaderAt(header).value.0, HeaderAt(header).value.1.files, limit)
  {
    hide ArchiveInspection.NextHeader, HeaderAt, ArchiveInspection.Inspection;
  }
}
