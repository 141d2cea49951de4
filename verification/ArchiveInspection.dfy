/** From the bytes of an archive to its recovery: the verified header, the folders that can be worked on,
    where their packed bytes lie, and the run over them. */
module ArchiveInspection {
  import opened Bits
  import opened Wrappers
  import opened ArchiveFiles
  import opened BatchReference
  import opened ResyncReference
  import opened SevenZipStreams
  import opened StreamingRecovery
  import opened DeepRecovery
  import Crc32
  import SevenZipNumber
  import SevenZipFiles
  import SevenZipHeader

  const SIGNATURE: seq<byte> := [0x37, 0x7A, 0xBC, 0xAF, 0x27, 0x1C]
  const AES: seq<byte> := [6, 0xF1, 7, 1]
  const LZMA2: seq<byte> := [0x21]
  const MAX_SCAN: nat := 8 * 1024 * 1024 * 1024
  const MAX_DICTIONARY: nat := 32 * 1024 * 1024

  datatype Failure =
    | NotSevenZip | StartHeaderCrcMismatch | InvalidNextHeaderBounds | NextHeaderCrcMismatch
    | InvalidLzma2Properties | UnboundedDictionary | DictionaryTooLarge | InvalidPackedRange
    | NoSupportedFolder | NoFileCrcs
    | Rejected(header: SevenZipNumber.Reason)

  // ----- the header

  /** The next header, checked against the recorded bounds and CRCs, and where it starts. */
  function NextHeader(source: seq<byte>): Result<(seq<byte>, nat), Failure> {
    if |source| < 32 || source[..6] != SIGNATURE then Err(NotSevenZip)
    else if Crc32.Crc(source[12..32]) != LittleEndian(source[8..12]) then Err(StartHeaderCrcMismatch)
    else
      var start, size := 32 + LittleEndian(source[12..20]), LittleEndian(source[20..28]);
      if size > SevenZipFiles.HEADER_LIMIT || start + size > |source| then Err(InvalidNextHeaderBounds)
      else if Crc32.Crc(source[start..start + size]) != LittleEndian(source[28..32]) then Err(NextHeaderCrcMismatch)
      else Ok((source[start..start + size], start))
  }

  // ----- the folders

  /** Two bits of mantissa and an exponent; only up to 32 MiB. */
  function DictionarySize(props: seq<byte>): Result<nat, Failure> {
    if |props| != 1 || props[0] > 40 then Err(InvalidLzma2Properties)
    else if props[0] == 40 then Err(UnboundedDictionary)
    else
      var size := (2 + props[0] % 2) * Pow2(props[0] / 2 + 11);
      if size > MAX_DICTIONARY then Err(DictionaryTooLarge) else Ok(size)
  }

  /** Exactly the property bytes up to 26 are accepted, and the dictionary is within 4 KiB and 32 MiB. */
  lemma DictionaryBounds(props: seq<byte>)
    ensures DictionarySize(props).Ok? <==> |props| == 1 && props[0] <= 26
    ensures DictionarySize(props) == Err(InvalidLzma2Properties) <==> |props| != 1 || props[0] > 40
    ensures DictionarySize(props) == Err(UnboundedDictionary) <==> |props| == 1 && props[0] == 40
    ensures DictionarySize(props) == Err(DictionaryTooLarge) <==> |props| == 1 && 27 <= props[0] <= 39
    ensures DictionarySize(props).Ok? ==> 4096 <= DictionarySize(props).value <= MAX_DICTIONARY
  {
    hide Pow2;
    Powers();
    if |props| == 1 {
      var e := props[0] / 2 + 11;
      Pow2Monotone(11, e);
      if e <= 23 {
        Pow2Monotone(e, 23);
      } else if e >= 25 {
        Pow2Monotone(25, e);
      }
    }
  }

  /** 4 KiB, 6 KiB, and from there on twice as much every second step. */
  lemma DictionarySteps(n: byte)
    requires n <= 24
    ensures DictionarySize([0]) == Ok(4096) && DictionarySize([1]) == Ok(6144)
    ensures DictionarySize([n]).Ok? && DictionarySize([n + 2]) == Ok(2 * DictionarySize([n]).value)
  {
    hide Pow2;
    Powers();
    DictionaryBounds([n]);
    DictionaryBounds([n + 2]);
    PowTwice(n / 2 + 11);
    assert (n + 2) / 2 + 11 == n / 2 + 12 && (n + 2) % 2 == n % 2;
  }

  lemma PowTwice(n: nat)
    ensures Pow2(n + 1) == 2 * Pow2(n)
  {
  }

  lemma Powers()
    ensures Pow2(11) == 0x800 && Pow2(23) == 0x80_0000 && Pow2(24) == 0x100_0000 && Pow2(25) == 0x200_0000
  {
    assert Pow2(11) == 0x800;
    assert Pow2(17) == 0x2_0000;
    assert Pow2(23) == 0x80_0000;
  }

  /** The AES properties, where there are any, and the LZMA2 properties of a supported folder. */
  function Shape(f: Folder): Option<(Option<seq<byte>>, seq<byte>)> {
    if |f.coders| == 2 && f.coders[0].codec == AES && f.coders[1].codec == LZMA2 && f.binds == [(1, 0)] then
      Some((Some(f.coders[0].props), f.coders[1].props))
    else if |f.coders| == 1 && f.coders[0].codec == LZMA2 && f.binds == [] then Some((None, f.coders[0].props))
    else None
  }

  /** The two supported shapes: LZMA2 alone, or AES with its output bound to the input of LZMA2. */
  lemma ShapeExactly(f: Folder, aes: seq<byte>, lzma: seq<byte>)
    ensures Shape(f) == Some((None, lzma)) <==> f.coders == [Coder([0x21], lzma)] && f.binds == []
    ensures Shape(f) == Some((Some(aes), lzma)) <==>
      f.coders == [Coder([6, 0xF1, 7, 1], aes), Coder([0x21], lzma)] && f.binds == [(1, 0)]
  {
    if |f.coders| == 1 {
      assert f.coders == [f.coders[0]];
    }
    if |f.coders| == 2 {
      assert f.coders == [f.coders[0], f.coders[1]];
    }
  }

  /** A supported folder and where its packed bytes lie in the archive. */
  datatype Located = Located(offset: nat, packedSize: nat, unpackedSize: nat, dictionary: nat,
                             aes: Option<seq<byte>>, files: seq<FileEntry>)

  predicate InRange(block: Block, encrypted: bool, limit: nat) {
    && 0 < block.packSize <= MAX_SCAN
    && (encrypted ==> block.packSize % 16 == 0)
    && 32 + block.packPos + block.packSize <= limit
    && block.folder.UnpackSize() <= MAX_SCAN
  }

  function Locate(block: Block, files: seq<FileEntry>, aes: Option<seq<byte>>, lzma: seq<byte>, limit: nat):
    Result<Located, Failure>
  {
    var dictionary :- DictionarySize(lzma);
    if !InRange(block, aes.Some?, limit) then Err(InvalidPackedRange)
    else Ok(Located(32 + block.packPos, block.packSize, block.folder.UnpackSize(), dictionary, aes, files))
  }

  /** A folder is located exactly when its dictionary is small enough, its packed range is not empty, whole
      AES blocks where it is encrypted, in front of the header, and neither size is over 8 GiB. */
  lemma LocatesExactly(block: Block, files: seq<FileEntry>, aes: Option<seq<byte>>, lzma: seq<byte>, limit: nat)
    ensures Locate(block, files, aes, lzma, limit).Ok? <==>
      && |lzma| == 1 && lzma[0] <= 26
      && 0 < block.packSize <= 0x2_0000_0000 && (aes.Some? ==> block.packSize % 16 == 0)
      && 32 + block.packPos + block.packSize <= limit && block.folder.UnpackSize() <= 0x2_0000_0000
    ensures Locate(block, files, aes, lzma, limit).Err? ==>
      Locate(block, files, aes, lzma, limit) ==
        Err(if DictionarySize(lzma).Err? then DictionarySize(lzma).error else InvalidPackedRange)
    ensures Locate(block, files, aes, lzma, limit).Ok? ==>
      var l := Locate(block, files, aes, lzma, limit).value;
      && l.offset == 32 + block.packPos && l.packedSize == block.packSize
      && l.unpackedSize == block.folder.UnpackSize() && l.aes == aes && l.files == files
      && DictionarySize(lzma) == Ok(l.dictionary)
  {
    hide DictionarySize;
    DictionaryBounds(lzma);
  }

  /** The supported ones of the first `n` folders; the first bad one stops it. */
  function LocatedUpTo(blocks: seq<Block>, files: seq<seq<FileEntry>>, n: nat, limit: nat):
    Result<seq<Located>, Failure>
    requires n <= |blocks| == |files|
  {
    if n == 0 then Ok([])
    else
      var before :- LocatedUpTo(blocks, files, n - 1, limit);
      match Shape(blocks[n - 1].folder)
      case None => Ok(before)
      case Some((aes, lzma)) =>
        var found :- Locate(blocks[n - 1], files[n - 1], aes, lzma, limit);
        Ok(before + [found])
  }

  predicate AnyCrc(found: seq<Located>) {
    exists l, f :: l in found && f in l.files && f.crc.Some?
  }

  function Inspection(blocks: seq<Block>, files: seq<seq<FileEntry>>, limit: nat): Result<seq<Located>, Failure>
    requires |blocks| == |files|
  {
    var found :- LocatedUpTo(blocks, files, |blocks|, limit);
    if found == [] then Err(NoSupportedFolder) else if !AnyCrc(found) then Err(NoFileCrcs) else Ok(found)
  }

  method Inspect(blocks: seq<Block>, files: seq<seq<FileEntry>>, limit: nat) returns (r: Result<seq<Located>, Failure>)
    requires |blocks| == |files|
    ensures r == Inspection(blocks, files, limit)
  {
    hide Shape, Locate;
    var found: seq<Located> := [];
    for i := 0 to |blocks|
      invariant LocatedUpTo(blocks, files, i, limit) == Ok(found)
    {
      var shape := Shape(blocks[i].folder);
      if shape.Some? {
        var one := Locate(blocks[i], files[i], shape.value.0, shape.value.1, limit);
        if one.Err? {
          LocatedStays(blocks, files, i + 1, |blocks|, limit);
          return Err(one.error);
        }
        found := found + [one.value];
      }
    }
    if found == [] {
      return Err(NoSupportedFolder);
    }
    if !AnyCrc(found) {
      return Err(NoFileCrcs);
    }
    return Ok(found);
  }

  lemma {:induction false} LocatedStays(blocks: seq<Block>, files: seq<seq<FileEntry>>, m: nat, n: nat, limit: nat)
    requires m <= n <= |blocks| == |files| && LocatedUpTo(blocks, files, m, limit).Err?
    ensures LocatedUpTo(blocks, files, n, limit) == LocatedUpTo(blocks, files, m, limit)
  {
    if m < n {
      LocatedStays(blocks, files, m, n - 1, limit);
    }
  }

  // ----- what is located

  /** The indices of the supported folders among the first `n`. */
  function Supported(blocks: seq<Block>, n: nat): (r: seq<nat>)
    requires n <= |blocks|
    ensures forall i :: 0 <= i < |r| ==> r[i] < n
    ensures forall i, j :: 0 <= i < j < |r| ==> r[i] < r[j]
  {
    if n == 0 then []
    else Supported(blocks, n - 1) + if Shape(blocks[n - 1].folder).Some? then [n - 1] else []
  }

  /** The folder was located as what it is. */
  ghost predicate LocatedAs(l: Located, block: Block, files: seq<FileEntry>, limit: nat) {
    && Shape(block.folder).Some?
    && Locate(block, files, Shape(block.folder).value.0, Shape(block.folder).value.1, limit) == Ok(l)
  }

  /** What is located are the supported folders, each once and in order. */
  lemma {:induction false} LocatedAll(blocks: seq<Block>, files: seq<seq<FileEntry>>, n: nat, limit: nat)
    requires n <= |blocks| == |files| && LocatedUpTo(blocks, files, n, limit).Ok?
    ensures var found, at := LocatedUpTo(blocks, files, n, limit).value, Supported(blocks, n);
      |found| == |at| && forall i :: 0 <= i < |at| ==> LocatedAs(found[i], blocks[at[i]], files[at[i]], limit)
  {
    hide Shape, Locate;
    if n > 0 {
      LocatedAll(blocks, files, n - 1, limit);
    }
  }

  lemma {:induction false} SupportedAll(blocks: seq<Block>, n: nat, b: nat)
    requires b < n <= |blocks|
    ensures b in Supported(blocks, n) <==> Shape(blocks[b].folder).Some?
  {
    hide Shape;
    if b < n - 1 {
      SupportedAll(blocks, n - 1, b);
    }
  }

  /** The search for folders fails exactly when a supported one cannot be located. */
  lemma {:induction false} LocatedUnless(blocks: seq<Block>, files: seq<seq<FileEntry>>, n: nat, limit: nat)
    requires n <= |blocks| == |files|
    ensures LocatedUpTo(blocks, files, n, limit).Err? <==> exists b :: 0 <= b < n && Broken(blocks, files, b, limit)
  {
    hide Shape, Locate;
    if n > 0 {
      LocatedUnless(blocks, files, n - 1, limit);
      var before, after := LocatedUpTo(blocks, files, n - 1, limit), LocatedUpTo(blocks, files, n, limit);
      assert before.Ok? ==> (after.Err? <==> Broken(blocks, files, n - 1, limit));
    }
  }

  predicate Broken(blocks: seq<Block>, files: seq<seq<FileEntry>>, b: nat, limit: nat)
    requires b < |blocks| == |files|
  {
    var shape := Shape(blocks[b].folder);
    shape.Some? && Locate(blocks[b], files[b], shape.value.0, shape.value.1, limit).Err?
  }

  lemma {:induction false} Consecutive(blocks: seq<Block>, pos: nat, i: nat, j: nat)
    requires Conserved(blocks, pos) && i < |blocks| && j < |blocks|
    ensures pos <= blocks[j].packPos
    ensures i < j ==> blocks[i].packPos + blocks[i].packSize <= blocks[j].packPos
  {
    if j > 0 {
      Consecutive(blocks[1..], pos + blocks[0].packSize, if i > 0 then i - 1 else 0, j - 1);
    }
  }

  /** What recovery is given of an accepted header: every located folder lies between the start header
      and the next header, no two share a packed byte, and the files tile the folder's output with the
      sizes and CRCs of its substreams. */
  ghost predicate Sound(found: seq<Located>, limit: nat) {
    && (forall i :: 0 <= i < |found| ==>
          && 32 <= found[i].offset && found[i].offset + found[i].packedSize <= limit
          && 0 < found[i].packedSize <= MAX_SCAN && found[i].unpackedSize <= MAX_SCAN
          && 4096 <= found[i].dictionary <= MAX_DICTIONARY
          && (found[i].aes.Some? ==> found[i].packedSize % 16 == 0)
          && Tile(found[i].files, 0, found[i].unpackedSize))
    && (forall i, j :: 0 <= i < j < |found| ==> found[i].offset + found[i].packedSize <= found[j].offset)
  }

  lemma InspectionSound(d: seq<byte>, limit: nat)
    requires SevenZipHeader.HeaderAt(d).Got?
    ensures var (blocks, info) := SevenZipHeader.HeaderAt(d).value;
            |blocks| == |info.files| &&
            (Inspection(blocks, info.files, limit).Ok? ==> Sound(Inspection(blocks, info.files, limit).value, limit))
  {
    hide SevenZipHeader.HeaderAt, Conserved, Tile, SevenZipFiles.Mapped;
    SevenZipHeader.HeaderConserves(d);
    var (blocks, info) := SevenZipHeader.HeaderAt(d).value;
    if Inspection(blocks, info.files, limit).Ok? {
      FoundSound(blocks, info, limit);
    }
  }

  lemma FoundSound(blocks: seq<Block>, info: SevenZipFiles.FileInfo, limit: nat)
    requires SevenZipHeader.HeaderConserved(blocks, info) && LocatedUpTo(blocks, info.files, |blocks|, limit).Ok?
    ensures Sound(LocatedUpTo(blocks, info.files, |blocks|, limit).value, limit)
  {
    hide Shape, Locate, LocatedUpTo, Conserved, Tile, Supported;
    var found, at := LocatedUpTo(blocks, info.files, |blocks|, limit).value, Supported(blocks, |blocks|);
    LocatedAll(blocks, info.files, |blocks|, limit);
    forall i | 0 <= i < |found| ensures LocatedMeans(found[i], blocks[at[i]], info.files[at[i]], limit) {
      LocatedIs(found[i], blocks[at[i]], info.files[at[i]], limit);
    }
    forall i, j | 0 <= i < j < |found| ensures found[i].offset + found[i].packedSize <= found[j].offset {
      Consecutive(blocks, blocks[0].packPos, at[i], at[j]);
      assert LocatedMeans(found[i], blocks[at[i]], info.files[at[i]], limit);
    }
  }

  ghost predicate LocatedMeans(l: Located, block: Block, files: seq<FileEntry>, limit: nat) {
    && l.offset == 32 + block.packPos && l.packedSize == block.packSize && l.unpackedSize == block.folder.UnpackSize()
    && l.files == files && InRange(block, l.aes.Some?, limit) && 4096 <= l.dictionary <= MAX_DICTIONARY
  }

  lemma LocatedIs(l: Located, block: Block, files: seq<FileEntry>, limit: nat)
    requires LocatedAs(l, block, files, limit)
    ensures LocatedMeans(l, block, files, limit)
  {
    hide DictionarySize;
    DictionaryBounds(Shape(block.folder).value.1);
  }

  // ----- the whole archive

  type Decode = seq<byte> -> Result<seq<byte>, Failure>

  /** The located folders of an archive, or why there is nothing to recover. `decode` unpacks a header that
      is stored compressed or encrypted. */
  function Structure(source: seq<byte>, decode: Decode): Result<seq<Located>, Failure> {
    var (raw, limit) :- NextHeader(source);
    var header :- decode(raw);
    match SevenZipHeader.HeaderAt(header)
    case Fail(reason) => Err(Rejected(reason))
    case Got((blocks, info), _) =>
      InspectionSound(header, limit);
      Inspection(blocks, info.files, limit)
  }

  lemma StructureSound(source: seq<byte>, decode: Decode, found: seq<Located>)
    requires Structure(source, decode) == Ok(found)
    ensures Sound(found, |source|)
  {
    hide Crc32.Crc, SevenZipHeader.HeaderAt, Sound, Inspection;
    var (raw, limit) := NextHeader(source).value;
    InspectionSound(decode(raw).value, limit);
    SoundLater(found, limit, |source|);
  }

  lemma SoundLater(found: seq<Located>, limit: nat, size: nat)
    requires Sound(found, limit) && limit <= size
    ensures Sound(found, size)
  {
    hide Tile;
  }

  /** AES decryption with the key at hand: as many bytes as it is given. */
  ghost predicate KeepsLength(decrypt: (seq<byte>, seq<byte>) -> seq<byte>) {
    forall props, s :: |decrypt(props, s)| == |s|
  }

  /** What recovery works on. */
  function MetadataOf(l: Located, source: seq<byte>, decrypt: (seq<byte>, seq<byte>) -> seq<byte>,
                      decoders: nat -> Decoder): Metadata
  {
    var end := l.offset + l.packedSize;
    var packed := if end <= |source| then source[l.offset..end] else [];
    Metadata(if l.aes.Some? then decrypt(l.aes.value, packed) else packed, l.packedSize, l.unpackedSize, l.files,
             l.aes.Some?, decoders(l.dictionary))
  }

  function Metadatas(found: seq<Located>, source: seq<byte>, decrypt: (seq<byte>, seq<byte>) -> seq<byte>,
                     decoders: nat -> Decoder): (r: seq<Metadata>)
    ensures |r| == |found|
  {
    seq(|found|, i requires 0 <= i < |found| => MetadataOf(found[i], source, decrypt, decoders))
  }

  /** Everything the recovery of a folder presupposes follows from the checks on the header, and all the
      packed bytes of each folder are there. */
  lemma LocatedValid(source: seq<byte>, decode: Decode, found: seq<Located>,
                     decrypt: (seq<byte>, seq<byte>) -> seq<byte>, decoders: nat -> Decoder)
    requires Structure(source, decode) == Ok(found) && KeepsLength(decrypt)
    ensures forall meta :: meta in Metadatas(found, source, decrypt, decoders) ==> ValidMetadata(meta) && Whole(meta)
  {
    hide Structure, Tile;
    StructureSound(source, decode, found);
  }

  /** The run from the bytes of an archive: refused before anything is published, or carried through to an
      exact ledger and outcome in which every call had the bytes of a listed file. */
  method RecoverArchive(source: seq<byte>, decode: Decode, decrypt: (seq<byte>, seq<byte>) -> seq<byte>,
                        decoders: nat -> Decoder, pub: Publisher) returns (r: Result<Outcome, Failure>)
    requires KeepsLength(decrypt) && pub.Book() == Ledger([], {})
    modifies pub
    ensures Structure(source, decode).Err? ==>
      r == Err(Structure(source, decode).error) && pub.Book() == Ledger([], {})
    ensures Structure(source, decode).Ok? ==> (
      var blocks := Metadatas(Structure(source, decode).value, source, decrypt, decoders);
      && RunSafe(pub.Book(), AllFiles(blocks))
      && pub.Book() == RunLedger(blocks, |blocks|, pub.accept)
      && r == Ok(RunOutcome(blocks, pub.accept)))
  {
    hide Crc32.Crc, SevenZipHeader.HeaderAt, SevenZipHeader.HeaderConserved, Inspection, RunSafe, RunOutcome, RunLedger;
    hide ValidMetadata, Whole, Metadatas, KeepsLength;
    var next :- NextHeader(source);
    var header :- decode(next.0);
    var structure := SevenZipHeader.ReadHeader(header);
    if structure.Err? {
      return Err(Rejected(structure.error));
    }
    InspectionSound(header, next.1);
    var found :- Inspect(structure.value.0, structure.value.1.files, next.1);
    assert Structure(source, decode) == Ok(found);
    LocatedValid(source, decode, found, decrypt, decoders);
    var blocks := Metadatas(found, source, decrypt, decoders);
    var outcome := Recover(blocks, pub);
    return Ok(outcome.value);
  }
}
