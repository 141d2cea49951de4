/** The file section of a 7z header: names, empty-file bits, and the mapping of names onto substreams. */
module SevenZipFiles {
  import opened Bits
  import opened Wrappers
  import opened ArchiveFiles
  import opened SevenZipNumber
  import opened SevenZipStreams

  const HEADER_LIMIT: nat := 16 * 1024 * 1024

  datatype Props = Props(names: Option<seq<FileName>>, present: seq<bool>, emptyFile: Option<seq<byte>>,
                         anti: Option<seq<byte>>)

  // ----- names

  function Units(chars: seq<byte>): seq<nat>
    requires |chars| % 2 == 0
  {
    if chars == [] then [] else [BigEndian16(chars[1], chars[0])] + Units(chars[2..])
  }

  /** No surrogate stands alone. */
  predicate ValidUtf16(units: seq<nat>) {
    if units == [] then true
    else if 0xD800 <= units[0] < 0xDC00 then |units| >= 2 && 0xDC00 <= units[1] < 0xE000 && ValidUtf16(units[2..])
    else !(0xDC00 <= units[0] < 0xE000) && ValidUtf16(units[1..])
  }

  /** Every name ends with a zero unit. */
  function SplitNames(units: seq<nat>, current: FileName): seq<FileName> {
    if units == [] then []
    else if units[0] == 0 then [current] + SplitNames(units[1..], [])
    else SplitNames(units[1..], current + [units[0]])
  }

  function JoinNames(names: seq<FileName>): seq<nat> {
    if names == [] then [] else names[0] + [0] + JoinNames(names[1..])
  }

  lemma {:induction false} SplitOne(name: FileName, rest: seq<nat>, current: FileName)
    requires 0 !in name
    ensures SplitNames(name + [0] + rest, current) == [current + name] + SplitNames(rest, [])
    decreases |name|
  {
    var units := name + [0] + rest;
    if name == [] {
      assert units[1..] == rest && current + [] == current;
    } else {
      assert units[1..] == name[1..] + [0] + rest;
      SplitOne(name[1..], rest, current + [name[0]]);
      assert current + [name[0]] + name[1..] == current + name;
    }
  }

  /** Splitting what joining wrote gives the names back. */
  lemma {:induction false} NamesRoundTrip(names: seq<FileName>)
    requires forall i :: 0 <= i < |names| ==> 0 !in names[i]
    ensures SplitNames(JoinNames(names), []) == names
  {
    if names != [] {
      SplitOne(names[0], JoinNames(names[1..]), []);
      NamesRoundTrip(names[1..]);
      assert [] + names[0] == names[0];
    }
  }

  function NamesFrom(chars: seq<byte>): Result<seq<FileName>, Reason> {
    if |chars| % 2 == 1 || |chars| < 2 || chars[|chars| - 2..] != [0, 0] then Err(InvalidFilenames)
    else if !ValidUtf16(Units(chars)) then Err(InvalidFilenames)
    else Ok(SplitNames(Units(chars), []))
  }

  // ----- properties

  function Property(tag: byte, sub: seq<byte>, count: nat, st: Props): (r: Result<Props, Reason>)
    requires |st.present| == count
    ensures r.Ok? ==> |r.value.present| == count
  {
    if tag == 14 then
      if |sub| < (count + 7) / 8 then Err(Truncated)
      else Ok(st.(present := seq(count, i requires 0 <= i < count => !BitAt(sub, i))))
    else if tag == 15 then Ok(st.(emptyFile := Some(sub)))
    else if tag == 16 then Ok(st.(anti := Some(sub)))
    else if tag == 17 then
      if sub == [] then Err(Truncated)
      else if sub[0] != 0 then Err(ExternalFilenames)
      else
        match NamesFrom(sub[1..])
        case Err(e) => Err(e)
        case Ok(names) => Ok(st.(names := Some(names)))
    else Ok(st)
  }

  function PropsAt(d: seq<byte>, pos: nat, count: nat, st: Props): (r: Parsed<Props>)
    requires |st.present| == count
    ensures r.Got? ==> pos < r.pos <= |d| && |r.value.present| == count
    decreases |d| - pos
  {
    var (tag, p) :- U8At(d, pos);
    if tag == 0 then Got(st, p)
    else
      var (length, q) :- NumAt(d, p);
      if length > HEADER_LIMIT then Fail(FilePropertyTooLarge)
      else
        var (sub, s) :- RawAt(d, q, length);
        match Property(tag, sub, count, st)
        case Err(e) => Fail(e)
        case Ok(next) => PropsAt(d, s, count, next)
  }

  // ----- mapping

  /** One substream of one folder. */
  datatype Entry = Entry(block: nat, length: nat, crc: Option<nat>)

  function BlockEntries(b: nat, sizes: seq<nat>, crcs: seq<Option<nat>>): (r: seq<Entry>)
    ensures forall i :: 0 <= i < |r| ==> r[i].block == b
  {
    if sizes == [] || crcs == [] then [] else [Entry(b, sizes[0], crcs[0])] + BlockEntries(b, sizes[1..], crcs[1..])
  }

  /** All substreams, folder by folder; the first folder has index `b`. */
  function Entries(blocks: seq<Block>, b: nat): (r: seq<Entry>)
    ensures forall i :: 0 <= i < |r| ==> b <= r[i].block < b + |blocks|
    decreases |blocks|
  {
    if blocks == [] then []
    else BlockEntries(b, blocks[0].subSizes, blocks[0].subCrcs) + Entries(blocks[1..], b + 1)
  }

  /** Where each folder's output starts in the archive's total output. */
  function Bases(blocks: seq<Block>, total: nat): (r: seq<nat>)
    ensures |r| == |blocks|
    decreases |blocks|
  {
    if blocks == [] then [] else [total] + Bases(blocks[1..], total + blocks[0].folder.UnpackSize())
  }

  function CountTrue(present: seq<bool>): (n: nat)
    ensures n <= |present|
  {
    if present == [] then 0 else (if present[0] then 1 else 0) + CountTrue(present[1..])
  }

  function CountFalse(present: seq<bool>): (n: nat)
    ensures n + CountTrue(present) == |present|
  {
    if present == [] then 0 else (if present[0] then 0 else 1) + CountFalse(present[1..])
  }

  /** The accumulators of the mapping loop. */
  datatype Mapping = Mapping(manifest: seq<(FileName, nat)>, emptyIndex: nat, n: nat, positions: seq<nat>,
                             files: seq<seq<FileEntry>>, out: seq<FileEntry>)

  predicate BitsFor(bits: Option<seq<byte>>, n: nat) {
    bits.Some? ==> n <= 8 * |bits.value|
  }

  predicate BitSet(bits: Option<seq<byte>>, i: nat)
    requires BitsFor(bits, i + 1)
  {
    bits.Some? && BitAt(bits.value, i)
  }

  predicate Fitting(m: Mapping, present: seq<bool>, entries: seq<Entry>, bases: seq<nat>, props: Props) {
    && |m.positions| == |m.files| == |bases|
    && m.n + CountTrue(present) == |entries|
    && BitsFor(props.emptyFile, m.emptyIndex + CountFalse(present))
    && BitsFor(props.anti, m.emptyIndex + CountFalse(present))
    && (forall i :: 0 <= i < |entries| ==> entries[i].block < |bases|)
  }

  /** A name without a stream: listed when it is an empty file and not a tombstone. */
  function MapEmpty(m: Mapping, name: FileName, props: Props): Mapping
    requires BitsFor(props.emptyFile, m.emptyIndex + 1) && BitsFor(props.anti, m.emptyIndex + 1)
  {
    var listed := BitSet(props.emptyFile, m.emptyIndex) && !BitSet(props.anti, m.emptyIndex);
    m.(manifest := if listed then m.manifest + [(name, 0)] else m.manifest, emptyIndex := m.emptyIndex + 1)
  }

  /** A name with a stream: the next substream, placed after the previous one of its folder. */
  function MapPresent(m: Mapping, name: FileName, e: Entry, bases: seq<nat>): Mapping
    requires |m.positions| == |m.files| == |bases| && e.block < |bases|
  {
    var offset := m.positions[e.block];
    Mapping(m.manifest + [(name, e.length)], m.emptyIndex, m.n + 1,
            m.positions[e.block := offset + e.length],
            m.files[e.block := m.files[e.block] + [FileEntry(name, offset, e.length, e.crc)]],
            m.out + [FileEntry(name, bases[e.block] + offset, e.length, e.crc)])
  }

  function MapFrom(m: Mapping, names: seq<FileName>, present: seq<bool>, entries: seq<Entry>, bases: seq<nat>,
                   props: Props): (r: Mapping)
    requires |names| == |present| && Fitting(m, present, entries, bases, props)
    ensures |r.positions| == |r.files| == |bases| && r.n == |entries|
    decreases |names|
  {
    if names == [] then m
    else if present[0] then
      MapFrom(MapPresent(m, names[0], entries[m.n], bases), names[1..], present[1..], entries, bases, props)
    else MapFrom(MapEmpty(m, names[0], props), names[1..], present[1..], entries, bases, props)
  }

  /** What the file section yields: the named regular files, the files with their global offsets, and
      the files of each folder. */
  datatype FileInfo = FileInfo(manifest: seq<(FileName, nat)>, out: seq<FileEntry>, files: seq<seq<FileEntry>>)

  function MapFiles(blocks: seq<Block>, count: nat, props: Props): Result<FileInfo, Reason>
    requires |props.present| == count
  {
    var entries := Entries(blocks, 0);
    if props.names.None? || |props.names.value| != count || CountTrue(props.present) != |entries| then
      Err(FileMappingUnavailable)
    else
      var required := (CountFalse(props.present) + 7) / 8;
      if (props.emptyFile.Some? && |props.emptyFile.value| != required)
         || (props.anti.Some? && |props.anti.value| != required) then Err(InvalidEmptyFileProperties)
      else
        var start := Mapping([], 0, 0, seq(|blocks|, i => 0), seq(|blocks|, i => []), []);
        var m := MapFrom(start, props.names.value, props.present, entries, Bases(blocks, 0), props);
        if exists b :: 0 <= b < |blocks| && m.positions[b] != blocks[b].folder.UnpackSize() then
            Err(UnpackSizesMismatch)
        else Ok(FileInfo(m.manifest, m.out, m.files))
  }

  function FileInfoAt(d: seq<byte>, pos: nat, blocks: seq<Block>): Parsed<FileInfo> {
    var (count, p) :- NumAt(d, pos);
    if count < 1 || count > 10000 then Fail(InvalidFileCount)
    else
      var (props, q) :- PropsAt(d, p, count, Props(None, seq(count, i => true), None, None));
      match MapFiles(blocks, count, props)
      case Err(e) => Fail(e)
      case Ok(info) => Got(info, q)
  }

  // ----- what the mapping conserves

  /** A present name with its substream. */
  datatype Named = Named(name: FileName, e: Entry)

  /** The present names, in order, each with the next substream. */
  function Pairing(names: seq<FileName>, present: seq<bool>, entries: seq<Entry>): seq<Named>
    requires |names| == |present| && CountTrue(present) == |entries|
    decreases |names|
  {
    if names == [] then []
    else if present[0] then [Named(names[0], entries[0])] + Pairing(names[1..], present[1..], entries[1..])
    else Pairing(names[1..], present[1..], entries)
  }

  /** The pairs that belong to folder `b`. */
  function Selected(pairs: seq<Named>, b: nat): seq<Named> {
    if pairs == [] then []
    else
      Selected(pairs[..|pairs| - 1], b)
        + (if pairs[|pairs| - 1].e.block == b then [pairs[|pairs| - 1]] else [])
  }

  function PairsOf(files: seq<FileEntry>, b: nat): (r: seq<Named>)
    ensures |r| == |files|
  {
    seq(|files|, i requires 0 <= i < |files| => Named(files[i].name, Entry(b, files[i].length, files[i].crc)))
  }

  /** Every folder's files are its pairs, tiling the folder up to its position. */
  ghost predicate Laid(m: Mapping, done: seq<Named>) {
    && |m.positions| == |m.files|
    && forall b :: 0 <= b < |m.files| ==>
      PairsOf(m.files[b], b) == Selected(done, b) && Tile(m.files[b], 0, m.positions[b])
  }

  lemma {:induction false} TileSnoc(files: seq<FileEntry>, from: nat, to: nat, f: FileEntry)
    requires Tile(files, from, to) && f.offset == to
    ensures Tile(files + [f], from, to + f.length)
  {
    if files == [] {
      assert (files + [f])[1..] == [];
    } else {
      assert (files + [f])[1..] == files[1..] + [f];
      TileSnoc(files[1..], from + files[0].length, to, f);
    }
  }

  lemma PresentLays(m: Mapping, done: seq<Named>, name: FileName, e: Entry, bases: seq<nat>)
    requires |m.positions| == |m.files| == |bases| && e.block < |bases| && Laid(m, done)
    ensures Laid(MapPresent(m, name, e, bases), done + [Named(name, e)])
  {
    var m' := MapPresent(m, name, e, bases);
    var f := FileEntry(name, m.positions[e.block], e.length, e.crc);
    var all := done + [Named(name, e)];
    assert all[..|done|] == done;
    forall b | 0 <= b < |m'.files|
      ensures PairsOf(m'.files[b], b) == Selected(all, b) && Tile(m'.files[b], 0, m'.positions[b])
    {
      if b == e.block {
        TileSnoc(m.files[b], 0, m.positions[b], f);
        assert PairsOf(m.files[b] + [f], b) == PairsOf(m.files[b], b) + [Named(name, e)];
      }
    }
  }

  lemma {:induction false} MappingLays(m: Mapping, done: seq<Named>, names: seq<FileName>, present: seq<bool>,
                                       entries: seq<Entry>, bases: seq<nat>, props: Props)
    requires |names| == |present| && Fitting(m, present, entries, bases, props) && Laid(m, done)
    ensures Laid(MapFrom(m, names, present, entries, bases, props), done + Pairing(names, present, entries[m.n..]))
    decreases |names|
  {
    if names == [] {
      assert done + [] == done;
    } else if present[0] {
      var e := entries[m.n];
      PresentLays(m, done, names[0], e, bases);
      MappingLays(MapPresent(m, names[0], e, bases), done + [Named(names[0], e)], names[1..], present[1..], entries,
                  bases, props);
      assert entries[m.n..][1..] == entries[m.n + 1..];
      assert done + [Named(names[0], e)] + Pairing(names[1..], present[1..], entries[m.n + 1..])
          == done + Pairing(names, present, entries[m.n..]);
    } else {
      MappingLays(MapEmpty(m, names[0], props), done, names[1..], present[1..], entries, bases, props);
    }
  }

  function EntriesOf(pairs: seq<Named>): (r: seq<Entry>)
    ensures |r| == |pairs|
    ensures forall i :: 0 <= i < |r| ==> r[i] == pairs[i].e
  {
    seq(|pairs|, i requires 0 <= i < |pairs| => pairs[i].e)
  }

  function Chosen(entries: seq<Entry>, b: nat): seq<Entry> {
    if entries == [] then [] else (if entries[0].block == b then [entries[0]] else []) + Chosen(entries[1..], b)
  }

  lemma {:induction false} ChosenAppend(x: seq<Entry>, y: seq<Entry>, b: nat)
    ensures Chosen(x + y, b) == Chosen(x, b) + Chosen(y, b)
  {
    if x == [] {
      assert x + y == y;
    } else {
      assert (x + y)[1..] == x[1..] + y;
      ChosenAppend(x[1..], y, b);
      var head := if x[0].block == b then [x[0]] else [];
      assert head + (Chosen(x[1..], b) + Chosen(y, b)) == head + Chosen(x[1..], b) + Chosen(y, b);
    }
  }

  lemma {:induction false} SelectedEntries(pairs: seq<Named>, b: nat)
    ensures EntriesOf(Selected(pairs, b)) == Chosen(EntriesOf(pairs), b)
  {
    if pairs != [] {
      var n := |pairs| - 1;
      SelectedEntries(pairs[..n], b);
      assert EntriesOf(pairs) == EntriesOf(pairs[..n]) + [pairs[n].e];
      ChosenAppend(EntriesOf(pairs[..n]), [pairs[n].e], b);
      assert Chosen([pairs[n].e], b) == if pairs[n].e.block == b then [pairs[n].e] else [];
    }
  }

  lemma {:induction false} PairingEntries(names: seq<FileName>, present: seq<bool>, entries: seq<Entry>)
    requires |names| == |present| && CountTrue(present) == |entries|
    ensures EntriesOf(Pairing(names, present, entries)) == entries
    decreases |names|
  {
    if names != [] {
      if present[0] {
        PairingEntries(names[1..], present[1..], entries[1..]);
      } else {
        PairingEntries(names[1..], present[1..], entries);
      }
    }
  }

  lemma {:induction false} ChosenBlock(entries: seq<Entry>, k: nat, b: nat)
    requires forall i :: 0 <= i < |entries| ==> entries[i].block == k
    ensures Chosen(entries, b) == if b == k then entries else []
  {
    if entries != [] {
      ChosenBlock(entries[1..], k, b);
    }
  }

  lemma {:induction false} ChosenEntries(blocks: seq<Block>, k: nat, b: nat)
    ensures Chosen(Entries(blocks, k), b) ==
      if k <= b < k + |blocks| then BlockEntries(b, blocks[b - k].subSizes, blocks[b - k].subCrcs) else []
    decreases |blocks|
  {
    hide BlockEntries, Chosen;
    if blocks == [] {
      ChosenBlock([], k, b);
    } else {
      var first := BlockEntries(k, blocks[0].subSizes, blocks[0].subCrcs);
      ChosenAppend(first, Entries(blocks[1..], k + 1), b);
      ChosenBlock(first, k, b);
      ChosenEntries(blocks[1..], k + 1, b);
    }
  }

  function LengthsOf(files: seq<FileEntry>): (r: seq<nat>)
    ensures |r| == |files|
  {
    if files == [] then [] else [files[0].length] + LengthsOf(files[1..])
  }

  function CrcsOf(files: seq<FileEntry>): (r: seq<Option<nat>>)
    ensures |r| == |files|
  {
    if files == [] then [] else [files[0].crc] + CrcsOf(files[1..])
  }

  lemma {:induction false} BlockEntriesBack(files: seq<FileEntry>, b: nat, sizes: seq<nat>, crcs: seq<Option<nat>>)
    requires |sizes| == |crcs| && EntriesOf(PairsOf(files, b)) == BlockEntries(b, sizes, crcs)
    ensures LengthsOf(files) == sizes && CrcsOf(files) == crcs
    decreases |sizes|
  {
    var es := EntriesOf(PairsOf(files, b));
    if sizes == [] {
      assert |es| == 0;
    } else {
      assert es[0] == Entry(b, sizes[0], crcs[0]);
      assert EntriesOf(PairsOf(files[1..], b)) == es[1..];
      BlockEntriesBack(files[1..], b, sizes[1..], crcs[1..]);
    }
  }

  lemma {:induction false} TileSum(files: seq<FileEntry>, from: nat, to: nat)
    requires Tile(files, from, to)
    ensures to == from + Sum(LengthsOf(files))
  {
    if files != [] {
      TileSum(files[1..], from + files[0].length, to);
    }
  }

  lemma {:induction false} ConservedAt(blocks: seq<Block>, pos: nat, i: nat)
    requires Conserved(blocks, pos) && i < |blocks|
    ensures Accounted(blocks[i].folder, blocks[i].subSizes, blocks[i].subCrcs)
  {
    if i > 0 {
      ConservedAt(blocks[1..], pos + blocks[0].packSize, i - 1);
    }
  }

  /** Folder `b` gets its own substreams' sizes and CRCs, in order, tiling its whole output, under the
      names that the present-bits pair them with. */
  ghost predicate Mapped(files: seq<FileEntry>, block: Block, b: nat, pairs: seq<Named>) {
    && Tile(files, 0, block.folder.UnpackSize())
    && LengthsOf(files) == block.subSizes && CrcsOf(files) == block.subCrcs
    && PairsOf(files, b) == Selected(pairs, b)
  }

  /** For conserved folders the size check at the end of the mapping can never fail, and the mapping
      gives every folder exactly its files. */
  lemma MapFilesConserves(blocks: seq<Block>, pos: nat, count: nat, props: Props)
    requires |props.present| == count && Conserved(blocks, pos)
    ensures MapFiles(blocks, count, props) != Err(UnpackSizesMismatch)
    ensures MapFiles(blocks, count, props).Ok? ==>
      var files := MapFiles(blocks, count, props).value.files;
      && |files| == |blocks|
      && props.names.Some? && |props.names.value| == count && CountTrue(props.present) == |Entries(blocks, 0)|
      && forall b :: 0 <= b < |blocks| ==>
        Mapped(files[b], blocks[b], b, Pairing(props.names.value, props.present, Entries(blocks, 0)))
  {
    hide Entries, Conserved, Mapped, Laid, Pairing, Selected, Tile, CountTrue, CountFalse, Bases;
    var entries := Entries(blocks, 0);
    var required := (CountFalse(props.present) + 7) / 8;
    if props.names.Some? && |props.names.value| == count && CountTrue(props.present) == |entries|
      && (props.emptyFile.Some? ==> |props.emptyFile.value| == required)
      && (props.anti.Some? ==> |props.anti.value| == required)
    {
      var start := Mapping([], 0, 0, seq(|blocks|, i => 0), seq(|blocks|, i => []), []);
      var names, bases := props.names.value, Bases(blocks, 0);
      var pairs := Pairing(names, props.present, entries);
      StartLaid(start);
      MappingLays(start, [], names, props.present, entries, bases, props);
      assert entries[0..] == entries && [] + pairs == pairs;
      var m := MapFrom(start, names, props.present, entries, bases, props);
      forall b | 0 <= b < |blocks|
        ensures m.positions[b] == blocks[b].folder.UnpackSize() && Mapped(m.files[b], blocks[b], b, pairs)
      {
        FolderMapped(blocks, pos, b, m, names, props.present, entries);
      }
    }
  }

  lemma StartLaid(m: Mapping)
    requires |m.positions| == |m.files|
    requires forall b :: 0 <= b < |m.files| ==> m.files[b] == [] && m.positions[b] == 0
    ensures Laid(m, [])
  {
  }

  lemma FolderMapped(blocks: seq<Block>, pos: nat, b: nat, m: Mapping, names: seq<FileName>, present: seq<bool>,
                     entries: seq<Entry>)
    requires Conserved(blocks, pos) && b < |blocks| == |m.files|
    requires |names| == |present| && entries == Entries(blocks, 0) && CountTrue(present) == |entries|
    requires Laid(m, Pairing(names, present, entries))
    ensures m.positions[b] == blocks[b].folder.UnpackSize()
    ensures Mapped(m.files[b], blocks[b], b, Pairing(names, present, entries))
  {
    var pairs := Pairing(names, present, entries);
    ConservedAt(blocks, pos, b);
    SelectedEntries(pairs, b);
    PairingEntries(names, present, entries);
    ChosenEntries(blocks, 0, b);
    BlockEntriesBack(m.files[b], b, blocks[b].subSizes, blocks[b].subCrcs);
    TileSum(m.files[b], 0, m.positions[b]);
  }
}
