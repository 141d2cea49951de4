/** Reading a complete 7z header: streams, then files. */
module SevenZipHeader {
  import opened Bits
  import opened Wrappers
  import opened ArchiveFiles
  import opened SevenZipNumber
  import opened SevenZipStreams
  import opened SevenZipReader
  import opened SevenZipFiles

  function HeaderAt(d: seq<byte>): Parsed<(seq<Block>, FileInfo)> {
    var (_, p) :- TagAt(d, 0, 1);
    var (tag, q) :- U8At(d, p);
    if tag != 4 then Fail(UnsupportedHeaderProperties)
    else
      var (blocks, s) :- StreamInfoAt(d, q);
      var (_, t) :- TagAt(d, s, 5);
      var (info, u) :- FileInfoAt(d, t, blocks);
      var (_, v) :- TagAt(d, u, 0);
      if v != |d| then Fail(TrailingHeaderData) else Got((blocks, info), v)
  }

  /** What every accepted header conserves: consecutive packed ranges, substream sizes adding up to
      their folder, and files that tile each folder with exactly those sizes and CRCs. */
  ghost predicate HeaderConserved(blocks: seq<Block>, info: FileInfo) {
    && (blocks != [] ==> Conserved(blocks, blocks[0].packPos))
    && |info.files| == |blocks|
    && exists pairs :: EntriesOf(pairs) == Entries(blocks, 0)
         && forall b :: 0 <= b < |blocks| ==> Mapped(info.files[b], blocks[b], b, pairs)
  }

  /** Conservation, for every header that is accepted. */
  lemma HeaderConserves(d: seq<byte>)
    requires HeaderAt(d).Got?
    ensures HeaderConserved(HeaderAt(d).value.0, HeaderAt(d).value.1)
  {
    hide StreamInfoAt, Conserved, Mapped, Entries, FileInfoAt;
    var q := U8At(d, TagAt(d, 0, 1).pos).pos;
    var s := StreamInfoAt(d, q);
    StreamInfoConserves(d, q);
    FilesConserve(d, TagAt(d, s.pos, 5).pos, s.value);
  }

  /** Whatever follows an accepted stream section, the size check after the mapping is never what
      rejects it. */
  lemma SizeCheckNeverFires(d: seq<byte>, pos: nat, filesPos: nat)
    requires StreamInfoAt(d, pos).Got?
    ensures FileInfoAt(d, filesPos, StreamInfoAt(d, pos).value) != Fail(UnpackSizesMismatch)
  {
    hide StreamInfoAt, Conserved, FileInfoAt;
    StreamInfoConserves(d, pos);
    FilesConserve(d, filesPos, StreamInfoAt(d, pos).value);
  }

  lemma FilesConserve(d: seq<byte>, pos: nat, blocks: seq<Block>)
    requires blocks != [] ==> Conserved(blocks, blocks[0].packPos)
    ensures FileInfoAt(d, pos, blocks) != Fail(UnpackSizesMismatch)
    ensures FileInfoAt(d, pos, blocks).Got? ==> HeaderConserved(blocks, FileInfoAt(d, pos, blocks).value)
  {
    hide Conserved, Mapped, Entries, MapFiles, PropsAt, NumAt, Pairing;
    var count := NumAt(d, pos);
    NumReasons(d, pos);
    if count.Got? && 1 <= count.value <= 10000 {
      var props := PropsAt(d, count.pos, count.value, Props(None, seq(count.value, i => true), None, None));
      PropsReasons(d, count.pos, count.value, Props(None, seq(count.value, i => true), None, None));
      if props.Got? {
        EmptyConserved();
        var from := if blocks == [] then 0 else blocks[0].packPos;
        MapFilesConserves(blocks, from, count.value, props.value);
        var r := MapFiles(blocks, count.value, props.value);
        if r.Ok? {
          var pairs := Pairing(props.value.names.value, props.value.present, Entries(blocks, 0));
          PairingEntries(props.value.names.value, props.value.present, Entries(blocks, 0));
          assert EntriesOf(pairs) == Entries(blocks, 0);
        }
      }
    }
  }

  lemma EmptyConserved()
    ensures Conserved([], 0)
  {
  }

  // ----- none of the other parts rejects with the mapping's reason

  lemma NumReasons(d: seq<byte>, pos: nat)
    ensures NumAt(d, pos).Fail? ==> NumAt(d, pos).reason == Truncated
  {
  }

  lemma {:induction false} PropsReasons(d: seq<byte>, pos: nat, count: nat, st: Props)
    requires |st.present| == count
    ensures PropsAt(d, pos, count, st) != Fail(UnpackSizesMismatch)
    decreases |d| - pos
  {
    hide ValidUtf16, SplitNames, Units, BitAt;
    var tag := U8At(d, pos);
    if tag.Got? && tag.value != 0 {
      NumReasons(d, tag.pos);
      var length := NumAt(d, tag.pos);
      if length.Got? && length.value <= HEADER_LIMIT {
        var sub := RawAt(d, length.pos, length.value);
        if sub.Got? {
          var next := Property(tag.value, sub.value, count, st);
          if next.Ok? {
            PropsReasons(d, sub.pos, count, next.value);
          }
        }
      }
    }
  }

  // ----- the reader

  method ReadProps(p: Parse, count: nat) returns (r: Result<Props, Reason>)
    modifies p
    ensures p.Agrees(r, PropsAt(p.data, old(p.pos), count, Props(None, seq(count, i => true), None, None)))
  {
    hide NumAt, Property;
    var st := Props(None, seq(count, i => true), None, None);
    ghost var start := st;
    while true
      invariant |st.present| == count
      invariant PropsAt(p.data, old(p.pos), count, start) == PropsAt(p.data, p.pos, count, st)
      decreases |p.data| - p.pos
    {
      var tag :- p.U8();
      if tag == 0 {
        return Ok(st);
      }
      var length :- p.Num();
      if length > HEADER_LIMIT {
        return Err(FilePropertyTooLarge);
      }
      var sub :- p.Raw(length);
      st :- Property(tag, sub, count, st);
    }
  }

  /** The loop over the names: each present one takes the next substream of its folder. */
  method MapNames(names: seq<FileName>, blocks: seq<Block>, props: Props) returns (m: Mapping)
    requires |names| == |props.present| && CountTrue(props.present) == |Entries(blocks, 0)|
    requires BitsFor(props.emptyFile, CountFalse(props.present)) && BitsFor(props.anti, CountFalse(props.present))
    ensures m == MapFrom(Mapping([], 0, 0, seq(|blocks|, i => 0), seq(|blocks|, i => []), []), names, props.present,
                         Entries(blocks, 0), Bases(blocks, 0), props)
  {
    hide MapPresent, MapEmpty, Bases, BitSet;
    var entries, bases := Entries(blocks, 0), Bases(blocks, 0);
    m := Mapping([], 0, 0, seq(|blocks|, i => 0), seq(|blocks|, i => []), []);
    ghost var start := m;
    assert props.present[0..] == props.present && names[0..] == names;
    for i := 0 to |names|
      invariant Fitting(m, props.present[i..], entries, bases, props)
      invariant MapFrom(start, names, props.present, entries, bases, props)
             == MapFrom(m, names[i..], props.present[i..], entries, bases, props)
    {
      assert props.present[i..][1..] == props.present[i + 1..] && names[i..][1..] == names[i + 1..];
      MapKeepsShape(m, names[i], props.present[i..], entries, bases, props);
      if props.present[i] {
        m := MapPresent(m, names[i], entries[m.n], bases);
      } else {
        m := MapEmpty(m, names[i], props);
      }
    }
  }

  lemma MapKeepsShape(m: Mapping, name: FileName, present: seq<bool>, entries: seq<Entry>, bases: seq<nat>,
                      props: Props)
    requires present != [] && Fitting(m, present, entries, bases, props)
    ensures present[0] ==>
        m.n < |entries| && Fitting(MapPresent(m, name, entries[m.n], bases), present[1..], entries, bases, props)
    ensures !present[0] ==> (
      && BitsFor(props.emptyFile, m.emptyIndex + 1) && BitsFor(props.anti, m.emptyIndex + 1)
      && Fitting(MapEmpty(m, name, props), present[1..], entries, bases, props))
  {
  }

  method ReadFileInfo(p: Parse, blocks: seq<Block>) returns (r: Result<FileInfo, Reason>)
    modifies p
    ensures p.Agrees(r, FileInfoAt(p.data, old(p.pos), blocks))
  {
    hide NumAt, PropsAt, MapFrom, Bases, Entries;
    var count :- p.Num();
    if count < 1 || count > 10000 {
      return Err(InvalidFileCount);
    }
    var props :- ReadProps(p, count);
    var entries := Entries(blocks, 0);
    if props.names.None? || |props.names.value| != count || CountTrue(props.present) != |entries| {
      return Err(FileMappingUnavailable);
    }
    var required := (CountFalse(props.present) + 7) / 8;
    if (props.emptyFile.Some? && |props.emptyFile.value| != required)
       || (props.anti.Some? && |props.anti.value| != required)
    {
      return Err(InvalidEmptyFileProperties);
    }
    var m := MapNames(props.names.value, blocks, props);
    if exists b :: 0 <= b < |blocks| && m.positions[b] != blocks[b].folder.UnpackSize() {
      return Err(UnpackSizesMismatch);
    }
    return Ok(FileInfo(m.manifest, m.out, m.files));
  }

  /** The header reader: whatever it accepts is conserved. */
  method ReadHeader(data: seq<byte>) returns (r: Result<(seq<Block>, FileInfo), Reason>)
    ensures r.Ok? <==> HeaderAt(data).Got?
    ensures r.Ok? ==> r.value == HeaderAt(data).value && HeaderConserved(r.value.0, r.value.1)
    ensures r.Err? ==> r.error == HeaderAt(data).reason
  {
    hide StreamInfoAt, FileInfoAt, HeaderConserved, Conserved;
    if HeaderAt(data).Got? {
      HeaderConserves(data);
    }
    var p := new Parse(data);
    var _ :- p.Tag(1);
    var tag :- p.U8();
    if tag != 4 {
      return Err(UnsupportedHeaderProperties);
    }
    var blocks :- ReadStreamInfo(p);
    var _ :- p.Tag(5);
    var info :- ReadFileInfo(p, blocks);
    var _ :- p.Tag(0);
    if p.pos != |p.data| {
      return Err(TrailingHeaderData);
    }
    return Ok((blocks, info));
  }
}
