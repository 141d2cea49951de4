/** The header reader as it runs: one cursor moving over the bytes. Every method reads exactly what
    the corresponding parser function of SevenZipStreams describes. */
module SevenZipReader {
  import opened Bits
  import opened Wrappers
  import opened SevenZipNumber
  import opened SevenZipStreams

  /** Items read so far, followed by what the rest of the list gives. */
  function Prepend<T>(acc: seq<T>, rest: Parsed<seq<T>>): Parsed<seq<T>> {
    match rest
    case Fail(e) => Parsed<seq<T>>.Fail(e)
    case Got(v, p) => Got(acc + v, p)
  }

  lemma PrependNil<T>(rest: Parsed<seq<T>>)
    ensures Prepend([], rest) == rest
  {
    if rest.Got? {
      assert [] + rest.value == rest.value;
    }
  }

  lemma PrependStep<T>(acc: seq<T>, v: T, rest: Parsed<seq<T>>)
    ensures Prepend(acc + [v], rest) == Prepend(acc, Prepend([v], rest))
  {
    if rest.Got? {
      assert acc + [v] + rest.value == acc + ([v] + rest.value);
    }
  }

  lemma PrependEnd<T>(acc: seq<T>, pos: nat)
    ensures Prepend(acc, Got([], pos)) == Got(acc, pos)
  {
    assert acc + [] == acc;
  }

  method ReadNums(p: Parse, count: nat) returns (r: Result<seq<nat>, Reason>)
    modifies p
    ensures p.Agrees(r, NumsAt(p.data, old(p.pos), count))
  {
    var out: seq<nat> := [];
    PrependNil(NumsAt(p.data, p.pos, count));
    for i := 0 to count
      invariant |out| == i
      invariant NumsAt(p.data, old(p.pos), count) == Prepend(out, NumsAt(p.data, p.pos, count - i))
    {
      var v :- p.Num();
      PrependStep(out, v, NumsAt(p.data, p.pos, count - (i + 1)));
      out := out + [v];
    }
    PrependEnd(out, p.pos);
    return Ok(out);
  }

  method ReadCrcs(p: Parse, defined: seq<bool>) returns (r: Result<seq<Option<nat>>, Reason>)
    modifies p
    ensures p.Agrees(r, CrcsAt(p.data, old(p.pos), defined))
  {
    var out: seq<Option<nat>> := [];
    PrependNil(CrcsAt(p.data, p.pos, defined));
    for i := 0 to |defined|
      invariant |out| == i
      invariant CrcsAt(p.data, old(p.pos), defined) == Prepend(out, CrcsAt(p.data, p.pos, defined[i..]))
    {
      if defined[i] {
        var bytes :- p.Raw(4);
        PrependStep(out, Some(LittleEndian(bytes)), CrcsAt(p.data, p.pos, defined[i + 1..]));
        out := out + [Some(LittleEndian(bytes))];
      } else {
        PrependStep(out, None, CrcsAt(p.data, p.pos, defined[i + 1..]));
        out := out + [None];
      }
      assert defined[i..][1..] == defined[i + 1..];
    }
    PrependEnd(out, p.pos);
    return Ok(out);
  }

  method ReadDigests(p: Parse, count: nat) returns (r: Result<seq<Option<nat>>, Reason>)
    modifies p
    ensures p.Agrees(r, DigestsAt(p.data, old(p.pos), count))
  {
    if count > 10000 {
      return Err(TooManySubstreams);
    }
    var all :- p.U8();
    var defined := seq(count, i => true);
    if all == 0 {
      var bits :- p.Raw((count + 7) / 8);
      defined := BitVector(bits, count);
    }
    r := ReadCrcs(p, defined);
  }

  method ReadCoder(p: Parse) returns (r: Result<Coder, Reason>)
    modifies p
    ensures p.Agrees(r, CoderAt(p.data, old(p.pos)))
  {
    hide And, NumAt;
    var flags :- p.U8();
    if And(flags, 0xD0) != 0 {
      return Err(UnsupportedCoderGraph);
    }
    var codec :- p.Raw(And(flags, 0x0F));
    var props: seq<byte> := [];
    if And(flags, 0x20) != 0 {
      var n :- p.Num();
      props :- p.Raw(n);
    }
    if |props| > 64 {
      return Err(InvalidCoderProperties);
    }
    return Ok(Coder(codec, props));
  }

  method ReadCoders(p: Parse, count: nat) returns (r: Result<seq<Coder>, Reason>)
    modifies p
    ensures p.Agrees(r, CodersAt(p.data, old(p.pos), count))
  {
    hide CoderAt;
    var coders: seq<Coder> := [];
    PrependNil(CodersAt(p.data, p.pos, count));
    for i := 0 to count
      invariant |coders| == i
      invariant CodersAt(p.data, old(p.pos), count) == Prepend(coders, CodersAt(p.data, p.pos, count - i))
    {
      var c :- ReadCoder(p);
      PrependStep(coders, c, CodersAt(p.data, p.pos, count - (i + 1)));
      coders := coders + [c];
    }
    PrependEnd(coders, p.pos);
    return Ok(coders);
  }

  method ReadBinds(p: Parse, count: nat) returns (r: Result<seq<(nat, nat)>, Reason>)
    modifies p
    ensures p.Agrees(r, BindsAt(p.data, old(p.pos), count))
  {
    hide NumAt;
    var binds: seq<(nat, nat)> := [];
    PrependNil(BindsAt(p.data, p.pos, count));
    for i := 0 to count
      invariant |binds| == i
      invariant BindsAt(p.data, old(p.pos), count) == Prepend(binds, BindsAt(p.data, p.pos, count - i))
    {
      var a :- p.Num();
      var b :- p.Num();
      PrependStep(binds, (a, b), BindsAt(p.data, p.pos, count - (i + 1)));
      binds := binds + [(a, b)];
    }
    PrependEnd(binds, p.pos);
    return Ok(binds);
  }

  method ReadFolder(p: Parse) returns (r: Result<Folder, Reason>)
    modifies p
    ensures p.Agrees(r, FolderAt(p.data, old(p.pos)))
  {
    hide NumAt, CodersAt, BindsAt;
    var count :- p.Num();
    if count < 1 || count > 4 {
      return Err(UnsupportedFolder);
    }
    var coders :- ReadCoders(p, count);
    var binds :- ReadBinds(p, count - 1);
    return Ok(Folder(coders, binds, [], None));
  }

  method ReadFolders(p: Parse, count: nat) returns (r: Result<seq<Folder>, Reason>)
    modifies p
    ensures p.Agrees(r, FoldersAt(p.data, old(p.pos), count))
  {
    hide FolderAt;
    var folders: seq<Folder> := [];
    PrependNil(FoldersAt(p.data, p.pos, count));
    for i := 0 to count
      invariant |folders| == i
      invariant FoldersAt(p.data, old(p.pos), count) == Prepend(folders, FoldersAt(p.data, p.pos, count - i))
    {
      var f :- ReadFolder(p);
      PrependStep(folders, f, FoldersAt(p.data, p.pos, count - (i + 1)));
      folders := folders + [f];
    }
    PrependEnd(folders, p.pos);
    return Ok(folders);
  }

  method ReadSizes(p: Parse, folders: seq<Folder>) returns (r: Result<seq<Folder>, Reason>)
    modifies p
    ensures p.Agrees(r, SizesAt(p.data, old(p.pos), folders))
  {
    hide NumsAt;
    var out: seq<Folder> := [];
    PrependNil(SizesAt(p.data, p.pos, folders));
    for i := 0 to |folders|
      invariant |out| == i
      invariant SizesAt(p.data, old(p.pos), folders) == Prepend(out, SizesAt(p.data, p.pos, folders[i..]))
    {
      var sizes :- ReadNums(p, |folders[i].coders|);
      PrependStep(out, folders[i].(unpackSizes := sizes), SizesAt(p.data, p.pos, folders[i + 1..]));
      out := out + [folders[i].(unpackSizes := sizes)];
      assert folders[i..][1..] == folders[i + 1..];
    }
    PrependEnd(out, p.pos);
    return Ok(out);
  }

  method ReadOptionalDigests(p: Parse, count: nat, otherwise: Reason) returns (r: Result<seq<Option<nat>>, Reason>)
    modifies p
    ensures p.Agrees(r, OptionalDigestsAt(p.data, old(p.pos), count, otherwise))
  {
    hide DigestsAt;
    var crcs: seq<Option<nat>> := seq(count, i => None);
    var next :- p.U8();
    if next == 10 {
      crcs :- ReadDigests(p, count);
      next :- p.U8();
    }
    if next != 0 {
      return Err(otherwise);
    }
    return Ok(crcs);
  }

  method ReadPackInfo(p: Parse) returns (r: Result<(nat, seq<nat>), Reason>)
    modifies p
    ensures p.Agrees(r, PackInfoAt(p.data, old(p.pos)))
  {
    hide NumAt, NumsAt, OptionalDigestsAt;
    var packPos :- p.Num();
    var count :- p.Num();
    if count < 1 || count > 10000 {
      return Err(InvalidPackedStreamCount);
    }
    var _ :- p.Tag(9);
    var sizes :- ReadNums(p, count);
    var _ :- ReadOptionalDigests(p, count, UnsupportedPackInfo);
    return Ok((packPos, sizes));
  }

  method ReadUnpackInfo(p: Parse) returns (r: Result<seq<Folder>, Reason>)
    modifies p
    ensures p.Agrees(r, UnpackInfoAt(p.data, old(p.pos)))
  {
    hide NumAt, FoldersAt, SizesAt, OptionalDigestsAt;
    var _ :- p.Tag(11);
    var count :- p.Num();
    if count < 1 || count > 10000 {
      return Err(MultipleOrExternalFolders);
    }
    var external :- p.U8();
    if external != 0 {
      return Err(MultipleOrExternalFolders);
    }
    var folders :- ReadFolders(p, count);
    var _ :- p.Tag(12);
    var sized :- ReadSizes(p, folders);
    var crcs :- ReadOptionalDigests(p, count, UnsupportedUnpackInfo);
    return Ok(WithCrcs(sized, crcs));
  }

  function After(acc: seq<seq<nat>>, rest: Option<seq<seq<nat>>>): Option<seq<seq<nat>>> {
    match rest
    case None => None
    case Some(v) => Some(acc + v)
  }

  lemma AfterStep(acc: seq<seq<nat>>, v: seq<nat>, rest: Option<seq<seq<nat>>>)
    ensures After(acc + [v], rest) == After(acc, After([v], rest))
    ensures After([], rest) == rest
  {
    if rest.Some? {
      assert acc + [v] + rest.value == acc + ([v] + rest.value);
      assert [] + rest.value == rest.value;
    }
  }

  /** The cursor loop that hands the written lengths to the folders. */
  method DistributeSizes(lengths: seq<nat>, folders: seq<Folder>, counts: seq<nat>) returns (r: Option<seq<seq<nat>>>)
    requires |counts| == |folders|
    ensures r == Distribute(lengths, 0, folders, counts)
  {
    hide Sum, Slice;
    var sizes: seq<seq<nat>> := [];
    var cursor: nat := 0;
    assert folders[0..] == folders && counts[0..] == counts;
    AfterStep([], [], Distribute(lengths, 0, folders, counts));
    for i := 0 to |folders|
      invariant Distribute(lengths, 0, folders, counts)
          == After(sizes, Distribute(lengths, cursor, folders[i..], counts[i..]))
    {
      assert folders[i..][1..] == folders[i + 1..] && counts[i..][1..] == counts[i + 1..];
      var leading := Slice<nat>(lengths, cursor, cursor + Pred(counts[i]));
      cursor := cursor + Pred(counts[i]);
      if folders[i].UnpackSize() < Sum(leading) {
        return None;
      }
      var all := leading + [folders[i].UnpackSize() - Sum(leading)];
      AfterStep(sizes, all, Distribute(lengths, cursor, folders[i + 1..], counts[i + 1..]));
      sizes := sizes + [all];
    }
    assert sizes + [] == sizes;
    return Some(sizes);
  }

  lemma JoinStep<T>(acc: seq<T>, v: T, rest: seq<T>)
    ensures acc + [v] + rest == acc + ([v] + rest)
  {
  }

  lemma AssignStep(extra: seq<Option<nat>>, cursor: nat, folders: seq<Folder>, counts: seq<nat>, i: nat)
    requires i < |folders| == |counts|
    ensures AssignCrcs(extra, cursor, folders[i..], counts[i..]) ==
      if Inherits(folders[i], counts[i]) then
        [[folders[i].folderCrc]] + AssignCrcs(extra, cursor, folders[i + 1..], counts[i + 1..])
      else
        [Slice<Option<nat>>(extra, cursor, cursor + counts[i])]
          + AssignCrcs(extra, cursor + counts[i], folders[i + 1..], counts[i + 1..])
  {
    hide Slice, Inherits;
    assert folders[i..][1..] == folders[i + 1..] && counts[i..][1..] == counts[i + 1..];
  }

  /** The cursor loop that hands the listed CRCs to the folders that do not inherit theirs. */
  method DistributeCrcs(extra: seq<Option<nat>>, folders: seq<Folder>,
                        counts: seq<nat>) returns (r: seq<seq<Option<nat>>>)
    requires |counts| == |folders|
    ensures r == AssignCrcs(extra, 0, folders, counts)
  {
    hide Slice, AssignCrcs, Inherits;
    r := [];
    var cursor: nat := 0;
    assert folders[0..] == folders && counts[0..] == counts;
    for i := 0 to |folders|
      invariant |r| == i
      invariant AssignCrcs(extra, 0, folders, counts) == r + AssignCrcs(extra, cursor, folders[i..], counts[i..])
    {
      AssignStep(extra, cursor, folders, counts, i);
      var crcs := [folders[i].folderCrc];
      if !Inherits(folders[i], counts[i]) {
        crcs := Slice<Option<nat>>(extra, cursor, cursor + counts[i]);
        cursor := cursor + counts[i];
      }
      JoinStep(r, crcs, AssignCrcs(extra, cursor, folders[i + 1..], counts[i + 1..]));
      r := r + [crcs];
    }
  }

  method ReadSubCrcs(p: Parse, folders: seq<Folder>, counts: seq<nat>, lengths: seq<nat>, tag: byte)
    returns (r: Result<Subs, Reason>)
    requires |counts| == |folders|
    modifies p
    ensures p.Agrees(r, SubCrcsAt(p.data, old(p.pos), folders, counts, lengths, tag))
  {
    hide DigestsAt, Distribute, AssignCrcs;
    var sizes := DistributeSizes(lengths, folders, counts);
    if sizes.None? {
      return Err(InvalidSubstreamSizes);
    }
    var needed := NeededCrcs(folders, counts);
    var extra: seq<Option<nat>> := seq(needed, i => None);
    var next := tag;
    if next == 10 {
      extra :- ReadDigests(p, needed);
      next :- p.U8();
    }
    if next != 0 {
      return Err(UnsupportedSubstreamInfo);
    }
    var crcs := DistributeCrcs(extra, folders, counts);
    return Ok(Subs(sizes.value, crcs));
  }

  method ReadSubStreams(p: Parse, folders: seq<Folder>) returns (r: Result<Subs, Reason>)
    modifies p
    ensures p.Agrees(r, SubStreamsAt(p.data, old(p.pos), folders))
  {
    hide NumsAt, SubCrcsAt, ValidCounts;
    var counts := seq(|folders|, i => 1);
    var tag :- p.U8();
    if tag == 13 {
      counts :- ReadNums(p, |folders|);
      tag :- p.U8();
    }
    if !ValidCounts(counts) {
      return Err(InvalidSubstreamCount);
    }
    var lengths: seq<nat> := [];
    if tag == 9 {
      lengths :- ReadNums(p, LengthCount(counts));
      tag :- p.U8();
    } else if exists i :: 0 <= i < |counts| && counts[i] > 1 {
      return Err(MissingSubstreamSizes);
    }
    r := ReadSubCrcs(p, folders, counts, lengths, tag);
  }

  method ReadSection(p: Parse, st: Progress, tag: byte) returns (r: Result<Progress, Reason>)
    requires Shaped(st)
    modifies p
    ensures p.Agrees(r, SectionAt(p.data, old(p.pos), st, tag))
  {
    hide PackInfoAt, UnpackInfoAt, SubStreamsAt;
    if tag == 6 {
      if st.pack.Some? {
        return Err(DuplicatePackInfo);
      }
      var pack :- ReadPackInfo(p);
      return Ok(st.(pack := Some(pack)));
    } else if tag == 7 {
      if st.folders.Some? {
        return Err(DuplicateUnpackInfo);
      }
      var folders :- ReadUnpackInfo(p);
      return Ok(st.(folders := Some(folders)));
    } else if tag == 8 {
      if st.folders.None? || st.subs.Some? {
        return Err(MisorderedStreams);
      }
      var subs :- ReadSubStreams(p, st.folders.value);
      return Ok(st.(subs := Some(subs)));
    }
    return Err(UnknownStreamInfo);
  }

  /** The whole stream section: what it returns is what StreamInfoAt says, hence conserved. */
  method ReadStreamInfo(p: Parse) returns (r: Result<seq<Block>, Reason>)
    modifies p
    ensures p.Agrees(r, StreamInfoAt(p.data, old(p.pos)))
    ensures r.Ok? && r.value != [] ==> Conserved(r.value, r.value[0].packPos)
  {
    hide SectionAt, Assemble, Conserved;
    if StreamInfoAt(p.data, p.pos).Got? {
      StreamInfoConserves(p.data, p.pos);
    }
    var st := Progress(None, None, None);
    while true
      invariant Shaped(st)
      invariant SectionsAt(p.data, old(p.pos), Progress(None, None, None)) == SectionsAt(p.data, p.pos, st)
      decreases |p.data| - p.pos
    {
      var tag :- p.U8();
      if tag == 0 {
        break;
      }
      st :- ReadSection(p, st, tag);
    }
    var blocks :- Assemble(st);
    return Ok(blocks);
  }
}
