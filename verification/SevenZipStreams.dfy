/** The stream metadata of a 7z header: packed streams, folders and substreams, and what every
    accepted header conserves. */
module SevenZipStreams {
  import opened Bits
  import opened Wrappers
  import opened SevenZipNumber

  datatype Coder = Coder(codec: seq<byte>, props: seq<byte>)

  datatype Folder = Folder(coders: seq<Coder>, binds: seq<(nat, nat)>, unpackSizes: seq<nat>, folderCrc: Option<nat>) {
    /** The size of the folder's final output. */
    function UnpackSize(): nat {
      if unpackSizes == [] then 0 else unpackSizes[|unpackSizes| - 1]
    }
  }

  /** A folder placed in the archive, with the sizes and CRCs of its substreams. */
  datatype Block = Block(folder: Folder, packPos: nat, packSize: nat, subSizes: seq<nat>, subCrcs: seq<Option<nat>>)

  datatype Subs = Subs(sizes: seq<seq<nat>>, crcs: seq<seq<Option<nat>>>)

  /** What the sections read so far have said. */
  datatype Progress = Progress(pack: Option<(nat, seq<nat>)>, folders: Option<seq<Folder>>, subs: Option<Subs>)

  // ----- lists

  function NumsAt(d: seq<byte>, pos: nat, count: nat): (r: Parsed<seq<nat>>)
    ensures r.Got? ==> pos <= r.pos && |r.value| == count
    ensures r.Got? && pos <= |d| ==> r.pos <= |d|
    decreases count
  {
    if count == 0 then Got([], pos)
    else
      var (v, p) :- NumAt(d, pos);
      var (rest, q) :- NumsAt(d, p, count - 1);
      Got([v] + rest, q)
  }

  function CrcAt(d: seq<byte>, pos: nat): (r: Parsed<nat>)
    ensures r.Got? ==> pos < r.pos <= |d|
  {
    var (bytes, p) :- RawAt(d, pos, 4);
    Got(LittleEndian(bytes), p)
  }

  function CrcsAt(d: seq<byte>, pos: nat, defined: seq<bool>): (r: Parsed<seq<Option<nat>>>)
    ensures r.Got? ==> pos <= r.pos && |r.value| == |defined|
    ensures r.Got? && pos <= |d| ==> r.pos <= |d|
    decreases |defined|
  {
    if defined == [] then Got([], pos)
    else if defined[0] then
      var (v, p) :- CrcAt(d, pos);
      var (rest, q) :- CrcsAt(d, p, defined[1..]);
      Got([Some(v)] + rest, q)
    else
      var (rest, q) :- CrcsAt(d, pos, defined[1..]);
      Got([None] + rest, q)
  }

  /** Bit `i` of a bit vector, most significant bit first. */
  predicate BitAt(bits: seq<byte>, i: nat)
    requires i / 8 < |bits|
  {
    And(bits[i / 8], Pow2(7 - i % 8)) != 0
  }

  function BitVector(bits: seq<byte>, count: nat): (r: seq<bool>)
    requires |bits| == (count + 7) / 8
    ensures |r| == count
  {
    seq(count, i requires 0 <= i < count => BitAt(bits, i))
  }

  function DigestsAt(d: seq<byte>, pos: nat, count: nat): (r: Parsed<seq<Option<nat>>>)
    ensures r.Got? ==> pos < r.pos <= |d| && |r.value| == count
  {
    if count > 10000 then Fail(TooManySubstreams)
    else
      var (all, p) :- U8At(d, pos);
      if all != 0 then CrcsAt(d, p, seq(count, i => true))
      else
        var (bits, q) :- RawAt(d, p, (count + 7) / 8);
        CrcsAt(d, q, BitVector(bits, count))
  }

  // ----- folders

  function CoderAt(d: seq<byte>, pos: nat): (r: Parsed<Coder>)
    ensures r.Got? ==> pos < r.pos <= |d|
  {
    var (flags, p) :- U8At(d, pos);
    if And(flags, 0xD0) != 0 then Fail(UnsupportedCoderGraph)
    else
      var (codec, q) :- RawAt(d, p, And(flags, 0x0F));
      if And(flags, 0x20) != 0 then
        var (n, s) :- NumAt(d, q);
        var (props, t) :- RawAt(d, s, n);
        if |props| > 64 then Fail(InvalidCoderProperties) else Got(Coder(codec, props), t)
      else Got(Coder(codec, []), q)
  }

  function CodersAt(d: seq<byte>, pos: nat, count: nat): (r: Parsed<seq<Coder>>)
    ensures r.Got? ==> pos <= r.pos && |r.value| == count
    ensures r.Got? && pos <= |d| ==> r.pos <= |d|
    decreases count
  {
    if count == 0 then Got([], pos)
    else
      var (v, p) :- CoderAt(d, pos);
      var (rest, q) :- CodersAt(d, p, count - 1);
      Got([v] + rest, q)
  }

  function BindsAt(d: seq<byte>, pos: nat, count: nat): (r: Parsed<seq<(nat, nat)>>)
    ensures r.Got? ==> pos <= r.pos && |r.value| == count
    ensures r.Got? && pos <= |d| ==> r.pos <= |d|
    decreases count
  {
    if count == 0 then Got([], pos)
    else
      var (a, p) :- NumAt(d, pos);
      var (b, q) :- NumAt(d, p);
      var (rest, s) :- BindsAt(d, q, count - 1);
      Got([(a, b)] + rest, s)
  }

  /** The coders of one folder; its sizes and CRC come later in the header. */
  function FolderAt(d: seq<byte>, pos: nat): (r: Parsed<Folder>)
    ensures r.Got? ==> pos < r.pos <= |d| && 1 <= |r.value.coders| <= 4 && |r.value.binds| == |r.value.coders| - 1
  {
    var (count, p) :- NumAt(d, pos);
    if count < 1 || count > 4 then Fail(UnsupportedFolder)
    else
      var (coders, q) :- CodersAt(d, p, count);
      var (binds, s) :- BindsAt(d, q, count - 1);
      Got(Folder(coders, binds, [], None), s)
  }

  function FoldersAt(d: seq<byte>, pos: nat, count: nat): (r: Parsed<seq<Folder>>)
    ensures r.Got? ==> pos <= r.pos && |r.value| == count
    ensures r.Got? && pos <= |d| ==> r.pos <= |d|
    ensures r.Got? ==> forall i :: 0 <= i < count ==> |r.value[i].coders| >= 1
    decreases count
  {
    if count == 0 then Got([], pos)
    else
      var (v, p) :- FolderAt(d, pos);
      var (rest, q) :- FoldersAt(d, p, count - 1);
      Got([v] + rest, q)
  }

  /** One unpack size for every coder of every folder. */
  function SizesAt(d: seq<byte>, pos: nat, folders: seq<Folder>): (r: Parsed<seq<Folder>>)
    ensures r.Got? ==> pos <= r.pos && |r.value| == |folders|
    ensures r.Got? && pos <= |d| ==> r.pos <= |d|
    ensures r.Got? ==> forall i :: 0 <= i < |folders| ==> |r.value[i].unpackSizes| == |folders[i].coders|
    decreases |folders|
  {
    if folders == [] then Got([], pos)
    else
      var (sizes, p) :- NumsAt(d, pos, |folders[0].coders|);
      var (rest, q) :- SizesAt(d, p, folders[1..]);
      Got([folders[0].(unpackSizes := sizes)] + rest, q)
  }

  function WithCrcs(folders: seq<Folder>, crcs: seq<Option<nat>>): (r: seq<Folder>)
    requires |crcs| == |folders|
    ensures |r| == |folders|
    ensures forall i :: 0 <= i < |r| ==> r[i] == folders[i].(folderCrc := crcs[i])
  {
    seq(|folders|, i requires 0 <= i < |folders| => folders[i].(folderCrc := crcs[i]))
  }

  /** An optional digest list, then the end of the section. */
  function OptionalDigestsAt(d: seq<byte>, pos: nat, count: nat, otherwise: Reason): (r: Parsed<seq<Option<nat>>>)
    ensures r.Got? ==> pos < r.pos <= |d| && |r.value| == count
  {
    var (tag, p) :- U8At(d, pos);
    if tag == 10 then
      var (crcs, q) :- DigestsAt(d, p, count);
      var (end, s) :- U8At(d, q);
      if end != 0 then Fail(otherwise) else Got(crcs, s)
    else if tag != 0 then Fail(otherwise)
    else Got(seq(count, i => None), p)
  }

  function PackInfoAt(d: seq<byte>, pos: nat): (r: Parsed<(nat, seq<nat>)>)
    ensures r.Got? ==> pos < r.pos <= |d|
  {
    var (packPos, p) :- NumAt(d, pos);
    var (count, q) :- NumAt(d, p);
    if count < 1 || count > 10000 then Fail(InvalidPackedStreamCount)
    else
      var (_, s) :- TagAt(d, q, 9);
      var (sizes, t) :- NumsAt(d, s, count);
      var (_, u) :- OptionalDigestsAt(d, t, count, UnsupportedPackInfo);
      Got((packPos, sizes), u)
  }

  function UnpackInfoAt(d: seq<byte>, pos: nat): (r: Parsed<seq<Folder>>)
    ensures r.Got? ==> pos < r.pos <= |d| && |r.value| >= 1
    ensures r.Got? ==> forall i :: 0 <= i < |r.value| ==> |r.value[i].unpackSizes| >= 1
  {
    var (_, p) :- TagAt(d, pos, 11);
    var (count, q) :- NumAt(d, p);
    if count < 1 || count > 10000 then Fail(MultipleOrExternalFolders)
    else
      var (external, s) :- U8At(d, q);
      if external != 0 then Fail(MultipleOrExternalFolders)
      else
        var (folders, t) :- FoldersAt(d, s, count);
        var (_, u) :- TagAt(d, t, 12);
        var (sized, w) :- SizesAt(d, u, folders);
        var (crcs, x) :- OptionalDigestsAt(d, w, count, UnsupportedUnpackInfo);
        Got(WithCrcs(sized, crcs), x)
  }

  // ----- substreams

  function Sum(s: seq<nat>): nat {
    if s == [] then 0 else s[0] + Sum(s[1..])
  }

  /** How many lengths are written: one fewer than substreams, folder by folder. */
  function LengthCount(counts: seq<nat>): nat {
    if counts == [] then 0 else (if counts[0] >= 1 then counts[0] - 1 else 0) + LengthCount(counts[1..])
  }

  /** Python's slice, which never fails. */
  function Slice<T>(s: seq<T>, from: nat, to: nat): seq<T> {
    var b := if to < |s| then to else |s|;
    if from <= b then s[from..b] else []
  }

  /** Handing the written lengths out to the folders; each folder's last size is what remains. */
  function Distribute(lengths: seq<nat>, cursor: nat, folders: seq<Folder>,
                      counts: seq<nat>): (r: Option<seq<seq<nat>>>)
    requires |counts| == |folders|
    ensures r.Some? ==> |r.value| == |folders|
    decreases |folders|
  {
    if folders == [] then Some([])
    else
      var leading := Slice<nat>(lengths, cursor, cursor + Pred(counts[0]));
      if folders[0].UnpackSize() < Sum(leading) then None
      else
        match Distribute(lengths, cursor + Pred(counts[0]), folders[1..], counts[1..])
        case None => None
        case Some(rest) => Some([leading + [folders[0].UnpackSize() - Sum(leading)]] + rest)
  }

  function Pred(n: nat): nat {
    if n >= 1 then n - 1 else 0
  }

  /** A lone substream inherits the CRC of its folder. */
  predicate Inherits(folder: Folder, count: nat) {
    count == 1 && folder.folderCrc.Some?
  }

  function NeededCrcs(folders: seq<Folder>, counts: seq<nat>): nat
    requires |counts| == |folders|
  {
    if folders == [] then 0
    else (if Inherits(folders[0], counts[0]) then 0 else counts[0]) + NeededCrcs(folders[1..], counts[1..])
  }

  function AssignCrcs(extra: seq<Option<nat>>, cursor: nat, folders: seq<Folder>,
                      counts: seq<nat>): (r: seq<seq<Option<nat>>>)
    requires |counts| == |folders|
    ensures |r| == |folders|
    decreases |folders|
  {
    if folders == [] then []
    else if Inherits(folders[0], counts[0]) then
      [[folders[0].folderCrc]] + AssignCrcs(extra, cursor, folders[1..], counts[1..])
    else
      [Slice<Option<nat>>(extra, cursor, cursor + counts[0])]
          + AssignCrcs(extra, cursor + counts[0], folders[1..], counts[1..])
  }

  predicate ValidCounts(counts: seq<nat>) {
    (forall i :: 0 <= i < |counts| ==> 1 <= counts[i] <= 10000) && Sum(counts) <= 10000
  }

  function SubStreamsAt(d: seq<byte>, pos: nat, folders: seq<Folder>): (r: Parsed<Subs>)
    ensures r.Got? ==> |r.value.sizes| == |r.value.crcs| == |folders|
    ensures r.Got? ==> pos < r.pos <= |d|
  {
    var (tag, p) :- U8At(d, pos);
    if tag == 13 then
      var (counts, q) :- NumsAt(d, p, |folders|);
      var (next, s) :- U8At(d, q);
      SubSizesAt(d, s, folders, counts, next)
    else SubSizesAt(d, p, folders, seq(|folders|, i => 1), tag)
  }

  function SubSizesAt(d: seq<byte>, pos: nat, folders: seq<Folder>, counts: seq<nat>, tag: byte): (r: Parsed<Subs>)
    requires |counts| == |folders|
    ensures r.Got? ==> |r.value.sizes| == |r.value.crcs| == |folders|
    ensures r.Got? ==> pos <= r.pos
    ensures r.Got? && pos <= |d| ==> r.pos <= |d|
  {
    if !ValidCounts(counts) then Fail(InvalidSubstreamCount)
    else if tag == 9 then
      var (lengths, p) :- NumsAt(d, pos, LengthCount(counts));
      var (next, q) :- U8At(d, p);
      SubCrcsAt(d, q, folders, counts, lengths, next)
    else if exists i :: 0 <= i < |counts| && counts[i] > 1 then Fail(MissingSubstreamSizes)
    else SubCrcsAt(d, pos, folders, counts, [], tag)
  }

  function SubCrcsAt(d: seq<byte>, pos: nat, folders: seq<Folder>, counts: seq<nat>, lengths: seq<nat>, tag: byte):
    (r: Parsed<Subs>)
    requires |counts| == |folders|
    ensures r.Got? ==> |r.value.sizes| == |r.value.crcs| == |folders|
    ensures r.Got? ==> pos <= r.pos
    ensures r.Got? && pos <= |d| ==> r.pos <= |d|
  {
    match Distribute(lengths, 0, folders, counts)
    case None => Fail(InvalidSubstreamSizes)
    case Some(sizes) =>
      var needed := NeededCrcs(folders, counts);
      if tag == 10 then
        var (extra, p) :- DigestsAt(d, pos, needed);
        var (end, q) :- U8At(d, p);
        if end != 0 then Fail(UnsupportedSubstreamInfo) else Got(Subs(sizes, AssignCrcs(extra, 0, folders, counts)), q)
      else if tag != 0 then Fail(UnsupportedSubstreamInfo)
      else Got(Subs(sizes, AssignCrcs(seq(needed, i => None), 0, folders, counts)), pos)
  }

  // ----- the section loop

  /** Substreams are only ever read for the folders at hand. */
  predicate Shaped(st: Progress) {
    st.subs.Some? ==> st.folders.Some? && |st.subs.value.sizes| == |st.subs.value.crcs| == |st.folders.value|
  }

  function SectionsAt(d: seq<byte>, pos: nat, st: Progress): (r: Parsed<Progress>)
    requires Shaped(st)
    ensures r.Got? ==> pos < r.pos <= |d| && Shaped(r.value)
    decreases |d| - pos
  {
    var (tag, p) :- U8At(d, pos);
    if tag == 0 then Got(st, p)
    else
      var (next, q) :- SectionAt(d, p, st, tag);
      SectionsAt(d, q, next)
  }

  function SectionAt(d: seq<byte>, pos: nat, st: Progress, tag: byte): (r: Parsed<Progress>)
    requires Shaped(st)
    ensures r.Got? ==> pos < r.pos <= |d| && Shaped(r.value)
  {
    if tag == 6 then
      if st.pack.Some? then Fail(DuplicatePackInfo)
      else
        var (pack, p) :- PackInfoAt(d, pos);
        Got(st.(pack := Some(pack)), p)
    else if tag == 7 then
      if st.folders.Some? then Fail(DuplicateUnpackInfo)
      else
        var (folders, p) :- UnpackInfoAt(d, pos);
        Got(st.(folders := Some(folders)), p)
    else if tag == 8 then
      if st.folders.None? || st.subs.Some? then Fail(MisorderedStreams)
      else
        var (subs, p) :- SubStreamsAt(d, pos, st.folders.value);
        Got(st.(subs := Some(subs)), p)
    else Fail(UnknownStreamInfo)
  }

  function WholeFolders(folders: seq<Folder>): (subs: Subs)
    ensures |subs.sizes| == |folders| && |subs.crcs| == |folders|
  {
    Subs(seq(|folders|, i requires 0 <= i < |folders| => [folders[i].UnpackSize()]),
         seq(|folders|, i requires 0 <= i < |folders| => [folders[i].folderCrc]))
  }

  /** Packed streams follow each other from `pos` on, one for each folder. */
  function Place(pos: nat, packSizes: seq<nat>, folders: seq<Folder>, subs: Subs): (blocks: seq<Block>)
    requires |packSizes| == |folders| == |subs.sizes| == |subs.crcs|
    ensures |blocks| == |folders|
    decreases |folders|
  {
    if folders == [] then []
    else
      [Block(folders[0], pos, packSizes[0], subs.sizes[0], subs.crcs[0])]
        + Place(pos + packSizes[0], packSizes[1..], folders[1..], Subs(subs.sizes[1..], subs.crcs[1..]))
  }

  function Assemble(st: Progress): Result<seq<Block>, Reason>
    requires Shaped(st)
  {
    if st.pack.None? || st.folders.None? then Err(IncompleteStreamMetadata)
    else
      var folders := st.folders.value;
      if |st.pack.value.1| != |folders| then Err(PackedFolderCountMismatch)
      else
        var subs := if st.subs.Some? then st.subs.value else WholeFolders(folders);
        Ok(Place(st.pack.value.0, st.pack.value.1, folders, subs))
  }

  function StreamInfoAt(d: seq<byte>, pos: nat): (r: Parsed<seq<Block>>)
    ensures r.Got? ==> pos < r.pos <= |d|
  {
    var (st, p) :- SectionsAt(d, pos, Progress(None, None, None));
    match Assemble(st)
    case Err(e) => Fail(e)
    case Ok(blocks) => Got(blocks, p)
  }

  // ----- conservation

  /** The substreams of a folder account for exactly its output, one size and one CRC slot each; a
      lone substream carries the folder's own CRC where there is one. */
  ghost predicate Accounted(folder: Folder, sizes: seq<nat>, crcs: seq<Option<nat>>) {
    && |folder.unpackSizes| >= 1
    && |sizes| == |crcs| >= 1
    && Sum(sizes) == folder.UnpackSize()
    && (Inherits(folder, |sizes|) ==> crcs == [folder.folderCrc])
  }

  /** Packed ranges are consecutive from `pos` on, and every folder is accounted for. */
  ghost predicate Conserved(blocks: seq<Block>, pos: nat) {
    blocks == [] || (
      && blocks[0].packPos == pos
      && Accounted(blocks[0].folder, blocks[0].subSizes, blocks[0].subCrcs)
      && Conserved(blocks[1..], pos + blocks[0].packSize))
  }

  lemma {:induction false} SumSnoc(s: seq<nat>, x: nat)
    ensures Sum(s + [x]) == Sum(s) + x
  {
    if s == [] {
      assert [] + [x] == [x];
    } else {
      assert (s + [x])[1..] == s[1..] + [x];
      SumSnoc(s[1..], x);
    }
  }

  /** All but the last element of each list, joined: the lengths that were written. */
  function Leading(sizes: seq<seq<nat>>): seq<nat> {
    if sizes == [] then []
    else (if sizes[0] == [] then [] else sizes[0][..|sizes[0]| - 1]) + Leading(sizes[1..])
  }

  /** Each folder has as many sizes as substreams, and they add up to its output. */
  ghost predicate SizesFit(folders: seq<Folder>, counts: seq<nat>, sizes: seq<seq<nat>>) {
    && |sizes| == |counts| == |folders|
    && (folders != [] ==>
          && |sizes[0]| == counts[0] && Sum(sizes[0]) == folders[0].UnpackSize()
          && SizesFit(folders[1..], counts[1..], sizes[1..]))
  }

  /** Distribution uses up the written lengths exactly: nothing is left over or missing. */
  lemma {:induction false} DistributeConserves(lengths: seq<nat>, cursor: nat, folders: seq<Folder>, counts: seq<nat>)
    requires |counts| == |folders| && forall i :: 0 <= i < |counts| ==> counts[i] >= 1
    requires cursor + LengthCount(counts) == |lengths|
    requires Distribute(lengths, cursor, folders, counts).Some?
    ensures SizesFit(folders, counts, Distribute(lengths, cursor, folders, counts).value)
    ensures Leading(Distribute(lengths, cursor, folders, counts).value) == lengths[cursor..]
    decreases |folders|
  {
    hide Sum, Leading, Slice, LengthCount;
    LengthCountStep(counts);
    if folders == [] {
      LeadingNil();
    } else {
      var c := Pred(counts[0]);
      var leading := Slice<nat>(lengths, cursor, cursor + c);
      SliceExact(lengths, cursor, cursor + c);
      var last := folders[0].UnpackSize() - Sum(leading);
      SumSnoc(leading, last);
      DistributeConserves(lengths, cursor + c, folders[1..], counts[1..]);
      var rest := Distribute(lengths, cursor + c, folders[1..], counts[1..]).value;
      JoinLeading(leading, last, rest);
    }
  }

  lemma LengthCountStep(counts: seq<nat>)
    requires forall i :: 0 <= i < |counts| ==> counts[i] >= 1
    ensures LengthCount(counts) == if counts == [] then 0 else counts[0] - 1 + LengthCount(counts[1..])
  {
  }

  lemma LeadingNil()
    ensures Leading([]) == []
  {
  }

  lemma SliceExact<T>(s: seq<T>, from: nat, to: nat)
    requires from <= to <= |s|
    ensures Slice(s, from, to) == s[from..to] && s[from..] == s[from..to] + s[to..]
  {
  }

  lemma JoinLeading(leading: seq<nat>, last: nat, rest: seq<seq<nat>>)
    ensures Leading([leading + [last]] + rest) == leading + Leading(rest)
  {
    var all := [leading + [last]] + rest;
    assert all[1..] == rest && (leading + [last])[..|leading|] == leading;
  }

  /** The CRC slots that were read from the list rather than inherited, joined. */
  function ListedCrcs(folders: seq<Folder>, crcs: seq<seq<Option<nat>>>): seq<Option<nat>>
    requires |crcs| == |folders|
  {
    if folders == [] then []
    else (if Inherits(folders[0], |crcs[0]|) then [] else crcs[0]) + ListedCrcs(folders[1..], crcs[1..])
  }

  ghost predicate CrcsFit(folders: seq<Folder>, counts: seq<nat>, crcs: seq<seq<Option<nat>>>) {
    && |crcs| == |counts| == |folders|
    && (folders != [] ==>
          && |crcs[0]| == counts[0] && (Inherits(folders[0], counts[0]) ==> crcs[0] == [folders[0].folderCrc])
          && CrcsFit(folders[1..], counts[1..], crcs[1..]))
  }

  /** The CRC list is used up exactly, too. */
  lemma {:induction false} AssignConserves(extra: seq<Option<nat>>, cursor: nat, folders: seq<Folder>, counts: seq<nat>)
    requires |counts| == |folders| && cursor + NeededCrcs(folders, counts) == |extra|
    ensures CrcsFit(folders, counts, AssignCrcs(extra, cursor, folders, counts))
    ensures ListedCrcs(folders, AssignCrcs(extra, cursor, folders, counts)) == extra[cursor..]
    decreases |folders|
  {
    if folders != [] {
      var crcs := AssignCrcs(extra, cursor, folders, counts);
      if Inherits(folders[0], counts[0]) {
        AssignConserves(extra, cursor, folders[1..], counts[1..]);
        assert crcs[1..] == AssignCrcs(extra, cursor, folders[1..], counts[1..]);
      } else {
        AssignConserves(extra, cursor + counts[0], folders[1..], counts[1..]);
        assert crcs[1..] == AssignCrcs(extra, cursor + counts[0], folders[1..], counts[1..]);
        assert crcs[0] == extra[cursor..cursor + counts[0]];
        assert extra[cursor..] == crcs[0] + extra[cursor + counts[0]..];
      }
    }
  }

  ghost predicate AllAccounted(folders: seq<Folder>, subs: Subs) {
    && |subs.sizes| == |subs.crcs| == |folders|
    && (folders != [] ==>
          && Accounted(folders[0], subs.sizes[0], subs.crcs[0])
          && AllAccounted(folders[1..], Subs(subs.sizes[1..], subs.crcs[1..])))
  }

  lemma {:induction false} FitAccounts(folders: seq<Folder>, counts: seq<nat>, sizes: seq<seq<nat>>,
                                       crcs: seq<seq<Option<nat>>>)
    requires SizesFit(folders, counts, sizes) && CrcsFit(folders, counts, crcs)
    requires forall i :: 0 <= i < |counts| ==> counts[i] >= 1
    requires forall i :: 0 <= i < |folders| ==> |folders[i].unpackSizes| >= 1
    ensures AllAccounted(folders, Subs(sizes, crcs))
  {
    if folders != [] {
      FitAccounts(folders[1..], counts[1..], sizes[1..], crcs[1..]);
    }
  }

  lemma {:induction false} OnesNeedNoLengths(counts: seq<nat>)
    requires forall i :: 0 <= i < |counts| ==> counts[i] <= 1
    ensures LengthCount(counts) == 0
  {
    if counts != [] {
      OnesNeedNoLengths(counts[1..]);
    }
  }

  lemma SubCrcsAccount(d: seq<byte>, pos: nat, folders: seq<Folder>, counts: seq<nat>, lengths: seq<nat>, tag: byte)
    requires |counts| == |folders| && (forall i :: 0 <= i < |counts| ==> counts[i] >= 1)
        && |lengths| == LengthCount(counts)
    requires forall i :: 0 <= i < |folders| ==> |folders[i].unpackSizes| >= 1
    requires SubCrcsAt(d, pos, folders, counts, lengths, tag).Got?
    ensures AllAccounted(folders, SubCrcsAt(d, pos, folders, counts, lengths, tag).value)
    ensures Leading(SubCrcsAt(d, pos, folders, counts, lengths, tag).value.sizes) == lengths
  {
    DistributeConserves(lengths, 0, folders, counts);
    var needed := NeededCrcs(folders, counts);
    var extra := if tag == 10 then DigestsAt(d, pos, needed).value else seq(needed, i => None);
    AssignConserves(extra, 0, folders, counts);
    FitAccounts(folders, counts, Distribute(lengths, 0, folders, counts).value, AssignCrcs(extra, 0, folders, counts));
  }

  lemma SubSizesAccount(d: seq<byte>, pos: nat, folders: seq<Folder>, counts: seq<nat>, tag: byte)
    requires |counts| == |folders|
    requires forall i :: 0 <= i < |folders| ==> |folders[i].unpackSizes| >= 1
    requires SubSizesAt(d, pos, folders, counts, tag).Got?
    ensures AllAccounted(folders, SubSizesAt(d, pos, folders, counts, tag).value)
  {
    if tag == 9 {
      var lengths := NumsAt(d, pos, LengthCount(counts));
      var next := U8At(d, lengths.pos);
      SubCrcsAccount(d, next.pos, folders, counts, lengths.value, next.value);
    } else {
      OnesNeedNoLengths(counts);
      SubCrcsAccount(d, pos, folders, counts, [], tag);
    }
  }

  lemma SubStreamsAccount(d: seq<byte>, pos: nat, folders: seq<Folder>)
    requires SubStreamsAt(d, pos, folders).Got?
    requires forall i :: 0 <= i < |folders| ==> |folders[i].unpackSizes| >= 1
    ensures AllAccounted(folders, SubStreamsAt(d, pos, folders).value)
  {
    var tag := U8At(d, pos);
    if tag.value == 13 {
      var counts := NumsAt(d, tag.pos, |folders|);
      var next := U8At(d, counts.pos);
      SubSizesAccount(d, next.pos, folders, counts.value, next.value);
    } else {
      SubSizesAccount(d, tag.pos, folders, seq(|folders|, i => 1), tag.value);
    }
  }

  /** What the section loop keeps: folders have sizes, and substreams account for them. */
  ghost predicate Sound(st: Progress) {
    && (st.folders.Some? ==> forall i :: 0 <= i < |st.folders.value| ==> |st.folders.value[i].unpackSizes| >= 1)
    && Shaped(st)
    && (st.subs.Some? ==> AllAccounted(st.folders.value, st.subs.value))
  }

  lemma SectionSound(d: seq<byte>, pos: nat, st: Progress, tag: byte)
    requires Sound(st) && SectionAt(d, pos, st, tag).Got?
    ensures Sound(SectionAt(d, pos, st, tag).value)
  {
    if tag == 8 {
      SubStreamsAccount(d, pos, st.folders.value);
    }
  }

  lemma {:induction false} SectionsSound(d: seq<byte>, pos: nat, st: Progress)
    requires Sound(st) && SectionsAt(d, pos, st).Got?
    ensures Sound(SectionsAt(d, pos, st).value)
    decreases |d| - pos
  {
    var tag := U8At(d, pos);
    if tag.value != 0 {
      var next := SectionAt(d, tag.pos, st, tag.value);
      SectionSound(d, tag.pos, st, tag.value);
      SectionsSound(d, next.pos, next.value);
    }
  }

  lemma {:induction false} WholeAccounted(folders: seq<Folder>)
    requires forall i :: 0 <= i < |folders| ==> |folders[i].unpackSizes| >= 1
    ensures AllAccounted(folders, WholeFolders(folders))
  {
    if folders != [] {
      WholeAccounted(folders[1..]);
      var w := WholeFolders(folders);
      assert Sum([folders[0].UnpackSize()]) == folders[0].UnpackSize() + Sum([]);
      assert Subs(w.sizes[1..], w.crcs[1..]) == WholeFolders(folders[1..]);
    }
  }

  lemma {:induction false} PlaceConserves(pos: nat, packSizes: seq<nat>, folders: seq<Folder>, subs: Subs)
    requires |packSizes| == |folders| && AllAccounted(folders, subs)
    ensures Conserved(Place(pos, packSizes, folders, subs), pos)
    decreases |folders|
  {
    if folders != [] {
      var rest := Subs(subs.sizes[1..], subs.crcs[1..]);
      PlaceConserves(pos + packSizes[0], packSizes[1..], folders[1..], rest);
      assert Place(pos, packSizes, folders, subs)[1..] == Place(pos + packSizes[0], packSizes[1..], folders[1..], rest);
    }
  }

  /** Every accepted stream section conserves its folders: consecutive packed ranges, substream sizes
      that add up, and one CRC slot for each substream. */
  lemma StreamInfoConserves(d: seq<byte>, pos: nat)
    requires StreamInfoAt(d, pos).Got?
    ensures StreamInfoAt(d, pos).value != [] ==>
      Conserved(StreamInfoAt(d, pos).value, StreamInfoAt(d, pos).value[0].packPos)
  {
    var st := SectionsAt(d, pos, Progress(None, None, None)).value;
    SectionsSound(d, pos, Progress(None, None, None));
    var folders := st.folders.value;
    if st.subs.None? {
      WholeAccounted(folders);
    }
    var subs := if st.subs.Some? then st.subs.value else WholeFolders(folders);
    PlaceConserves(st.pack.value.0, st.pack.value.1, folders, subs);
  }
}
