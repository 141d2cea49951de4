/** A writer of stream metadata after the format description (7zFormat.txt, sections "PackInfo",
    "Coders Info" and "SubStreams Info"), and the proof that the parser reads back what it wrote. */
module SevenZipWriter {
  import opened Bits
  import opened Wrappers
  import opened SevenZipNumber
  import opened SevenZipStreams

  lemma HasByte(d: seq<byte>, pos: nat, b: byte)
    requires Has(d, pos, [b])
    ensures U8At(d, pos) == Got(b, pos + 1)
  {
    assert d[pos..pos + 1][0] == b;
  }

  lemma HasRaw(d: seq<byte>, pos: nat, s: seq<byte>)
    requires Has(d, pos, s)
    ensures RawAt(d, pos, |s|) == Got(s, pos + |s|)
  {
  }

  // ----- numbers

  predicate Fits64(v: nat) {
    v < Pow2(64)
  }

  function Number(v: nat): seq<byte> {
    if Fits64(v) then Encode(v) else []
  }

  lemma NumberBack(d: seq<byte>, pos: nat, v: nat)
    requires Fits64(v) && Has(d, pos, Number(v))
    ensures NumAt(d, pos) == Got(v, pos + |Number(v)|)
  {
    hide Pow2, NumAt, EncodeWith;
    var n := FormOf(v);
    assert |EncodeWith(v, n)| == n + 1;
    NumRoundTrip(v, n, d, pos);
  }

  predicate AllFit(vs: seq<nat>) {
    forall i :: 0 <= i < |vs| ==> Fits64(vs[i])
  }

  function Numbers(vs: seq<nat>): seq<byte> {
    if vs == [] then [] else Number(vs[0]) + Numbers(vs[1..])
  }

  lemma {:induction false} NumbersBack(d: seq<byte>, pos: nat, vs: seq<nat>)
    requires AllFit(vs) && Has(d, pos, Numbers(vs))
    ensures NumsAt(d, pos, |vs|) == Got(vs, pos + |Numbers(vs)|)
    decreases |vs|
  {
    hide Fits64, NumAt, Number, Has;
    if vs != [] {
      HasSplit(d, pos, Number(vs[0]), Numbers(vs[1..]));
      NumberBack(d, pos, vs[0]);
      NumbersBack(d, pos + |Number(vs[0])|, vs[1..]);
      assert vs == [vs[0]] + vs[1..];
    }
  }

  // ----- digests

  function Bit(bits: seq<bool>, i: nat): (r: nat)
    ensures r <= 1
  {
    if i < |bits| && bits[i] then 1 else 0
  }

  /** Up to eight bits in a byte, the first one most significant. */
  function ByteOf(bits: seq<bool>): byte {
    128 * Bit(bits, 0) + 64 * Bit(bits, 1) + 32 * Bit(bits, 2) + 16 * Bit(bits, 3)
    + 8 * Bit(bits, 4) + 4 * Bit(bits, 5) + 2 * Bit(bits, 6) + Bit(bits, 7)
  }

  function BitBytes(bits: seq<bool>): (s: seq<byte>)
    ensures |s| == (|bits| + 7) / 8
    decreases |bits|
  {
    if bits == [] then []
    else if |bits| <= 8 then [ByteOf(bits)]
    else [ByteOf(bits[..8])] + BitBytes(bits[8..])
  }

  lemma BinaryDigits(a: nat, b: nat, c: nat, d: nat, e: nat, f: nat, g: nat, h: nat)
    requires a <= 1 && b <= 1 && c <= 1 && d <= 1 && e <= 1 && f <= 1 && g <= 1 && h <= 1
    ensures var v := 128 * a + 64 * b + 32 * c + 16 * d + 8 * e + 4 * f + 2 * g + h;
            && v / 128 == a && (v / 64) % 2 == b && (v / 32) % 2 == c && (v / 16) % 2 == d
            && (v / 8) % 2 == e && (v / 4) % 2 == f && (v / 2) % 2 == g && v % 2 == h
  {
    var v := 128 * a + 64 * b + 32 * c + 16 * d + 8 * e + 4 * f + 2 * g + h;
    assert v / 64 == 2 * a + b;
    assert v / 32 == 2 * (2 * a + b) + c;
    assert v / 16 == 2 * (4 * a + 2 * b + c) + d;
    assert v / 8 == 2 * (8 * a + 4 * b + 2 * c + d) + e;
    assert v / 4 == 2 * (16 * a + 8 * b + 4 * c + 2 * d + e) + f;
    assert v / 2 == 2 * (32 * a + 16 * b + 8 * c + 4 * d + 2 * e + f) + g;
  }

  lemma BitOfByte(bits: seq<bool>, i: nat)
    requires i < |bits| <= 8
    ensures And(ByteOf(bits), Pow2(7 - i)) != 0 <==> bits[i]
  {
    hide And, Pow2, ByteOf, Bit;
    var v := ByteOf(bits);
    AndTest(v, 7 - i);
    PowersOfTwo();
    ByteDigits(bits);
    BitIs(bits, i);
  }

  lemma BitIs(bits: seq<bool>, i: nat)
    requires i < |bits|
    ensures Bit(bits, i) == 1 <==> bits[i]
  {
  }

  lemma ByteDigits(bits: seq<bool>)
    ensures var v := ByteOf(bits);
            && (v / 128) % 2 == Bit(bits, 0) && (v / 64) % 2 == Bit(bits, 1) && (v / 32) % 2 == Bit(bits, 2)
            && (v / 16) % 2 == Bit(bits, 3) && (v / 8) % 2 == Bit(bits, 4) && (v / 4) % 2 == Bit(bits, 5)
            && (v / 2) % 2 == Bit(bits, 6) && (v / 1) % 2 == Bit(bits, 7)
  {
    hide Bit;
    BinaryDigits(Bit(bits, 0), Bit(bits, 1), Bit(bits, 2), Bit(bits, 3), Bit(bits, 4), Bit(bits, 5), Bit(bits, 6),
        Bit(bits, 7));
  }

  lemma AndTest(v: nat, k: nat)
    ensures And(v, Pow2(k)) != 0 <==> (v / Pow2(k)) % 2 == 1
  {
    hide And, Pow2;
    AndBit(v, k);
  }

  lemma PowersOfTwo()
    ensures Pow2(0) == 1 && Pow2(1) == 2 && Pow2(2) == 4 && Pow2(3) == 8 && Pow2(4) == 16 && Pow2(5) == 32
            && Pow2(6) == 64 && Pow2(7) == 128
  {
  }

  lemma {:induction false} BitBack(bits: seq<bool>, i: nat)
    requires i < |bits|
    ensures BitAt(BitBytes(bits), i) <==> bits[i]
    decreases |bits|
  {
    hide And, ByteOf, Pow2;
    if |bits| <= 8 {
      BitOfByte(bits, i);
    } else if i < 8 {
      BitOfByte(bits[..8], i);
    } else {
      BitBack(bits[8..], i - 8);
      assert BitBytes(bits)[i / 8] == BitBytes(bits[8..])[(i - 8) / 8];
    }
  }

  lemma BitsBack(bits: seq<bool>)
    ensures BitVector(BitBytes(bits), |bits|) == bits
  {
    hide BitAt, BitBytes;
    forall i | 0 <= i < |bits| ensures BitAt(BitBytes(bits), i) == bits[i] {
      BitBack(bits, i);
    }
  }

  predicate Fits32(crcs: seq<Option<nat>>) {
    forall i :: 0 <= i < |crcs| && crcs[i].Some? ==> crcs[i].value < Pow2(32)
  }

  function Defined(crcs: seq<Option<nat>>): (bits: seq<bool>)
    ensures |bits| == |crcs| && forall i :: 0 <= i < |bits| ==> bits[i] == crcs[i].Some?
  {
    seq(|crcs|, i requires 0 <= i < |crcs| => crcs[i].Some?)
  }

  function CrcBytes(crcs: seq<Option<nat>>): seq<byte> {
    if crcs == [] then []
    else (if crcs[0].Some? then LittleEndianBytes(crcs[0].value, 4) else []) + CrcBytes(crcs[1..])
  }

  lemma {:induction false} CrcsBack(d: seq<byte>, pos: nat, crcs: seq<Option<nat>>)
    requires Fits32(crcs) && Has(d, pos, CrcBytes(crcs))
    ensures CrcsAt(d, pos, Defined(crcs)) == Got(crcs, pos + |CrcBytes(crcs)|)
    decreases |crcs|
  {
    hide Pow2, LittleEndian, LittleEndianBytes, Has;
    if crcs != [] {
      var first := if crcs[0].Some? then LittleEndianBytes(crcs[0].value, 4) else [];
      HasSplit(d, pos, first, CrcBytes(crcs[1..]));
      assert Defined(crcs)[1..] == Defined(crcs[1..]);
      CrcsBack(d, pos + |first|, crcs[1..]);
      if crcs[0].Some? {
        HasRaw(d, pos, first);
        LittleEndianRoundTrip(crcs[0].value, 4);
      }
      assert crcs == [crcs[0]] + crcs[1..];
    }
  }

  /** A digest list with a bit vector of the defined ones. */
  function Digests(crcs: seq<Option<nat>>): seq<byte> {
    [0] + (BitBytes(Defined(crcs)) + CrcBytes(crcs))
  }

  lemma DigestsBack(d: seq<byte>, pos: nat, crcs: seq<Option<nat>>)
    requires |crcs| <= 10000 && Fits32(crcs) && Has(d, pos, Digests(crcs))
    ensures DigestsAt(d, pos, |crcs|) == Got(crcs, pos + |Digests(crcs)|)
  {
    hide Fits32, Has, CrcsAt, CrcBytes, BitBytes, BitVector;
    var bits := BitBytes(Defined(crcs));
    HasSplit(d, pos, [0], bits + CrcBytes(crcs));
    HasByte(d, pos, 0);
    HasSplit(d, pos + 1, bits, CrcBytes(crcs));
    HasRaw(d, pos + 1, bits);
    BitsBack(Defined(crcs));
    CrcsBack(d, pos + 1 + |bits|, crcs);
  }

  // ----- folders

  predicate ValidCoder(c: Coder) {
    |c.codec| <= 15 && |c.props| <= 64
  }

  function CoderBytes(c: Coder): seq<byte>
    requires ValidCoder(c)
  {
    var flags: byte := |c.codec| + if c.props != [] then 32 else 0;
    [flags] + (c.codec + if c.props != [] then Number(|c.props|) + c.props else [])
  }

  lemma FlagBits(n: nat, p: nat)
    requires n <= 15 && p <= 1
    ensures And(n + 32 * p, 0xD0) == 0 && And(n + 32 * p, 0x0F) == n && (And(n + 32 * p, 0x20) != 0 <==> p == 1)
  {
    LowFlags(n, p);
    MiddleFlags(n, p);
    HighFlags(n, p);
  }

  lemma LowFlags(n: nat, p: nat)
    requires n <= 15 && p <= 1
    ensures And(n + 32 * p, 0x0F) == n
  {
    hide And, Pow2;
    PowersOfTwo();
    AndMask(n + 32 * p, 4);
    assert (n + 32 * p) % 16 == n;
  }

  lemma MiddleFlags(n: nat, p: nat)
    requires n <= 15 && p <= 1
    ensures And(n + 32 * p, 0x20) != 0 <==> p == 1
  {
    hide And, Pow2;
    PowersOfTwo();
    AndTest(n + 32 * p, 5);
    assert (n + 32 * p) / 32 == p;
  }

  lemma HighFlags(n: nat, p: nat)
    requires n <= 15 && p <= 1
    ensures And(n + 32 * p, 0xD0) == 0
  {
    hide And;
    var f := n + 32 * p;
    AndDouble(f, 0x68);
    AndDouble(f / 2, 0x34);
    AndDouble(f / 4, 0x1A);
    AndDouble(f / 8, 0x0D);
    assert f / 2 / 2 == f / 4 && f / 4 / 2 == f / 8 && f / 8 / 2 == 2 * p;
    TopFlags(p);
  }

  lemma TopFlags(p: nat)
    requires p <= 1
    ensures And(2 * p, 13) == 0
  {
    hide And;
    AndHalve(2 * p, 13);
    AndDouble(p, 3);
    AndZero(3);
    assert p / 2 == 0;
  }

  lemma AndDouble(a: nat, b: nat)
    ensures And(a, 2 * b) == 2 * And(a / 2, b)
  {
    hide And;
    AndHalve(a, 2 * b);
    assert 2 * b / 2 == b && (2 * b) % 2 == 0;
  }

  lemma AndZero(b: nat)
    ensures And(0, b) == 0
  {
  }

  lemma CoderBack(d: seq<byte>, pos: nat, c: Coder)
    requires ValidCoder(c) && Has(d, pos, CoderBytes(c))
    ensures CoderAt(d, pos) == Got(c, pos + |CoderBytes(c)|)
  {
    hide And, NumAt, Has, Number;
    var p := if c.props != [] then 1 else 0;
    var flags: byte := |c.codec| + 32 * p;
    var tail := if c.props != [] then Number(|c.props|) + c.props else [];
    FlagBits(|c.codec|, p);
    HasSplit(d, pos, [flags], c.codec + tail);
    HasByte(d, pos, flags);
    HasSplit(d, pos + 1, c.codec, tail);
    HasRaw(d, pos + 1, c.codec);
    if c.props != [] {
      SmallFits(|c.props|);
      HasSplit(d, pos + 1 + |c.codec|, Number(|c.props|), c.props);
      NumberBack(d, pos + 1 + |c.codec|, |c.props|);
      HasRaw(d, pos + 1 + |c.codec| + |Number(|c.props|)|, c.props);
    }
  }

  lemma SmallFits(n: nat)
    requires n <= 10000
    ensures Fits64(n)
  {
    hide Pow2;
    assert Pow2(14) == 16384 by {
      Pow2Fourteen();
    }
    Pow2Monotone(14, 64);
  }

  lemma Pow2Fourteen()
    ensures Pow2(14) == 16384
  {
    assert Pow2(7) == 128;
    Pow2Add(7, 7);
  }

  function CodersBytes(cs: seq<Coder>): seq<byte>
    requires forall i :: 0 <= i < |cs| ==> ValidCoder(cs[i])
  {
    if cs == [] then [] else CoderBytes(cs[0]) + CodersBytes(cs[1..])
  }

  lemma {:induction false} CodersBack(d: seq<byte>, pos: nat, cs: seq<Coder>)
    requires (forall i :: 0 <= i < |cs| ==> ValidCoder(cs[i])) && Has(d, pos, CodersBytes(cs))
    ensures CodersAt(d, pos, |cs|) == Got(cs, pos + |CodersBytes(cs)|)
    decreases |cs|
  {
    hide CoderAt, CoderBytes, Has, ValidCoder;
    if cs != [] {
      HasSplit(d, pos, CoderBytes(cs[0]), CodersBytes(cs[1..]));
      CoderBack(d, pos, cs[0]);
      CodersBack(d, pos + |CoderBytes(cs[0])|, cs[1..]);
      assert cs == [cs[0]] + cs[1..];
    }
  }

  predicate BindsFit(binds: seq<(nat, nat)>) {
    forall i :: 0 <= i < |binds| ==> Fits64(binds[i].0) && Fits64(binds[i].1)
  }

  function BindsBytes(binds: seq<(nat, nat)>): seq<byte> {
    if binds == [] then [] else Number(binds[0].0) + (Number(binds[0].1) + BindsBytes(binds[1..]))
  }

  lemma {:induction false} BindsBack(d: seq<byte>, pos: nat, binds: seq<(nat, nat)>)
    requires BindsFit(binds) && Has(d, pos, BindsBytes(binds))
    ensures BindsAt(d, pos, |binds|) == Got(binds, pos + |BindsBytes(binds)|)
    decreases |binds|
  {
    hide Fits64, NumAt, Number, Has;
    if binds != [] {
      var (a, b) := binds[0];
      var rest := BindsBytes(binds[1..]);
      assert BindsBytes(binds) == Number(a) + (Number(b) + rest);
      HasSplit(d, pos, Number(a), Number(b) + rest);
      NumberBack(d, pos, a);
      HasSplit(d, pos + |Number(a)|, Number(b), rest);
      NumberBack(d, pos + |Number(a)|, b);
      BindsBack(d, pos + |Number(a)| + |Number(b)|, binds[1..]);
      assert binds == [binds[0]] + binds[1..];
    }
  }

  /** What the format can hold of a folder. */
  predicate ValidFolder(f: Folder) {
    && 1 <= |f.coders| <= 4 && (forall i :: 0 <= i < |f.coders| ==> ValidCoder(f.coders[i]))
    && |f.binds| == |f.coders| - 1 && BindsFit(f.binds)
    && |f.unpackSizes| == |f.coders| && AllFit(f.unpackSizes)
  }

  function Bare(f: Folder): Folder {
    f.(unpackSizes := [], folderCrc := None)
  }

  function FolderBytes(f: Folder): seq<byte>
    requires ValidFolder(f)
  {
    Number(|f.coders|) + (CodersBytes(f.coders) + BindsBytes(f.binds))
  }

  lemma FolderBack(d: seq<byte>, pos: nat, f: Folder)
    requires ValidFolder(f) && Has(d, pos, FolderBytes(f))
    ensures FolderAt(d, pos) == Got(Bare(f), pos + |FolderBytes(f)|)
  {
    hide Has, NumAt, Number, CodersAt, CodersBytes, BindsAt, BindsBytes, BindsFit, AllFit, ValidCoder;
    var n := Number(|f.coders|);
    SmallFits(|f.coders|);
    HasSplit(d, pos, n, CodersBytes(f.coders) + BindsBytes(f.binds));
    NumberBack(d, pos, |f.coders|);
    HasSplit(d, pos + |n|, CodersBytes(f.coders), BindsBytes(f.binds));
    CodersBack(d, pos + |n|, f.coders);
    BindsBack(d, pos + |n| + |CodersBytes(f.coders)|, f.binds);
  }

  predicate ValidFolders(fs: seq<Folder>) {
    forall i :: 0 <= i < |fs| ==> ValidFolder(fs[i])
  }

  function FoldersBytes(fs: seq<Folder>): seq<byte>
    requires ValidFolders(fs)
  {
    if fs == [] then [] else FolderBytes(fs[0]) + FoldersBytes(fs[1..])
  }

  function AllBare(fs: seq<Folder>): seq<Folder> {
    if fs == [] then [] else [Bare(fs[0])] + AllBare(fs[1..])
  }

  lemma {:induction false} FoldersBack(d: seq<byte>, pos: nat, fs: seq<Folder>)
    requires ValidFolders(fs) && Has(d, pos, FoldersBytes(fs))
    ensures FoldersAt(d, pos, |fs|) == Got(AllBare(fs), pos + |FoldersBytes(fs)|)
    decreases |fs|
  {
    hide Has, FolderAt, FolderBytes, ValidFolder, Bare;
    if fs != [] {
      HasSplit(d, pos, FolderBytes(fs[0]), FoldersBytes(fs[1..]));
      FolderBack(d, pos, fs[0]);
      FoldersBack(d, pos + |FolderBytes(fs[0])|, fs[1..]);
    }
  }

  function SizesBytes(fs: seq<Folder>): seq<byte> {
    if fs == [] then [] else Numbers(fs[0].unpackSizes) + SizesBytes(fs[1..])
  }

  function AllSized(fs: seq<Folder>): (r: seq<Folder>)
    ensures |r| == |fs| && forall i :: 0 <= i < |fs| ==> r[i] == fs[i].(folderCrc := None)
  {
    if fs == [] then [] else [fs[0].(folderCrc := None)] + AllSized(fs[1..])
  }

  lemma {:induction false} SizesBack(d: seq<byte>, pos: nat, fs: seq<Folder>)
    requires ValidFolders(fs) && Has(d, pos, SizesBytes(fs))
    ensures SizesAt(d, pos, AllBare(fs)) == Got(AllSized(fs), pos + |SizesBytes(fs)|)
    decreases |fs|
  {
    hide Has, NumsAt, Numbers, AllFit, BindsFit, ValidCoder;
    if fs != [] {
      HasSplit(d, pos, Numbers(fs[0].unpackSizes), SizesBytes(fs[1..]));
      NumbersBack(d, pos, fs[0].unpackSizes);
      SizesBack(d, pos + |Numbers(fs[0].unpackSizes)|, fs[1..]);
      assert AllBare(fs)[1..] == AllBare(fs[1..]);
    }
  }

  function FolderCrcs(fs: seq<Folder>): (crcs: seq<Option<nat>>)
    ensures |crcs| == |fs| && forall i :: 0 <= i < |fs| ==> crcs[i] == fs[i].folderCrc
  {
    seq(|fs|, i requires 0 <= i < |fs| => fs[i].folderCrc)
  }

  // ----- the sections

  /** A digest list and the end of its section. */
  lemma DigestsEnd(d: seq<byte>, pos: nat, crcs: seq<Option<nat>>, otherwise: Reason)
    requires |crcs| <= 10000 && Fits32(crcs) && Has(d, pos, [10] + (Digests(crcs) + [0]))
    ensures OptionalDigestsAt(d, pos, |crcs|, otherwise) == Got(crcs, pos + |[10] + (Digests(crcs) + [0])|)
  {
    hide Has, Fits32, DigestsAt, Digests;
    HasSplit(d, pos, [10], Digests(crcs) + [0]);
    HasByte(d, pos, 10);
    HasSplit(d, pos + 1, Digests(crcs), [0]);
    DigestsBack(d, pos + 1, crcs);
    HasByte(d, pos + 1 + |Digests(crcs)|, 0);
  }

  function PackBytes(packPos: nat, sizes: seq<nat>): seq<byte> {
    Number(packPos) + (Number(|sizes|) + ([9] + (Numbers(sizes) + [0])))
  }

  lemma PackBack(d: seq<byte>, pos: nat, packPos: nat, sizes: seq<nat>)
    requires Fits64(packPos) && 1 <= |sizes| <= 10000 && AllFit(sizes) && Has(d, pos, PackBytes(packPos, sizes))
    ensures PackInfoAt(d, pos) == Got((packPos, sizes), pos + |PackBytes(packPos, sizes)|)
  {
    hide Has, NumAt, Number, NumsAt, Numbers, AllFit, Fits64;
    SmallFits(|sizes|);
    var a, b, c := Number(packPos), Number(|sizes|), Numbers(sizes);
    HasSplit(d, pos, a, b + ([9] + (c + [0])));
    NumberBack(d, pos, packPos);
    HasSplit(d, pos + |a|, b, [9] + (c + [0]));
    NumberBack(d, pos + |a|, |sizes|);
    HasSplit(d, pos + |a| + |b|, [9], c + [0]);
    HasByte(d, pos + |a| + |b|, 9);
    HasSplit(d, pos + |a| + |b| + 1, c, [0]);
    NumbersBack(d, pos + |a| + |b| + 1, sizes);
    HasByte(d, pos + |a| + |b| + 1 + |c|, 0);
  }

  function UnpackBytes(fs: seq<Folder>): seq<byte>
    requires ValidFolders(fs)
  {
    [11] + (Number(|fs|) + ([0]
        + (FoldersBytes(fs) + ([12] + (SizesBytes(fs) + ([10] + (Digests(FolderCrcs(fs)) + [0])))))))
  }

  lemma UnpackBack(d: seq<byte>, pos: nat, fs: seq<Folder>)
    requires ValidFolders(fs) && 1 <= |fs| <= 10000 && Fits32(FolderCrcs(fs)) && Has(d, pos, UnpackBytes(fs))
    ensures UnpackInfoAt(d, pos) == Got(fs, pos + |UnpackBytes(fs)|)
  {
    hide Has, NumAt, Number, FoldersAt, FoldersBytes, SizesAt, SizesBytes, OptionalDigestsAt, Digests, ValidFolders,
      Fits32, AllBare, AllSized, WithCrcs, FolderCrcs;
    SmallFits(|fs|);
    SizedBack(fs);
    var n, f, z, g := Number(|fs|), FoldersBytes(fs), SizesBytes(fs), [10] + (Digests(FolderCrcs(fs)) + [0]);
    UnpackPieces(d, pos, n, f, z, g);
    var p := pos + 1;
    HasByte(d, pos, 11);
    NumberBack(d, p, |fs|);
    HasByte(d, p + |n|, 0);
    var q := p + |n| + 1;
    FoldersBack(d, q, fs);
    HasByte(d, q + |f|, 12);
    SizesBack(d, q + |f| + 1, fs);
    DigestsEnd(d, q + |f| + 1 + |z|, FolderCrcs(fs), UnsupportedUnpackInfo);
  }

  lemma SizedBack(fs: seq<Folder>)
    ensures |AllSized(fs)| == |FolderCrcs(fs)| && WithCrcs(AllSized(fs), FolderCrcs(fs)) == fs
  {
  }

  lemma UnpackPieces(d: seq<byte>, pos: nat, n: seq<byte>, f: seq<byte>, z: seq<byte>, g: seq<byte>)
    requires Has(d, pos, [11] + (n + ([0] + (f + ([12] + (z + g))))))
    ensures var p := pos + 1; var q := p + |n| + 1;
            && Has(d, pos, [11]) && Has(d, p, n) && Has(d, p + |n|, [0])
            && Has(d, q, f) && Has(d, q + |f|, [12]) && Has(d, q + |f| + 1, z) && Has(d, q + |f| + 1 + |z|, g)
  {
    hide Has;
    var p := pos + 1;
    HasSplit(d, pos, [11], n + ([0] + (f + ([12] + (z + g)))));
    HasSplit(d, p, n, [0] + (f + ([12] + (z + g))));
    HasSplit(d, p + |n|, [0], f + ([12] + (z + g)));
    var q := p + |n| + 1;
    HasSplit(d, q, f, [12] + (z + g));
    HasSplit(d, q + |f|, [12], z + g);
    HasSplit(d, q + |f| + 1, z, g);
  }

  // ----- substreams

  function Counts(sizes: seq<seq<nat>>): (counts: seq<nat>)
    ensures |counts| == |sizes| && forall i :: 0 <= i < |sizes| ==> counts[i] == |sizes[i]|
  {
    if sizes == [] then [] else [|sizes[0]|] + Counts(sizes[1..])
  }

  function SubBytes(fs: seq<Folder>, subs: Subs): seq<byte>
    requires |fs| == |subs.sizes| == |subs.crcs|
  {
    [13] + (Numbers(Counts(subs.sizes))
        + ([9] + (Numbers(Leading(subs.sizes)) + ([10] + (Digests(ListedCrcs(fs, subs.crcs)) + [0])))))
  }

  lemma {:induction false} LeadingCount(sizes: seq<seq<nat>>)
    requires forall i :: 0 <= i < |sizes| ==> |sizes[i]| >= 1
    ensures |Leading(sizes)| == LengthCount(Counts(sizes))
  {
    if sizes != [] {
      LeadingCount(sizes[1..]);
      assert Counts(sizes)[1..] == Counts(sizes[1..]);
    }
  }

  /** Handing out the leading lengths gives the sizes back. */
  lemma {:induction false} DistributeBack(before: seq<nat>, fs: seq<Folder>, subs: Subs)
    requires AllAccounted(fs, subs)
    ensures Distribute(before + Leading(subs.sizes), |before|, fs, Counts(subs.sizes)) == Some(subs.sizes)
    decreases |fs|
  {
    hide Sum, Slice, Leading;
    if fs != [] {
      var sizes, rest := subs.sizes[0], Subs(subs.sizes[1..], subs.crcs[1..]);
      var n := |sizes| - 1;
      assert sizes == sizes[..n] + [sizes[n]] && subs.sizes == [sizes] + rest.sizes;
      JoinLeading(sizes[..n], sizes[n], rest.sizes);
      var all := before + Leading(subs.sizes);
      assert Counts(subs.sizes)[1..] == Counts(rest.sizes);
      assert all == (before + sizes[..n]) + Leading(rest.sizes);
      DistributeBack(before + sizes[..n], fs[1..], rest);
      SliceExact(all, |before|, |before| + n);
      assert all[|before|..|before| + n] == sizes[..n];
      SumSnoc(sizes[..n], sizes[n]);
    } else {
      assert subs.sizes == [];
    }
  }

  lemma {:induction false} ListedCount(fs: seq<Folder>, subs: Subs)
    requires AllAccounted(fs, subs)
    ensures |ListedCrcs(fs, subs.crcs)| == NeededCrcs(fs, Counts(subs.sizes))
    ensures |ListedCrcs(fs, subs.crcs)| <= Sum(Counts(subs.sizes))
    decreases |fs|
  {
    if fs != [] {
      ListedCount(fs[1..], Subs(subs.sizes[1..], subs.crcs[1..]));
      assert Counts(subs.sizes)[1..] == Counts(subs.sizes[1..]);
    }
  }

  /** Handing out the listed CRCs gives the CRCs back. */
  lemma {:induction false} AssignBack(before: seq<Option<nat>>, fs: seq<Folder>, subs: Subs)
    requires AllAccounted(fs, subs)
    ensures AssignCrcs(before + ListedCrcs(fs, subs.crcs), |before|, fs, Counts(subs.sizes)) == subs.crcs
    decreases |fs|
  {
    if fs != [] {
      var crcs, rest := subs.crcs[0], Subs(subs.sizes[1..], subs.crcs[1..]);
      var all := before + ListedCrcs(fs, subs.crcs);
      assert Counts(subs.sizes)[1..] == Counts(rest.sizes);
      assert subs.crcs == [crcs] + rest.crcs;
      if Inherits(fs[0], |crcs|) {
        assert all == before + ListedCrcs(fs[1..], rest.crcs);
        AssignBack(before, fs[1..], rest);
      } else {
        assert all == (before + crcs) + ListedCrcs(fs[1..], rest.crcs);
        AssignBack(before + crcs, fs[1..], rest);
        assert all[|before|..|before| + |crcs|] == crcs;
      }
    }
  }

  /** What the format can hold of the substreams. */
  predicate ValidSubs(fs: seq<Folder>, subs: Subs)
    requires |fs| == |subs.sizes| == |subs.crcs|
  {
    && ValidCounts(Counts(subs.sizes)) && AllFit(Leading(subs.sizes)) && Fits32(ListedCrcs(fs, subs.crcs))
  }

  lemma SubBack(d: seq<byte>, pos: nat, fs: seq<Folder>, subs: Subs)
    requires |fs| == |subs.sizes| == |subs.crcs|
    requires AllAccounted(fs, subs) && ValidSubs(fs, subs) && Has(d, pos, SubBytes(fs, subs))
    ensures SubStreamsAt(d, pos, fs) == Got(subs, pos + |SubBytes(fs, subs)|)
  {
    hide Has, NumsAt, Numbers, DigestsAt, Digests, AllFit, Fits32, Leading, ListedCrcs, AllAccounted, Distribute,
      AssignCrcs, NeededCrcs, LengthCount, Sum;
    var counts, lengths, extra := Counts(subs.sizes), Leading(subs.sizes), ListedCrcs(fs, subs.crcs);
    SubCounts(fs, subs);
    var a, b, c := Numbers(counts), Numbers(lengths), Digests(extra);
    HasSplit(d, pos, [13], a + ([9] + (b + ([10] + (c + [0])))));
    HasByte(d, pos, 13);
    var p := pos + 1;
    HasSplit(d, p, a, [9] + (b + ([10] + (c + [0]))));
    NumbersBack(d, p, counts);
    HasSplit(d, p + |a|, [9], b + ([10] + (c + [0])));
    HasByte(d, p + |a|, 9);
    var q := p + |a| + 1;
    HasSplit(d, q, b, [10] + (c + [0]));
    NumbersBack(d, q, lengths);
    HasSplit(d, q + |b|, [10], c + [0]);
    HasByte(d, q + |b|, 10);
    HasSplit(d, q + |b| + 1, c, [0]);
    DigestsBack(d, q + |b| + 1, extra);
    HasByte(d, q + |b| + 1 + |c|, 0);
    DistributeBack([], fs, subs);
    AssignBack([], fs, subs);
    assert [] + lengths == lengths && [] + extra == extra;
  }

  lemma SubCounts(fs: seq<Folder>, subs: Subs)
    requires AllAccounted(fs, subs) && ValidCounts(Counts(subs.sizes))
    ensures |Leading(subs.sizes)| == LengthCount(Counts(subs.sizes))
    ensures |ListedCrcs(fs, subs.crcs)| == NeededCrcs(fs, Counts(subs.sizes)) <= 10000
    ensures AllFit(Counts(subs.sizes))
  {
    hide Fits64;
    var counts := Counts(subs.sizes);
    assert forall i :: 0 <= i < |subs.sizes| ==> counts[i] >= 1;
    LeadingCount(subs.sizes);
    ListedCount(fs, subs);
    forall i | 0 <= i < |counts| ensures Fits64(counts[i]) {
      SmallFits(counts[i]);
    }
  }

  // ----- the whole

  function FoldersOf(blocks: seq<Block>): (r: seq<Folder>)
    ensures |r| == |blocks|
  {
    if blocks == [] then [] else [blocks[0].folder] + FoldersOf(blocks[1..])
  }

  function PackSizes(blocks: seq<Block>): (r: seq<nat>)
    ensures |r| == |blocks|
  {
    if blocks == [] then [] else [blocks[0].packSize] + PackSizes(blocks[1..])
  }

  function SubsOf(blocks: seq<Block>): (r: Subs)
    ensures |r.sizes| == |r.crcs| == |blocks|
  {
    if blocks == [] then Subs([], [])
    else
      var rest := SubsOf(blocks[1..]);
      Subs([blocks[0].subSizes] + rest.sizes, [blocks[0].subCrcs] + rest.crcs)
  }

  /** Metadata the format can hold: as many folders, coders and substreams as it allows, numbers of 64
      and CRCs of 32 bits. */
  predicate Writable(blocks: seq<Block>) {
    && 1 <= |blocks| <= 10000
    && Fits64(blocks[0].packPos) && AllFit(PackSizes(blocks))
    && ValidFolders(FoldersOf(blocks)) && Fits32(FolderCrcs(FoldersOf(blocks)))
    && ValidSubs(FoldersOf(blocks), SubsOf(blocks))
  }

  function StreamBytes(blocks: seq<Block>): seq<byte>
    requires Writable(blocks)
  {
    [6] + (PackBytes(blocks[0].packPos, PackSizes(blocks))
      + ([7] + (UnpackBytes(FoldersOf(blocks)) + ([8] + (SubBytes(FoldersOf(blocks), SubsOf(blocks)) + [0])))))
  }

  lemma {:induction false} PlaceBack(blocks: seq<Block>, pos: nat)
    requires Conserved(blocks, pos)
    ensures Place(pos, PackSizes(blocks), FoldersOf(blocks), SubsOf(blocks)) == blocks
    ensures AllAccounted(FoldersOf(blocks), SubsOf(blocks))
    decreases |blocks|
  {
    hide Accounted;
    if blocks != [] {
      PlaceBack(blocks[1..], pos + blocks[0].packSize);
      assert PackSizes(blocks)[1..] == PackSizes(blocks[1..]) && FoldersOf(blocks)[1..] == FoldersOf(blocks[1..]);
      var subs, rest := SubsOf(blocks), SubsOf(blocks[1..]);
      assert subs.sizes[1..] == rest.sizes && subs.crcs[1..] == rest.crcs;
      assert blocks == [blocks[0]] + blocks[1..];
    }
  }

  lemma SectionBack(d: seq<byte>, pos: nat, st: Progress, tag: byte, s: seq<byte>, next: Progress)
    requires Shaped(st) && Shaped(next) && tag != 0 && Has(d, pos, [tag] + s)
    requires SectionAt(d, pos + 1, st, tag) == Got(next, pos + 1 + |s|)
    ensures SectionsAt(d, pos, st) == SectionsAt(d, pos + |[tag] + s|, next)
  {
    hide SectionAt, Has;
    HasSplit(d, pos, [tag], s);
    HasByte(d, pos, tag);
  }

  /** Whatever conserved metadata the format can hold: written, anywhere in the data, and parsed, it comes
      back as it was, and the parser stops right after it. */
  lemma StreamInfoRoundTrip(blocks: seq<Block>, d: seq<byte>, pos: nat)
    requires Writable(blocks) && Conserved(blocks, blocks[0].packPos)
    requires Has(d, pos, StreamBytes(blocks))
    ensures StreamInfoAt(d, pos) == Got(blocks, pos + |StreamBytes(blocks)|)
  {
    hide Has, PackInfoAt, PackBytes, UnpackInfoAt, UnpackBytes, SubStreamsAt, SubBytes, AllAccounted, ValidFolders,
      Fits32, Fits64, AllFit, ValidSubs, SectionsAt, Place, Conserved;
    var packPos, sizes, fs, subs := blocks[0].packPos, PackSizes(blocks), FoldersOf(blocks), SubsOf(blocks);
    PlaceBack(blocks, packPos);
    var a, b, c := PackBytes(packPos, sizes), UnpackBytes(fs), SubBytes(fs, subs);
    var st0 := Progress(None, None, None);
    var st1 := st0.(pack := Some((packPos, sizes)));
    var st2 := st1.(folders := Some(fs));
    var st3 := st2.(subs := Some(subs));
    ThreeSections(d, pos, a, b, c);
    var p := pos + |[6] + a|;
    var q := p + |[7] + b|;
    HasSplit(d, pos, [6], a);
    PackBack(d, pos + 1, packPos, sizes);
    SectionBack(d, pos, st0, 6, a, st1);
    HasSplit(d, p, [7], b);
    UnpackBack(d, p + 1, fs);
    SectionBack(d, p, st1, 7, b, st2);
    HasSplit(d, q, [8], c);
    SubBack(d, q + 1, fs, subs);
    SectionBack(d, q, st2, 8, c, st3);
    LastSection(d, q + |[8] + c|, st3);
  }

  lemma LastSection(d: seq<byte>, pos: nat, st: Progress)
    requires Shaped(st) && Has(d, pos, [0])
    ensures SectionsAt(d, pos, st) == Got(st, pos + 1)
  {
    HasByte(d, pos, 0);
  }

  lemma ThreeSections(d: seq<byte>, pos: nat, a: seq<byte>, b: seq<byte>, c: seq<byte>)
    requires Has(d, pos, [6] + (a + ([7] + (b + ([8] + (c + [0]))))))
    ensures var p := pos + |[6] + a|; var q := p + |[7] + b|; var r := q + |[8] + c|;
            Has(d, pos, [6] + a) && Has(d, p, [7] + b) && Has(d, q, [8] + c) && Has(d, r, [0])
  {
    hide Has;
    var p := pos + |[6] + a|;
    var q := p + |[7] + b|;
    assert [6] + (a + ([7] + (b + ([8] + (c + [0]))))) == ([6] + a) + (([7] + b) + (([8] + c) + [0]));
    HasSplit(d, pos, [6] + a, ([7] + b) + (([8] + c) + [0]));
    HasSplit(d, p, [7] + b, ([8] + c) + [0]);
    HasSplit(d, q, [8] + c, [0]);
  }

  // ----- nothing else is accepted

  lemma NumFits(d: seq<byte>, pos: nat)
    requires NumAt(d, pos).Got?
    ensures Fits64(NumAt(d, pos).value)
  {
    NumBound(d, pos);
  }

  lemma {:induction false} NumsFit(d: seq<byte>, pos: nat, n: nat)
    requires NumsAt(d, pos, n).Got?
    ensures AllFit(NumsAt(d, pos, n).value)
    decreases n
  {
    hide NumAt, Fits64;
    if n > 0 {
      NumFits(d, pos);
      var (_, p) := NumAt(d, pos).Extract();
      NumsFit(d, p, n - 1);
    }
  }

  lemma CrcFits(d: seq<byte>, pos: nat)
    requires CrcAt(d, pos).Got?
    ensures CrcAt(d, pos).value < Pow2(32)
  {
    LittleEndianBound(d[pos..pos + 4]);
  }

  lemma {:induction false} CrcsFitAt(d: seq<byte>, pos: nat, defined: seq<bool>)
    requires CrcsAt(d, pos, defined).Got?
    ensures Fits32(CrcsAt(d, pos, defined).value)
    decreases |defined|
  {
    hide CrcAt, Pow2;
    if defined != [] {
      if defined[0] {
        CrcFits(d, pos);
        CrcsFitAt(d, CrcAt(d, pos).pos, defined[1..]);
      } else {
        CrcsFitAt(d, pos, defined[1..]);
      }
    }
  }

  lemma DigestsFit(d: seq<byte>, pos: nat, n: nat)
    requires DigestsAt(d, pos, n).Got?
    ensures Fits32(DigestsAt(d, pos, n).value)
  {
    hide CrcsAt, Fits32, BitVector;
    var (all, p) := U8At(d, pos).Extract();
    if all != 0 {
      CrcsFitAt(d, p, seq(n, i => true));
    } else {
      var (bits, q) := RawAt(d, p, (n + 7) / 8).Extract();
      CrcsFitAt(d, q, BitVector(bits, n));
    }
  }

  lemma OptionalFit(d: seq<byte>, pos: nat, n: nat, otherwise: Reason)
    requires OptionalDigestsAt(d, pos, n, otherwise).Got?
    ensures Fits32(OptionalDigestsAt(d, pos, n, otherwise).value)
  {
    hide DigestsAt, Fits32;
    var (tag, p) := U8At(d, pos).Extract();
    if tag == 10 {
      DigestsFit(d, p, n);
    } else {
      NoCrcs(n);
    }
  }

  lemma NoCrcs(n: nat)
    ensures Fits32(seq(n, i => None))
  {
  }

  lemma CoderIsValid(d: seq<byte>, pos: nat)
    requires CoderAt(d, pos).Got?
    ensures ValidCoder(CoderAt(d, pos).value)
  {
    hide And, NumAt;
    var (flags, p) := U8At(d, pos).Extract();
    MaskIsSmall(flags);
  }

  lemma MaskIsSmall(flags: byte)
    ensures And(flags, 0x0F) <= 15
  {
    PowersOfTwo();
    AndMask(flags, 4);
  }

  lemma {:induction false} CodersAreValid(d: seq<byte>, pos: nat, n: nat)
    requires CodersAt(d, pos, n).Got?
    ensures forall i :: 0 <= i < n ==> ValidCoder(CodersAt(d, pos, n).value[i])
    decreases n
  {
    hide CoderAt, ValidCoder;
    if n > 0 {
      CoderIsValid(d, pos);
      CodersAreValid(d, CoderAt(d, pos).pos, n - 1);
    }
  }

  lemma {:induction false} BindsFitAt(d: seq<byte>, pos: nat, n: nat)
    requires BindsAt(d, pos, n).Got?
    ensures BindsFit(BindsAt(d, pos, n).value)
    decreases n
  {
    hide NumAt, Fits64;
    if n > 0 {
      NumFits(d, pos);
      NumFits(d, NumAt(d, pos).pos);
      BindsFitAt(d, NumAt(d, NumAt(d, pos).pos).pos, n - 1);
    }
  }

  /** The coders and bind pairs of a folder, before its sizes are known. */
  predicate ValidGraph(f: Folder) {
    && 1 <= |f.coders| <= 4 && (forall i :: 0 <= i < |f.coders| ==> ValidCoder(f.coders[i]))
    && |f.binds| == |f.coders| - 1 && BindsFit(f.binds)
  }

  lemma FolderIsValid(d: seq<byte>, pos: nat)
    requires FolderAt(d, pos).Got?
    ensures ValidGraph(FolderAt(d, pos).value)
  {
    hide NumAt, CodersAt, BindsAt, BindsFit, ValidCoder;
    var (count, p) := NumAt(d, pos).Extract();
    CodersAreValid(d, p, count);
    BindsFitAt(d, CodersAt(d, p, count).pos, count - 1);
  }

  lemma {:induction false} FoldersAreValid(d: seq<byte>, pos: nat, n: nat)
    requires FoldersAt(d, pos, n).Got?
    ensures forall i :: 0 <= i < n ==> ValidGraph(FoldersAt(d, pos, n).value[i])
    decreases n
  {
    hide FolderAt, ValidGraph;
    if n > 0 {
      FolderIsValid(d, pos);
      FoldersAreValid(d, FolderAt(d, pos).pos, n - 1);
    }
  }

  lemma {:induction false} SizedAreValid(d: seq<byte>, pos: nat, fs: seq<Folder>)
    requires SizesAt(d, pos, fs).Got? && forall i :: 0 <= i < |fs| ==> ValidGraph(fs[i])
    ensures ValidFolders(SizesAt(d, pos, fs).value)
    decreases |fs|
  {
    hide NumsAt, AllFit, BindsFit, ValidCoder;
    if fs != [] {
      var (sizes, p) := NumsAt(d, pos, |fs[0].coders|).Extract();
      NumsFit(d, pos, |fs[0].coders|);
      SizedAreValid(d, p, fs[1..]);
      assert ValidFolder(fs[0].(unpackSizes := sizes));
    }
  }

  /** What a section said is within what the format can hold. */
  predicate ValidUnpack(fs: seq<Folder>) {
    1 <= |fs| <= 10000 && ValidFolders(fs) && Fits32(FolderCrcs(fs))
  }

  lemma UnpackIsValid(d: seq<byte>, pos: nat)
    requires UnpackInfoAt(d, pos).Got?
    ensures ValidUnpack(UnpackInfoAt(d, pos).value)
  {
    hide NumAt, FoldersAt, SizesAt, OptionalDigestsAt, ValidGraph, ValidFolders, Fits32, TagAt;
    var (_, p) := TagAt(d, pos, 11).Extract();
    var (count, q) := NumAt(d, p).Extract();
    var (external, s) := U8At(d, q).Extract();
    var (folders, t) := FoldersAt(d, s, count).Extract();
    FoldersAreValid(d, s, count);
    var (_, u) := TagAt(d, t, 12).Extract();
    var (sized, w) := SizesAt(d, u, folders).Extract();
    SizedAreValid(d, u, folders);
    var (crcs, x) := OptionalDigestsAt(d, w, count, UnsupportedUnpackInfo).Extract();
    OptionalFit(d, w, count, UnsupportedUnpackInfo);
    CrcsAside(sized, crcs);
  }

  lemma CrcsAside(fs: seq<Folder>, crcs: seq<Option<nat>>)
    requires |crcs| == |fs| && ValidFolders(fs)
    ensures ValidFolders(WithCrcs(fs, crcs)) && FolderCrcs(WithCrcs(fs, crcs)) == crcs
  {
    hide BindsFit, AllFit, ValidCoder;
  }

  lemma PackIsValid(d: seq<byte>, pos: nat)
    requires PackInfoAt(d, pos).Got?
    ensures var (packPos, sizes) := PackInfoAt(d, pos).value; Fits64(packPos) && 1 <= |sizes| <= 10000 && AllFit(sizes)
  {
    hide NumAt, NumsAt, OptionalDigestsAt, AllFit, Fits64, TagAt;
    var (packPos, p) := NumAt(d, pos).Extract();
    NumFits(d, pos);
    var (count, q) := NumAt(d, p).Extract();
    var (_, s) := TagAt(d, q, 9).Extract();
    NumsFit(d, s, count);
  }

  lemma {:induction false} CountsOf(fs: seq<Folder>, counts: seq<nat>, sizes: seq<seq<nat>>)
    requires SizesFit(fs, counts, sizes)
    ensures Counts(sizes) == counts
    decreases |fs|
  {
    hide Sum;
    if fs != [] {
      CountsOf(fs[1..], counts[1..], sizes[1..]);
      assert counts == [counts[0]] + counts[1..];
    }
  }

  lemma SubCrcsValid(d: seq<byte>, pos: nat, fs: seq<Folder>, counts: seq<nat>, lengths: seq<nat>, tag: byte)
    requires |counts| == |fs| && ValidCounts(counts) && |lengths| == LengthCount(counts) && AllFit(lengths)
    requires SubCrcsAt(d, pos, fs, counts, lengths, tag).Got?
    ensures ValidSubs(fs, SubCrcsAt(d, pos, fs, counts, lengths, tag).value)
  {
    hide Distribute, DigestsAt, AssignCrcs, NeededCrcs, Fits32, AllFit, Leading, ListedCrcs, Sum;
    DistributeConserves(lengths, 0, fs, counts);
    var sizes := Distribute(lengths, 0, fs, counts).value;
    CountsOf(fs, counts, sizes);
    assert lengths[0..] == lengths;
    var needed := NeededCrcs(fs, counts);
    var extra: seq<Option<nat>> := seq(needed, i => None);
    if tag == 10 {
      DigestsFit(d, pos, needed);
      extra := DigestsAt(d, pos, needed).value;
    } else {
      NoCrcs(needed);
    }
    AssignConserves(extra, 0, fs, counts);
    assert extra[0..] == extra;
  }

  lemma SubSizesValid(d: seq<byte>, pos: nat, fs: seq<Folder>, counts: seq<nat>, tag: byte)
    requires |counts| == |fs| && SubSizesAt(d, pos, fs, counts, tag).Got?
    ensures ValidSubs(fs, SubSizesAt(d, pos, fs, counts, tag).value)
  {
    hide SubCrcsAt, NumsAt, AllFit, ValidSubs, LengthCount, Sum;
    if tag == 9 {
      var (lengths, p) := NumsAt(d, pos, LengthCount(counts)).Extract();
      NumsFit(d, pos, LengthCount(counts));
      var (next, q) := U8At(d, p).Extract();
      SubCrcsValid(d, q, fs, counts, lengths, next);
    } else {
      OnesNeedNoLengths(counts);
      NothingFits();
      SubCrcsValid(d, pos, fs, counts, [], tag);
    }
  }

  lemma NothingFits()
    ensures AllFit([])
  {
  }

  lemma SubStreamsValid(d: seq<byte>, pos: nat, fs: seq<Folder>)
    requires SubStreamsAt(d, pos, fs).Got?
    ensures ValidSubs(fs, SubStreamsAt(d, pos, fs).value)
  {
    hide SubSizesAt, NumsAt, ValidSubs;
    var (tag, p) := U8At(d, pos).Extract();
    if tag == 13 {
      var (counts, q) := NumsAt(d, p, |fs|).Extract();
      var (next, s) := U8At(d, q).Extract();
      SubSizesValid(d, s, fs, counts, next);
    } else {
      SubSizesValid(d, p, fs, seq(|fs|, i => 1), tag);
    }
  }

  predicate ValidProgress(st: Progress)
    requires Shaped(st)
  {
    && (st.pack.Some? ==> Fits64(st.pack.value.0) && 1 <= |st.pack.value.1| <= 10000 && AllFit(st.pack.value.1))
    && (st.folders.Some? ==> ValidUnpack(st.folders.value))
    && (st.subs.Some? ==> ValidSubs(st.folders.value, st.subs.value))
  }

  lemma SectionValid(d: seq<byte>, pos: nat, st: Progress, tag: byte)
    requires Shaped(st) && ValidProgress(st) && SectionAt(d, pos, st, tag).Got?
    ensures ValidProgress(SectionAt(d, pos, st, tag).value)
  {
    hide PackInfoAt, UnpackInfoAt, SubStreamsAt, ValidUnpack, ValidSubs, Fits64, AllFit;
    if tag == 6 {
      PackIsValid(d, pos);
    } else if tag == 7 {
      UnpackIsValid(d, pos);
    } else {
      SubStreamsValid(d, pos, st.folders.value);
    }
  }

  lemma {:induction false} SectionsValid(d: seq<byte>, pos: nat, st: Progress)
    requires Shaped(st) && ValidProgress(st) && SectionsAt(d, pos, st).Got?
    ensures ValidProgress(SectionsAt(d, pos, st).value)
    decreases |d| - pos
  {
    hide SectionAt, ValidProgress;
    var (tag, p) := U8At(d, pos).Extract();
    if tag != 0 {
      SectionValid(d, p, st, tag);
      var (next, q) := SectionAt(d, p, st, tag).Extract();
      SectionsValid(d, q, next);
    }
  }

  /** Taking placed blocks apart again. */
  lemma {:induction false} PlacedParts(pos: nat, sizes: seq<nat>, fs: seq<Folder>, subs: Subs)
    requires |sizes| == |fs| == |subs.sizes| == |subs.crcs|
    ensures var blocks := Place(pos, sizes, fs, subs);
            && PackSizes(blocks) == sizes && FoldersOf(blocks) == fs && SubsOf(blocks) == subs
            && (blocks != [] ==> blocks[0].packPos == pos)
    decreases |fs|
  {
    if fs != [] {
      PlacedParts(pos + sizes[0], sizes[1..], fs[1..], Subs(subs.sizes[1..], subs.crcs[1..]));
      assert sizes == [sizes[0]] + sizes[1..] && fs == [fs[0]] + fs[1..];
      assert subs.sizes == [subs.sizes[0]] + subs.sizes[1..] && subs.crcs == [subs.crcs[0]] + subs.crcs[1..];
    }
  }

  /** Folders without a substream section have one substream each. */
  lemma WholeValid(fs: seq<Folder>)
    requires ValidUnpack(fs)
    ensures ValidSubs(fs, WholeFolders(fs))
  {
    var subs := WholeFolders(fs);
    var counts := Counts(subs.sizes);
    assert forall i :: 0 <= i < |counts| ==> counts[i] == 1;
    hide Fits64;
    OnesSum(counts);
    OnesLead(subs.sizes);
    WholeListed(fs, subs.crcs);
  }

  lemma {:induction false} OnesSum(counts: seq<nat>)
    requires forall i :: 0 <= i < |counts| ==> counts[i] == 1
    ensures Sum(counts) == |counts|
  {
    if counts != [] {
      OnesSum(counts[1..]);
    }
  }

  lemma {:induction false} OnesLead(sizes: seq<seq<nat>>)
    requires forall i :: 0 <= i < |sizes| ==> |sizes[i]| == 1
    ensures Leading(sizes) == []
  {
    if sizes != [] {
      OnesLead(sizes[1..]);
    }
  }

  lemma {:induction false} WholeListed(fs: seq<Folder>, crcs: seq<seq<Option<nat>>>)
    requires |crcs| == |fs| && forall i :: 0 <= i < |fs| ==> crcs[i] == [fs[i].folderCrc]
    ensures forall i :: 0 <= i < |ListedCrcs(fs, crcs)| ==> ListedCrcs(fs, crcs)[i].None?
  {
    if fs != [] {
      WholeListed(fs[1..], crcs[1..]);
    }
  }

  lemma AcceptedWritable(d: seq<byte>, pos: nat)
    requires StreamInfoAt(d, pos).Got?
    ensures Writable(StreamInfoAt(d, pos).value)
  {
    hide SectionsAt, ValidFolders, Fits32, Fits64, AllFit, ValidSubs, Place, WholeFolders;
    var start := Progress(None, None, None);
    SectionsValid(d, pos, start);
    var st := SectionsAt(d, pos, start).value;
    var fs := st.folders.value;
    WholeValid(fs);
    PlacedParts(st.pack.value.0, st.pack.value.1, fs, if st.subs.Some? then st.subs.value else WholeFolders(fs));
  }

  ghost predicate Accepted(blocks: seq<Block>) {
    exists d, pos :: StreamInfoAt(d, pos).Got? && StreamInfoAt(d, pos).value == blocks
  }

  /** The stream sections the parser accepts say exactly the conserved metadata the format can hold. */
  lemma AcceptsExactly(blocks: seq<Block>)
    ensures Accepted(blocks) <==> blocks != [] && Writable(blocks) && Conserved(blocks, blocks[0].packPos)
  {
    hide StreamInfoAt, Writable, Conserved, StreamBytes;
    if Accepted(blocks) {
      var d, pos :| StreamInfoAt(d, pos).Got? && StreamInfoAt(d, pos).value == blocks;
      AcceptedWritable(d, pos);
      StreamInfoConserves(d, pos);
      NotEmpty(blocks);
    }
    if blocks != [] && Writable(blocks) && Conserved(blocks, blocks[0].packPos) {
      var d := StreamBytes(blocks);
      assert Has(d, 0, d);
      StreamInfoRoundTrip(blocks, d, 0);
      assert Accepted(blocks);
    }
  }

  lemma NotEmpty(blocks: seq<Block>)
    requires Writable(blocks)
    ensures blocks != []
  {
  }
}
