/** A writer of the file section after the format description (7zFormat.txt, section "FilesInfo"), and what
    the parser makes of it: which file is which substream, and which entries have none. */
module SevenZipFilesWriter {
  import opened Bits
  import opened Wrappers
  import opened ArchiveFiles
  import opened SevenZipNumber
  import opened SevenZipStreams
  import opened SevenZipFiles
  import opened SevenZipWriter
  import SevenZipHeader

  // ----- names

  /** A Unicode scalar value. */
  predicate Scalar(c: nat) {
    c < 0xD800 || 0xE000 <= c < 0x11_0000
  }

  ghost predicate Scalars(s: seq<nat>) {
    forall i :: 0 <= i < |s| ==> Scalar(s[i])
  }

  /** UTF-16 (RFC 2781, section 2.1). */
  function Utf16(s: seq<nat>): seq<nat>
    requires Scalars(s)
  {
    if s == [] then []
    else
      (if s[0] < 0x1_0000 then [s[0]]
       else [0xD800 + (s[0] - 0x1_0000) / 0x400, 0xDC00 + (s[0] - 0x1_0000) % 0x400]) + Utf16(s[1..])
  }

  lemma {:induction false} Utf16Append(a: seq<nat>, b: seq<nat>)
    requires Scalars(a) && Scalars(b)
    ensures Utf16(a + b) == Utf16(a) + Utf16(b)
  {
    if a == [] {
      assert a + b == b;
    } else {
      assert (a + b)[1..] == a[1..] + b;
      Utf16Append(a[1..], b);
    }
  }

  ghost predicate Narrow(units: seq<nat>) {
    forall i :: 0 <= i < |units| ==> units[i] < 0x1_0000
  }

  /** What is encoded is valid, and zero stands for nothing but itself. */
  lemma {:induction false} Utf16Valid(s: seq<nat>)
    requires Scalars(s)
    ensures ValidUtf16(Utf16(s)) && Narrow(Utf16(s)) && (0 !in s ==> 0 !in Utf16(s))
  {
    if s != [] {
      Utf16Valid(s[1..]);
      var u := Utf16(s);
      if s[0] < 0x1_0000 {
        assert u[1..] == Utf16(s[1..]);
      } else {
        assert (s[0] - 0x1_0000) / 0x400 < 0x400;
        assert u[2..] == Utf16(s[1..]);
      }
    }
  }

  /** Low byte first. */
  function UnitBytes(units: seq<nat>): (s: seq<byte>)
    requires Narrow(units)
    ensures |s| == 2 * |units|
  {
    if units == [] then [] else [units[0] % 256, units[0] / 256] + UnitBytes(units[1..])
  }

  lemma {:induction false} UnitsBack(units: seq<nat>)
    requires Narrow(units)
    ensures Units(UnitBytes(units)) == units
  {
    if units != [] {
      UnitsBack(units[1..]);
      assert UnitBytes(units)[2..] == UnitBytes(units[1..]);
    }
  }

  // ----- entries

  /** What an entry of the archive is; only a stream has bytes. A tombstone marks a deletion, of a file or
      of a directory. */
  datatype Kind = Stream | EmptyFile | Directory | Tombstone(file: bool)

  datatype Item = Item(name: seq<nat>, kind: Kind)

  ghost predicate ValidItems(items: seq<Item>) {
    forall i :: 0 <= i < |items| ==> Scalars(items[i].name) && 0 !in items[i].name
  }

  function NameOf(it: Item): FileName
    requires Scalars(it.name)
  {
    Utf16(it.name)
  }

  function NamesOf(items: seq<Item>): (r: seq<FileName>)
    requires ValidItems(items)
    ensures |r| == |items|
  {
    seq(|items|, i requires 0 <= i < |items| => NameOf(items[i]))
  }

  /** All names as text, each ended by a zero. */
  function NameText(items: seq<Item>): (s: seq<nat>)
    requires ValidItems(items)
    ensures Scalars(s)
  {
    if items == [] then [] else items[0].name + [0] + NameText(items[1..])
  }

  lemma {:induction false} TextIsNames(items: seq<Item>)
    requires ValidItems(items)
    ensures Utf16(NameText(items)) == JoinNames(NamesOf(items))
  {
    if items != [] {
      TextIsNames(items[1..]);
      Utf16Append(items[0].name + [0], NameText(items[1..]));
      Utf16Append(items[0].name, [0]);
      assert Utf16([0]) == [0];
      assert NamesOf(items)[1..] == NamesOf(items[1..]);
    }
  }

  lemma {:induction false} NamesClean(items: seq<Item>)
    requires ValidItems(items)
    ensures forall i :: 0 <= i < |items| ==> 0 !in NamesOf(items)[i]
  {
    forall i | 0 <= i < |items| ensures 0 !in NamesOf(items)[i] {
      Utf16Valid(items[i].name);
    }
  }

  lemma {:induction false} JoinEnds(names: seq<FileName>)
    requires names != []
    ensures JoinNames(names) != [] && JoinNames(names)[|JoinNames(names)| - 1] == 0
  {
    if |names| > 1 {
      JoinEnds(names[1..]);
    }
  }

  lemma {:induction false} LastUnit(units: seq<nat>)
    requires Narrow(units) && units != []
    ensures var s, u := UnitBytes(units), units[|units| - 1]; s[|s| - 2..] == [u % 256, u / 256]
  {
    if |units| > 1 {
      LastUnit(units[1..]);
    }
  }

  function NameBytes(items: seq<Item>): (s: seq<byte>)
    requires ValidItems(items)
  {
    Utf16Valid(NameText(items));
    UnitBytes(Utf16(NameText(items)))
  }

  lemma NamesBack(items: seq<Item>)
    requires ValidItems(items) && items != []
    ensures NamesFrom(NameBytes(items)) == Ok(NamesOf(items))
  {
    hide Units, ValidUtf16, SplitNames, JoinNames, Utf16, UnitBytes, NamesFrom, NamesOf, NameText;
    var units := Utf16(NameText(items));
    Utf16Valid(NameText(items));
    TextIsNames(items);
    NamesClean(items);
    NamesRoundTrip(NamesOf(items));
    JoinEnds(NamesOf(items));
    LastUnit(units);
    UnitsBack(units);
    NamesFromUnits(NameBytes(items), units);
  }

  lemma NamesFromUnits(chars: seq<byte>, units: seq<nat>)
    requires |chars| % 2 == 0 && |chars| >= 2 && chars[|chars| - 2..] == [0, 0]
    requires Units(chars) == units && ValidUtf16(units)
    ensures NamesFrom(chars) == Ok(SplitNames(units, []))
  {
    hide Units, ValidUtf16, SplitNames;
  }

  // ----- properties

  /** A property the parser has no use for: times, attributes, padding. */
  datatype Extra = Extra(tag: byte, content: seq<byte>)

  ghost predicate ValidExtras(extras: seq<Extra>) {
    forall i :: 0 <= i < |extras| ==>
      extras[i].tag !in {0, 14, 15, 16, 17} && |extras[i].content| <= HEADER_LIMIT
  }

  function PropBytes(tag: byte, content: seq<byte>): seq<byte> {
    [tag] + Number(|content|) + content
  }

  function ExtraBytes(extras: seq<Extra>): seq<byte> {
    if extras == [] then [] else PropBytes(extras[0].tag, extras[0].content) + ExtraBytes(extras[1..])
  }

  lemma LimitFits(n: nat)
    requires n <= HEADER_LIMIT
    ensures Fits64(n)
  {
    hide Pow2;
    TwentyFour();
    Pow2Monotone(25, 64);
  }

  lemma TwentyFour()
    ensures Pow2(24) == HEADER_LIMIT && Pow2(25) == 2 * HEADER_LIMIT
  {
    assert Pow2(8) == 256;
    Pow2Add(8, 8);
    Pow2Add(16, 8);
  }

  /** A property that is written next takes effect, and the rest follows. */
  lemma PropBack(d: seq<byte>, pos: nat, tag: byte, content: seq<byte>, count: nat, st: Props)
    requires |st.present| == count && tag != 0 && |content| <= HEADER_LIMIT
    requires Has(d, pos, PropBytes(tag, content)) && Property(tag, content, count, st).Ok?
    ensures PropsAt(d, pos, count, st)
         == PropsAt(d, pos + |PropBytes(tag, content)|, count, Property(tag, content, count, st).value)
  {
    hide Has, Property, NumAt, Number, Fits64;
    LimitFits(|content|);
    var n := Number(|content|);
    HasSplit(d, pos, [tag] + n, content);
    HasSplit(d, pos, [tag], n);
    HasByte(d, pos, tag);
    NumberBack(d, pos + 1, |content|);
    HasRaw(d, pos + 1 + |n|, content);
  }

  lemma {:induction false} ExtrasBack(d: seq<byte>, pos: nat, extras: seq<Extra>, count: nat, st: Props)
    requires |st.present| == count && ValidExtras(extras) && Has(d, pos, ExtraBytes(extras))
    ensures PropsAt(d, pos, count, st) == PropsAt(d, pos + |ExtraBytes(extras)|, count, st)
    decreases |extras|
  {
    hide Has, PropsAt, PropBytes;
    if extras != [] {
      var first, rest := PropBytes(extras[0].tag, extras[0].content), ExtraBytes(extras[1..]);
      HasSplit(d, pos, first, rest);
      assert Property(extras[0].tag, extras[0].content, count, st) == Ok(st);
      PropBack(d, pos, extras[0].tag, extras[0].content, count, st);
      ExtrasBack(d, pos + |first|, extras[1..], count, st);
    }
  }

  /** A bit vector that is written only when one of its bits is set. */
  function VectorBytes(tag: byte, bits: seq<bool>): seq<byte> {
    if true in bits then PropBytes(tag, BitBytes(bits)) else []
  }

  /** The entries without a stream. */
  function Streamless(items: seq<Item>): (r: seq<Item>)
    ensures |r| <= |items|
  {
    if items == [] then [] else (if items[0].kind.Stream? then [] else [items[0]]) + Streamless(items[1..])
  }

  /** Which entries have a stream. */
  function Presence(items: seq<Item>): (r: seq<bool>)
    ensures |r| == |items|
  {
    seq(|items|, i requires 0 <= i < |items| => items[i].kind.Stream?)
  }

  function EmptyBits(items: seq<Item>): (r: seq<bool>)
    ensures |r| == |items|
  {
    seq(|items|, i requires 0 <= i < |items| => !items[i].kind.Stream?)
  }

  /** Of the entries without a stream, which are files. */
  function FileBits(items: seq<Item>): (r: seq<bool>)
    ensures |r| == |items|
  {
    seq(|items|, i requires 0 <= i < |items| => items[i].kind == EmptyFile || items[i].kind == Tombstone(true))
  }

  function AntiBits(items: seq<Item>): (r: seq<bool>)
    ensures |r| == |items|
  {
    seq(|items|, i requires 0 <= i < |items| => items[i].kind.Tombstone?)
  }

  /** The whole section. */
  function SectionBytes(items: seq<Item>, extras: seq<Extra>): seq<byte>
    requires ValidItems(items)
  {
    var empty := Streamless(items);
    Number(|items|) + (ExtraBytes(extras) + (VectorBytes(14, EmptyBits(items)) + (VectorBytes(15, FileBits(empty))
      + (VectorBytes(16, AntiBits(empty)) + (PropBytes(17, [0] + NameBytes(items)) + [0])))))
  }

  function VectorOf(bits: seq<bool>): Option<seq<byte>> {
    if true in bits then Some(BitBytes(bits)) else None
  }

  /** What the properties come to. */
  function PropsOf(items: seq<Item>): (r: Props)
    requires ValidItems(items)
    ensures |r.present| == |items|
  {
    var empty := Streamless(items);
    Props(Some(NamesOf(items)), Presence(items), VectorOf(FileBits(empty)), VectorOf(AntiBits(empty)))
  }

  lemma SmallVector(bits: seq<bool>)
    requires |bits| <= 10000
    ensures |BitBytes(bits)| <= HEADER_LIMIT
  {
  }

  lemma EmptyVectorBack(d: seq<byte>, pos: nat, items: seq<Item>, st: Props)
    requires 1 <= |items| <= 10000 && st.present == seq(|items|, i => true)
    requires Has(d, pos, VectorBytes(14, EmptyBits(items)))
    ensures PropsAt(d, pos, |items|, st)
         == PropsAt(d, pos + |VectorBytes(14, EmptyBits(items))|, |items|,
                    st.(present := Presence(items)))
  {
    hide Has, PropsAt, PropBytes, BitBytes, BitAt;
    var bits := EmptyBits(items);
    var present := Presence(items);
    if true in bits {
      SmallVector(bits);
      forall i | 0 <= i < |items| ensures BitAt(BitBytes(bits), i) == bits[i] {
        BitBack(bits, i);
      }
      var sub := BitBytes(bits);
      assert seq(|items|, i requires 0 <= i < |items| => !BitAt(sub, i)) == present;
      assert Property(14, sub, |items|, st) == Ok(st.(present := present));
      PropBack(d, pos, 14, sub, |items|, st);
    } else {
      forall i | 0 <= i < |items| ensures items[i].kind.Stream? {
        assert bits[i] in bits;
      }
      assert present == st.present;
    }
  }

  lemma FileVectorBack(d: seq<byte>, pos: nat, bits: seq<bool>, count: nat, st: Props)
    requires |st.present| == count && |bits| <= 10000 && Has(d, pos, VectorBytes(15, bits)) && st.emptyFile == None
    ensures PropsAt(d, pos, count, st)
         == PropsAt(d, pos + |VectorBytes(15, bits)|, count, st.(emptyFile := VectorOf(bits)))
  {
    hide Has, PropsAt, PropBytes, BitBytes;
    if true in bits {
      SmallVector(bits);
      PropBack(d, pos, 15, BitBytes(bits), count, st);
    }
  }

  lemma AntiVectorBack(d: seq<byte>, pos: nat, bits: seq<bool>, count: nat, st: Props)
    requires |st.present| == count && |bits| <= 10000 && Has(d, pos, VectorBytes(16, bits)) && st.anti == None
    ensures PropsAt(d, pos, count, st)
         == PropsAt(d, pos + |VectorBytes(16, bits)|, count, st.(anti := VectorOf(bits)))
  {
    hide Has, PropsAt, PropBytes, BitBytes;
    if true in bits {
      SmallVector(bits);
      PropBack(d, pos, 16, BitBytes(bits), count, st);
    }
  }

  lemma NamesPropBack(d: seq<byte>, pos: nat, items: seq<Item>, st: Props)
    requires |st.present| == |items| && items != [] && ValidItems(items) && 1 + |NameBytes(items)| <= HEADER_LIMIT
    requires Has(d, pos, PropBytes(17, [0] + NameBytes(items)) + [0])
    ensures PropsAt(d, pos, |items|, st)
         == Got(st.(names := Some(NamesOf(items))), pos + |PropBytes(17, [0] + NameBytes(items)) + [0]|)
  {
    hide Has, PropBytes, NameBytes, NamesFrom;
    var content := [0] + NameBytes(items);
    HasSplit(d, pos, PropBytes(17, content), [0]);
    NamesBack(items);
    assert content[1..] == NameBytes(items);
    PropBack(d, pos, 17, content, |items|, st);
    HasByte(d, pos + |PropBytes(17, content)|, 0);
  }

  /** What can be written of a list of entries. */
  ghost predicate WritableFiles(items: seq<Item>, extras: seq<Extra>) {
    && 1 <= |items| <= 10000 && ValidItems(items) && ValidExtras(extras)
    && 1 + |NameBytes(items)| <= HEADER_LIMIT
  }

  lemma PropsBack(d: seq<byte>, pos: nat, items: seq<Item>, extras: seq<Extra>)
    requires WritableFiles(items, extras) && Has(d, pos, SectionBytes(items, extras))
    ensures var p := pos + |Number(|items|)|;
      && NumAt(d, pos) == Got(|items|, p)
      && PropsAt(d, p, |items|, Props(None, seq(|items|, i => true), None, None))
         == Got(PropsOf(items), pos + |SectionBytes(items, extras)|)
  {
    hide Has, PropsAt, PropBytes, NameBytes, VectorBytes, ExtraBytes, VectorOf, FileBits, AntiBits, EmptyBits, Fits64;
    hide Number, NumAt, NamesOf;
    var count, empty := |items|, Streamless(items);
    var n, x, a := Number(count), ExtraBytes(extras), VectorBytes(14, EmptyBits(items));
    var f, t := VectorBytes(15, FileBits(empty)), VectorBytes(16, AntiBits(empty));
    var z := PropBytes(17, [0] + NameBytes(items)) + [0];
    SmallFits(count);
    HasSplit(d, pos, n, x + (a + (f + (t + z))));
    NumberBack(d, pos, count);
    var p := pos + |n|;
    HasSplit(d, p, x, a + (f + (t + z)));
    HasSplit(d, p + |x|, a, f + (t + z));
    HasSplit(d, p + |x| + |a|, f, t + z);
    HasSplit(d, p + |x| + |a| + |f|, t, z);
    var st0 := Props(None, seq(count, i => true), None, None);
    ExtrasBack(d, p, extras, count, st0);
    EmptyVectorBack(d, p + |x|, items, st0);
    var st1 := st0.(present := Presence(items));
    FileVectorBack(d, p + |x| + |a|, FileBits(empty), count, st1);
    var st2 := st1.(emptyFile := VectorOf(FileBits(empty)));
    AntiVectorBack(d, p + |x| + |a| + |f|, AntiBits(empty), count, st2);
    NamesPropBack(d, p + |x| + |a| + |f| + |t|, items, st2.(anti := VectorOf(AntiBits(empty))));
  }

  // ----- which entry is which substream

  function StreamNames(items: seq<Item>): seq<FileName>
    requires ValidItems(items)
  {
    if items == [] then []
    else (if items[0].kind.Stream? then [NameOf(items[0])] else []) + StreamNames(items[1..])
  }

  /** The named regular files: streams with the sizes in turn, and empty files; no directory, no tombstone. */
  function ManifestOf(items: seq<Item>, sizes: seq<nat>): seq<(FileName, nat)>
    requires ValidItems(items) && |StreamNames(items)| == |sizes|
  {
    if items == [] then []
    else
      match items[0].kind
      case Stream => [(NameOf(items[0]), sizes[0])] + ManifestOf(items[1..], sizes[1..])
      case EmptyFile => [(NameOf(items[0]), 0)] + ManifestOf(items[1..], sizes)
      case _ => ManifestOf(items[1..], sizes)
  }

  function SizesOf(entries: seq<Entry>): (r: seq<nat>)
    ensures |r| == |entries|
  {
    seq(|entries|, i requires 0 <= i < |entries| => entries[i].length)
  }

  lemma {:induction false} StreamCount(items: seq<Item>)
    requires ValidItems(items)
    ensures CountTrue(Presence(items)) == |StreamNames(items)|
    ensures CountFalse(Presence(items)) == |Streamless(items)|
  {
    hide Utf16;
    if items != [] {
      StreamCount(items[1..]);
      assert Presence(items)[1..] == Presence(items[1..]);
    }
  }

  /** The bits of the entries from `index` on are those of these entries. */
  ghost predicate BitsMatch(bits: Option<seq<byte>>, index: nat, wanted: seq<bool>) {
    BitsFor(bits, index + |wanted|)
    && forall i :: 0 <= i < |wanted| ==> (BitSet(bits, index + i) <==> wanted[i])
  }

  lemma VectorMatches(bits: seq<bool>)
    ensures BitsMatch(VectorOf(bits), 0, bits)
  {
    hide BitAt, BitBytes;
    forall i | 0 <= i < |bits| ensures BitSet(VectorOf(bits), i) <==> bits[i] {
      if true in bits {
        BitBack(bits, i);
      } else {
        assert bits[i] in bits;
      }
    }
  }

  lemma {:induction false} ManifestIs(m: Mapping, items: seq<Item>, entries: seq<Entry>, bases: seq<nat>, props: Props)
    requires ValidItems(items) && Fitting(m, Presence(items), entries, bases, props)
    requires BitsMatch(props.emptyFile, m.emptyIndex, FileBits(Streamless(items)))
    requires BitsMatch(props.anti, m.emptyIndex, AntiBits(Streamless(items)))
    ensures |StreamNames(items)| == |SizesOf(entries[m.n..])|
    ensures MapFrom(m, NamesOf(items), Presence(items), entries, bases, props).manifest
         == m.manifest + ManifestOf(items, SizesOf(entries[m.n..]))
    decreases |items|
  {
    hide Utf16, BitSet, MapFrom, MapPresent, MapEmpty, Fitting, BitsMatch, Presence, NamesOf, FileBits, AntiBits,
      NameOf;
    ManifestCount(m, items, entries, bases, props);
    if items == [] {
      assert MapFrom(m, NamesOf(items), Presence(items), entries, bases, props) == m by {
        NoneLeft(m, items, entries, bases, props);
      }
    } else if items[0].kind.Stream? {
      StreamStep(m, items, entries, bases, props);
      ManifestIs(MapPresent(m, NameOf(items[0]), entries[m.n], bases), items[1..], entries, bases, props);
    } else {
      EmptyStep(m, items, entries, bases, props);
      ManifestIs(MapEmpty(m, NameOf(items[0]), props), items[1..], entries, bases, props);
    }
  }

  lemma ManifestCount(m: Mapping, items: seq<Item>, entries: seq<Entry>, bases: seq<nat>, props: Props)
    requires ValidItems(items) && Fitting(m, Presence(items), entries, bases, props)
    ensures m.n <= |entries| && |StreamNames(items)| == |SizesOf(entries[m.n..])|
    ensures |NamesOf(items)| == |Presence(items)|
  {
    hide Utf16, StreamNames;
    StreamCount(items);
  }

  lemma NoneLeft(m: Mapping, items: seq<Item>, entries: seq<Entry>, bases: seq<nat>, props: Props)
    requires items == [] && Fitting(m, Presence(items), entries, bases, props)
    ensures MapFrom(m, NamesOf(items), Presence(items), entries, bases, props) == m
  {
  }

  lemma Tails(items: seq<Item>)
    requires ValidItems(items) && items != []
    ensures NamesOf(items)[1..] == NamesOf(items[1..]) && Presence(items)[1..] == Presence(items[1..])
    ensures NamesOf(items)[0] == NameOf(items[0]) && (Presence(items)[0] <==> items[0].kind.Stream?)
  {
    hide NameOf;
  }

  lemma StreamStep(m: Mapping, items: seq<Item>, entries: seq<Entry>, bases: seq<nat>, props: Props)
    requires ValidItems(items) && Fitting(m, Presence(items), entries, bases, props)
    requires items != [] && items[0].kind.Stream?
    ensures m.n < |entries| && entries[m.n].block < |bases| == |m.positions| == |m.files|
    ensures var m', rest := MapPresent(m, NameOf(items[0]), entries[m.n], bases), items[1..];
      && Fitting(m', Presence(rest), entries, bases, props)
      && MapFrom(m, NamesOf(items), Presence(items), entries, bases, props)
         == MapFrom(m', NamesOf(rest), Presence(rest), entries, bases, props)
      && m'.manifest == m.manifest + [(NameOf(items[0]), entries[m.n].length)]
      && m'.n == m.n + 1 && m'.emptyIndex == m.emptyIndex
      && Streamless(rest) == Streamless(items)
      && SizesOf(entries[m.n..])[0] == entries[m.n].length
      && SizesOf(entries[m.n..])[1..] == SizesOf(entries[m'.n..])
  {
    hide NameOf, NamesOf, Presence, BitsFor;
    Tails(items);
    SevenZipHeader.MapKeepsShape(m, NameOf(items[0]), Presence(items), entries, bases, props);
  }

  lemma EmptyStep(m: Mapping, items: seq<Item>, entries: seq<Entry>, bases: seq<nat>, props: Props)
    requires ValidItems(items) && Fitting(m, Presence(items), entries, bases, props)
    requires items != [] && !items[0].kind.Stream?
    requires BitsMatch(props.emptyFile, m.emptyIndex, FileBits(Streamless(items)))
    requires BitsMatch(props.anti, m.emptyIndex, AntiBits(Streamless(items)))
    ensures BitsFor(props.emptyFile, m.emptyIndex + 1) && BitsFor(props.anti, m.emptyIndex + 1)
    ensures var m', rest := MapEmpty(m, NameOf(items[0]), props), items[1..];
      && Fitting(m', Presence(rest), entries, bases, props)
      && MapFrom(m, NamesOf(items), Presence(items), entries, bases, props)
         == MapFrom(m', NamesOf(rest), Presence(rest), entries, bases, props)
      && m'.manifest == m.manifest + (if items[0].kind.EmptyFile? then [(NameOf(items[0]), 0)] else [])
      && m'.n == m.n && m'.emptyIndex == m.emptyIndex + 1
      && BitsMatch(props.emptyFile, m'.emptyIndex, FileBits(Streamless(rest)))
      && BitsMatch(props.anti, m'.emptyIndex, AntiBits(Streamless(rest)))
  {
    hide NameOf, NamesOf, Presence, BitSet, Fitting, BitsMatch, BitsFor;
    Tails(items);
    SevenZipHeader.MapKeepsShape(m, NameOf(items[0]), Presence(items), entries, bases, props);
    var empty := Streamless(items);
    assert empty[1..] == Streamless(items[1..]);
    MatchesRest(props.emptyFile, m.emptyIndex, FileBits(empty), FileBits(empty[1..]));
    MatchesRest(props.anti, m.emptyIndex, AntiBits(empty), AntiBits(empty[1..]));
  }

  lemma MatchesRest(bits: Option<seq<byte>>, index: nat, wanted: seq<bool>, rest: seq<bool>)
    requires BitsMatch(bits, index, wanted) && wanted != [] && rest == wanted[1..]
    ensures BitsMatch(bits, index + 1, rest)
    ensures BitsFor(bits, index + 1) && (BitSet(bits, index) <==> wanted[0])
  {
    hide BitSet;
    assert BitSet(bits, index + 0) <==> wanted[0];
    forall i | 0 <= i < |rest| ensures BitSet(bits, index + 1 + i) <==> rest[i] {
      assert BitSet(bits, index + (i + 1)) <==> wanted[i + 1];
    }
  }

  // ----- the files of all folders

  function NamesIn(files: seq<FileEntry>): (r: seq<FileName>)
    ensures |r| == |files|
  {
    seq(|files|, i requires 0 <= i < |files| => files[i].name)
  }

  function Flatten(files: seq<seq<FileEntry>>): seq<FileEntry> {
    if files == [] then [] else Flatten(files[..|files| - 1]) + files[|files| - 1]
  }

  function NamesPaired(pairs: seq<Named>): (r: seq<FileName>)
    ensures |r| == |pairs|
  {
    seq(|pairs|, i requires 0 <= i < |pairs| => pairs[i].name)
  }

  ghost predicate InFolderOrder(pairs: seq<Named>) {
    forall i, j :: 0 <= i < j < |pairs| ==> pairs[i].e.block <= pairs[j].e.block
  }

  /** The pairs of the first `n` folders. */
  function SelectedUpTo(pairs: seq<Named>, n: nat): seq<Named> {
    if n == 0 then [] else SelectedUpTo(pairs, n - 1) + Selected(pairs, n - 1)
  }

  lemma {:induction false} SelectedAll(pairs: seq<Named>, n: nat)
    requires InFolderOrder(pairs) && forall i :: 0 <= i < |pairs| ==> pairs[i].e.block < n
    ensures SelectedUpTo(pairs, n) == pairs
  {
    if pairs == [] {
      SelectedNone(n);
    } else {
      var k := |pairs| - 1;
      SelectedAll(pairs[..k], n);
      SelectedSnoc(pairs, n);
    }
  }

  lemma {:induction false} SelectedNone(n: nat)
    ensures SelectedUpTo([], n) == []
  {
    if n > 0 {
      SelectedNone(n - 1);
    }
  }

  lemma {:induction false} SelectedLess(pairs: seq<Named>, b: nat)
    requires forall i :: 0 <= i < |pairs| ==> pairs[i].e.block < b
    ensures Selected(pairs, b) == []
  {
    if pairs != [] {
      SelectedLess(pairs[..|pairs| - 1], b);
    }
  }

  lemma {:induction false} SelectedSnoc(pairs: seq<Named>, n: nat)
    requires InFolderOrder(pairs) && pairs != []
    ensures var k := |pairs| - 1;
            SelectedUpTo(pairs, n)
            == SelectedUpTo(pairs[..k], n) + if pairs[k].e.block < n then [pairs[k]] else []
  {
    hide Selected;
    if n > 0 {
      var k := |pairs| - 1;
      SelectedSnoc(pairs, n - 1);
      SelectedLast(pairs, n - 1);
      if pairs[k].e.block < n - 1 {
        SelectedLess(pairs[..k], n - 1);
      }
    }
  }

  lemma SelectedLast(pairs: seq<Named>, b: nat)
    requires pairs != []
    ensures var k := |pairs| - 1;
            Selected(pairs, b) == Selected(pairs[..k], b) + if pairs[k].e.block == b then [pairs[k]] else []
  {
  }

  lemma {:induction false} EntriesOrdered(blocks: seq<Block>, b: nat)
    ensures forall i, j :: 0 <= i < j < |Entries(blocks, b)| ==>
        Entries(blocks, b)[i].block <= Entries(blocks, b)[j].block
    decreases |blocks|
  {
    hide BlockEntries;
    if blocks != [] {
      EntriesOrdered(blocks[1..], b + 1);
    }
  }

  lemma {:induction false} FlattenNames(files: seq<seq<FileEntry>>, pairs: seq<Named>)
    requires forall b :: 0 <= b < |files| ==> PairsOf(files[b], b) == Selected(pairs, b)
    ensures NamesIn(Flatten(files)) == NamesPaired(SelectedUpTo(pairs, |files|))
  {
    hide Selected;
    if files != [] {
      var n := |files| - 1;
      FlattenNames(files[..n], pairs);
      var s := Selected(pairs, n);
      assert files[..n] + [files[n]] == files;
      forall i | 0 <= i < |files[n]| ensures files[n][i].name == s[i].name {
        assert PairsOf(files[n], n)[i].name == files[n][i].name;
      }
      assert NamesIn(files[n]) == NamesPaired(s);
      assert NamesIn(Flatten(files)) == NamesIn(Flatten(files[..n])) + NamesIn(files[n]);
    }
  }

  lemma {:induction false} PairedNames(items: seq<Item>, entries: seq<Entry>)
    requires ValidItems(items) && CountTrue(Presence(items)) == |entries|
    ensures NamesPaired(Pairing(NamesOf(items), Presence(items), entries)) == StreamNames(items)
    decreases |items|
  {
    hide Utf16;
    if items != [] {
      assert NamesOf(items)[1..] == NamesOf(items[1..]) && Presence(items)[1..] == Presence(items[1..]);
      PairedNames(items[1..], if items[0].kind.Stream? then entries[1..] else entries);
    }
  }

  // ----- the list over all folders

  /** The files in archive order, one after the other from the start of the whole output. */
  ghost predicate Listed(out: seq<FileEntry>, pairs: seq<Named>) {
    && |out| == |pairs| && Tile(out, 0, Sum(SizesOf(EntriesOf(pairs))))
    && forall i :: 0 <= i < |out| ==>
         out[i].name == pairs[i].name && out[i].length == pairs[i].e.length && out[i].crc == pairs[i].e.crc
  }

  /** How much of the folder the first `n` substreams fill. */
  function Filled(entries: seq<Entry>, n: nat, b: nat): nat
    requires n <= |entries|
  {
    Sum(SizesOf(Chosen(entries[..n], b)))
  }

  ghost predicate InPlace(m: Mapping, entries: seq<Entry>) {
    m.n <= |entries| && forall b :: 0 <= b < |m.positions| ==> m.positions[b] == Filled(entries, m.n, b)
  }

  /** A folder starts where the substreams of the folders before it end. */
  ghost predicate BasesFit(entries: seq<Entry>, bases: seq<nat>) {
    forall n :: 0 <= n < |entries| ==>
      entries[n].block < |bases|
      && bases[entries[n].block] + Filled(entries, n, entries[n].block) == Sum(SizesOf(entries[..n]))
  }

  lemma SizesAppend(x: seq<Entry>, y: seq<Entry>)
    ensures SizesOf(x + y) == SizesOf(x) + SizesOf(y)
  {
  }

  lemma {:induction false} SumAppend(x: seq<nat>, y: seq<nat>)
    ensures Sum(x + y) == Sum(x) + Sum(y)
  {
    if x == [] {
      assert x + y == y;
    } else {
      assert (x + y)[1..] == x[1..] + y;
      SumAppend(x[1..], y);
    }
  }

  lemma FilledNext(entries: seq<Entry>, n: nat, b: nat)
    requires n < |entries|
    ensures Filled(entries, n + 1, b) == Filled(entries, n, b) + if entries[n].block == b then entries[n].length else 0
  {
    var e := entries[n];
    assert entries[..n + 1] == entries[..n] + [e];
    ChosenAppend(entries[..n], [e], b);
    assert Chosen([e], b) == if e.block == b then [e] else [];
    SizesAppend(Chosen(entries[..n], b), Chosen([e], b));
    SumAppend(SizesOf(Chosen(entries[..n], b)), SizesOf(Chosen([e], b)));
    assert SizesOf([e]) == [e.length];
  }

  lemma ListedSnoc(out: seq<FileEntry>, pairs: seq<Named>, f: FileEntry, p: Named)
    requires Listed(out, pairs) && f == FileEntry(p.name, Sum(SizesOf(EntriesOf(pairs))), p.e.length, p.e.crc)
    ensures Listed(out + [f], pairs + [p])
  {
    var total := Sum(SizesOf(EntriesOf(pairs)));
    TileSnoc(out, 0, total, f);
    assert EntriesOf(pairs + [p]) == EntriesOf(pairs) + [p.e];
    SizesAppend(EntriesOf(pairs), [p.e]);
    assert SizesOf([p.e]) == [p.e.length];
    SumSnoc(SizesOf(EntriesOf(pairs)), p.e.length);
  }

  lemma {:induction false} OutIsListed(m: Mapping, done: seq<Named>, names: seq<FileName>, present: seq<bool>,
                                       entries: seq<Entry>, bases: seq<nat>, props: Props)
    requires |names| == |present| && Fitting(m, present, entries, bases, props) && BasesFit(entries, bases)
    requires InPlace(m, entries) && Listed(m.out, done) && EntriesOf(done) == entries[..m.n]
    ensures Listed(MapFrom(m, names, present, entries, bases, props).out, done
        + Pairing(names, present, entries[m.n..]))
    decreases |names|
  {
    hide Listed, BasesFit, InPlace, MapPresent, MapEmpty, Fitting, BitsFor, BitSet;
    FittingCounts(m, present, entries, bases, props);
    if names == [] {
      assert done + [] == done;
    } else {
      SevenZipHeader.MapKeepsShape(m, names[0], present, entries, bases, props);
      if present[0] {
        var e := entries[m.n];
        var p := Named(names[0], e);
        PresentInPlace(m, done, names[0], entries, bases);
        OutIsListed(MapPresent(m, names[0], e, bases), done + [p], names[1..], present[1..], entries, bases, props);
        assert entries[m.n..][1..] == entries[m.n + 1..];
        assert done + [p] + Pairing(names[1..], present[1..], entries[m.n + 1..])
            == done + Pairing(names, present, entries[m.n..]);
      } else {
        EmptyInPlace(m, names[0], entries, props);
        OutIsListed(MapEmpty(m, names[0], props), done, names[1..], present[1..], entries, bases, props);
      }
    }
  }

  lemma FittingCounts(m: Mapping, present: seq<bool>, entries: seq<Entry>, bases: seq<nat>, props: Props)
    requires Fitting(m, present, entries, bases, props)
    ensures |m.positions| == |m.files| == |bases| && m.n + CountTrue(present) == |entries|
    ensures forall i :: 0 <= i < |entries| ==> entries[i].block < |bases|
  {
  }

  lemma PresentInPlace(m: Mapping, done: seq<Named>, name: FileName, entries: seq<Entry>, bases: seq<nat>)
    requires m.n < |entries| && |m.positions| == |m.files| == |bases| && entries[m.n].block < |bases|
    requires InPlace(m, entries) && BasesFit(entries, bases) && Listed(m.out, done) && EntriesOf(done) == entries[..m.n]
    ensures var m', p := MapPresent(m, name, entries[m.n], bases), Named(name, entries[m.n]);
      && InPlace(m', entries) && Listed(m'.out, done + [p])
      && m'.n == m.n + 1 && EntriesOf(done + [p]) == entries[..m'.n]
  {
    hide Listed, Filled;
    var e := entries[m.n];
    forall b ensures Filled(entries, m.n + 1, b) == Filled(entries, m.n, b) + if e.block == b then e.length else 0 {
      FilledNext(entries, m.n, b);
    }
    var f := FileEntry(name, bases[e.block] + m.positions[e.block], e.length, e.crc);
    ListedSnoc(m.out, done, f, Named(name, e));
    assert entries[..m.n + 1] == entries[..m.n] + [e];
  }

  lemma EmptyInPlace(m: Mapping, name: FileName, entries: seq<Entry>, props: Props)
    requires InPlace(m, entries) && BitsFor(props.emptyFile, m.emptyIndex + 1) && BitsFor(props.anti, m.emptyIndex + 1)
    ensures var m' := MapEmpty(m, name, props); InPlace(m', entries) && m'.n == m.n && m'.out == m.out
  {
    hide BitSet, Filled;
  }

  lemma {:induction false} BlockSizes(b: nat, sizes: seq<nat>, crcs: seq<Option<nat>>)
    requires |sizes| == |crcs|
    ensures SizesOf(BlockEntries(b, sizes, crcs)) == sizes
  {
    if sizes != [] {
      BlockSizes(b, sizes[1..], crcs[1..]);
    }
  }

  /** Where substream `n` starts, counted over all folders. */
  lemma {:induction false} StartOf(blocks: seq<Block>, k: nat, total: nat, pos: nat, n: nat)
    requires Conserved(blocks, pos) && n < |Entries(blocks, k)|
    ensures var es := Entries(blocks, k); var b := es[n].block;
            Bases(blocks, total)[b - k] + Filled(es, n, b) == total + Sum(SizesOf(es[..n]))
    decreases |blocks|
  {
    hide BlockEntries, Entries, Bases, Filled, Sum, SizesOf, Accounted;
    FirstEntries(blocks, k, total);
    var es, first := Entries(blocks, k), BlockEntries(k, blocks[0].subSizes, blocks[0].subCrcs);
    var rest := Entries(blocks[1..], k + 1);
    if n < |first| {
      FilledFirst(first, rest, k, n);
    } else {
      var r := n - |first|;
      FirstFolder(blocks, pos, k);
      StartOf(blocks[1..], k + 1, total + blocks[0].folder.UnpackSize(), pos + blocks[0].packSize, r);
      FilledLater(first, rest, k, r, rest[r].block);
    }
  }

  lemma FirstEntries(blocks: seq<Block>, k: nat, total: nat)
    requires Entries(blocks, k) != []
    ensures blocks != []
    ensures Entries(blocks, k) == BlockEntries(k, blocks[0].subSizes, blocks[0].subCrcs) + Entries(blocks[1..], k + 1)
    ensures Bases(blocks, total) == [total] + Bases(blocks[1..], total + blocks[0].folder.UnpackSize())
  {
    hide BlockEntries;
  }

  lemma FilledFirst(first: seq<Entry>, rest: seq<Entry>, k: nat, n: nat)
    requires n < |first| && forall i :: 0 <= i < |first| ==> first[i].block == k
    ensures Filled(first + rest, n, k) == Sum(SizesOf((first + rest)[..n]))
  {
    assert (first + rest)[..n] == first[..n];
    ChosenBlock(first[..n], k, k);
  }

  lemma FilledLater(first: seq<Entry>, rest: seq<Entry>, k: nat, r: nat, b: nat)
    requires r <= |rest| && k < b && forall i :: 0 <= i < |first| ==> first[i].block == k
    ensures Filled(first + rest, |first| + r, b) == Filled(rest, r, b)
    ensures Sum(SizesOf((first + rest)[..|first| + r])) == Sum(SizesOf(first)) + Sum(SizesOf(rest[..r]))
  {
    assert (first + rest)[..|first| + r] == first + rest[..r];
    ChosenAppend(first, rest[..r], b);
    ChosenBlock(first, k, b);
    assert [] + Chosen(rest[..r], b) == Chosen(rest[..r], b);
    SizesAppend(first, rest[..r]);
    SumAppend(SizesOf(first), SizesOf(rest[..r]));
  }

  lemma FirstFolder(blocks: seq<Block>, pos: nat, k: nat)
    requires Conserved(blocks, pos) && blocks != []
    ensures Sum(SizesOf(BlockEntries(k, blocks[0].subSizes, blocks[0].subCrcs))) == blocks[0].folder.UnpackSize()
  {
    BlockSizes(k, blocks[0].subSizes, blocks[0].subCrcs);
  }

  lemma BasesFitBlocks(blocks: seq<Block>, pos: nat)
    requires Conserved(blocks, pos)
    ensures BasesFit(Entries(blocks, 0), Bases(blocks, 0))
  {
    hide Conserved, Entries, Bases, Filled;
    var es := Entries(blocks, 0);
    forall n | 0 <= n < |es|
      ensures es[n].block < |Bases(blocks, 0)|
      ensures Bases(blocks, 0)[es[n].block] + Filled(es, n, es[n].block) == Sum(SizesOf(es[..n]))
    {
      StartOf(blocks, 0, 0, pos, n);
    }
  }

  // ----- the round trip

  /** The sizes of all substreams, folder by folder. */
  function AllSizes(blocks: seq<Block>): seq<nat> {
    if blocks == [] then [] else blocks[0].subSizes + AllSizes(blocks[1..])
  }

  function AllCrcs(blocks: seq<Block>): seq<Option<nat>> {
    if blocks == [] then [] else blocks[0].subCrcs + AllCrcs(blocks[1..])
  }

  lemma {:induction false} EntriesAre(blocks: seq<Block>, k: nat, pos: nat)
    requires Conserved(blocks, pos)
    ensures SizesOf(Entries(blocks, k)) == AllSizes(blocks)
    ensures |AllCrcs(blocks)| == |Entries(blocks, k)|
    ensures forall i :: 0 <= i < |Entries(blocks, k)| ==> Entries(blocks, k)[i].crc == AllCrcs(blocks)[i]
    decreases |blocks|
  {
    hide BlockEntries;
    if blocks != [] {
      EntriesAre(blocks[1..], k + 1, pos + blocks[0].packSize);
      var first, rest := BlockEntries(k, blocks[0].subSizes, blocks[0].subCrcs), Entries(blocks[1..], k + 1);
      BlockSizes(k, blocks[0].subSizes, blocks[0].subCrcs);
      BlockCrcs(k, blocks[0].subSizes, blocks[0].subCrcs);
      SizesAppend(first, rest);
    }
  }

  lemma {:induction false} BlockCrcs(b: nat, sizes: seq<nat>, crcs: seq<Option<nat>>)
    requires |sizes| == |crcs|
    ensures |BlockEntries(b, sizes, crcs)| == |crcs|
    ensures forall i :: 0 <= i < |crcs| ==> BlockEntries(b, sizes, crcs)[i].crc == crcs[i]
  {
    if sizes != [] {
      BlockCrcs(b, sizes[1..], crcs[1..]);
    }
  }

  /** The files are the entries with a stream: in order, folder by folder with the sizes and CRCs of its
      substreams, tiling each folder and, in the list over all folders, the whole output. The manifest has
      the empty files as well, and nothing else. */
  ghost predicate FilesAre(info: FileInfo, items: seq<Item>, blocks: seq<Block>)
    requires ValidItems(items) && |StreamNames(items)| == |AllSizes(blocks)|
  {
    && info.manifest == ManifestOf(items, AllSizes(blocks))
    && |info.files| == |blocks| && NamesIn(Flatten(info.files)) == StreamNames(items)
    && (forall b :: 0 <= b < |blocks| ==>
          && Tile(info.files[b], 0, blocks[b].folder.UnpackSize())
          && LengthsOf(info.files[b]) == blocks[b].subSizes && CrcsOf(info.files[b]) == blocks[b].subCrcs)
    && NamesIn(info.out) == StreamNames(items)
    && LengthsOf(info.out) == AllSizes(blocks) && CrcsOf(info.out) == AllCrcs(blocks)
    && Tile(info.out, 0, Sum(AllSizes(blocks)))
  }

  /** A section that was written is read back as its entries, exactly when it has as many streams as the
      folders have substreams. */
  lemma FilesRoundTrip(d: seq<byte>, pos: nat, items: seq<Item>, extras: seq<Extra>, blocks: seq<Block>, from: nat)
    requires WritableFiles(items, extras) && Has(d, pos, SectionBytes(items, extras)) && Conserved(blocks, from)
    ensures if |StreamNames(items)| != |AllSizes(blocks)| then
              FileInfoAt(d, pos, blocks) == Fail(FileMappingUnavailable)
            else
              var r := FileInfoAt(d, pos, blocks);
              r.Got? && r.pos == pos + |SectionBytes(items, extras)| && FilesAre(r.value, items, blocks)
  {
    hide *;
    PropsBack(d, pos, items, extras);
    ItemsCount(items, extras);
    SectionParts(d, pos, blocks, |items|, pos + |Number(|items|)|, PropsOf(items), pos + |SectionBytes(items, extras)|);
    MapFilesIs(items, blocks, from);
  }

  lemma ItemsCount(items: seq<Item>, extras: seq<Extra>)
    requires WritableFiles(items, extras)
    ensures ValidItems(items) && 1 <= |items| <= 10000
  {
  }

  lemma SectionParts(d: seq<byte>, pos: nat, blocks: seq<Block>, count: nat, p: nat, props: Props, q: nat)
    requires 1 <= count <= 10000 && |props.present| == count && NumAt(d, pos) == Got(count, p)
    requires PropsAt(d, p, count, Props(None, seq(count, i => true), None, None)) == Got(props, q)
    ensures FileInfoAt(d, pos, blocks) ==
            match MapFiles(blocks, count, props) case Err(e) => Fail(e) case Ok(info) => Got(info, q)
  {
    hide NumAt, PropsAt, MapFiles;
  }

  lemma MapFilesIs(items: seq<Item>, blocks: seq<Block>, from: nat)
    requires ValidItems(items) && Conserved(blocks, from)
    ensures var r := MapFiles(blocks, |items|, PropsOf(items));
            if |StreamNames(items)| != |AllSizes(blocks)| then r == Err(FileMappingUnavailable)
            else r.Ok? && FilesAre(r.value, items, blocks)
  {
    hide Entries, Conserved, Bases, MapFrom, Presence, NamesOf, StreamNames, VectorOf, FileBits, AntiBits, Mapped, Tile;
    hide CountTrue, CountFalse, BitBytes, FilesAre;
    var entries, bases, props, empty := Entries(blocks, 0), Bases(blocks, 0), PropsOf(items), Streamless(items);
    EntriesAre(blocks, 0, from);
    StreamCount(items);
    VectorSize(FileBits(empty));
    VectorSize(AntiBits(empty));
    if |StreamNames(items)| == |AllSizes(blocks)| {
      MapFilesConserves(blocks, from, |items|, props);
      var start := Mapping([], 0, 0, seq(|blocks|, i => 0), seq(|blocks|, i => []), []);
      VectorMatches(FileBits(empty));
      VectorMatches(AntiBits(empty));
      assert entries[0..] == entries;
      ManifestIs(start, items, entries, bases, props);
      OutIs(start, items, blocks, from);
      var files := MapFiles(blocks, |items|, props).value.files;
      FilesNamed(files, items, blocks);
      FilesAreJoined(MapFiles(blocks, |items|, props).value, items, blocks);
    }
  }

  lemma VectorSize(bits: seq<bool>)
    ensures VectorOf(bits).Some? ==> |VectorOf(bits).value| == (|bits| + 7) / 8
  {
  }

  /** What was shown of the parts, put together. */
  lemma FilesAreJoined(info: FileInfo, items: seq<Item>, blocks: seq<Block>)
    requires ValidItems(items) && |StreamNames(items)| == |AllSizes(blocks)|
    requires info.manifest == ManifestOf(items, AllSizes(blocks)) && |info.files| == |blocks|
    requires CountTrue(Presence(items)) == |Entries(blocks, 0)| && SizesOf(Entries(blocks, 0)) == AllSizes(blocks)
    requires forall b :: 0 <= b < |blocks| ==>
      Mapped(info.files[b], blocks[b], b, Pairing(NamesOf(items), Presence(items), Entries(blocks, 0)))
    requires NamesIn(Flatten(info.files)) == StreamNames(items) && OutMeans(info.out, items, blocks)
    ensures FilesAre(info, items, blocks)
  {
    hide ManifestOf, StreamNames, AllSizes, Entries, Tile, PairsOf, Selected, Pairing;
  }

  ghost predicate OutMeans(out: seq<FileEntry>, items: seq<Item>, blocks: seq<Block>)
    requires ValidItems(items)
  {
    && NamesIn(out) == StreamNames(items)
    && LengthsOf(out) == AllSizes(blocks) && CrcsOf(out) == AllCrcs(blocks)
    && Tile(out, 0, Sum(AllSizes(blocks)))
  }

  lemma FilesNamed(files: seq<seq<FileEntry>>, items: seq<Item>, blocks: seq<Block>)
    requires ValidItems(items) && |files| == |blocks| && CountTrue(Presence(items)) == |Entries(blocks, 0)|
    requires forall b :: 0 <= b < |blocks| ==>
      Mapped(files[b], blocks[b], b, Pairing(NamesOf(items), Presence(items), Entries(blocks, 0)))
    ensures NamesIn(Flatten(files)) == StreamNames(items)
  {
    hide Entries, StreamNames, Pairing, NamesOf, Presence, Tile, PairsOf, Selected, CountTrue;
    var entries := Entries(blocks, 0);
    var pairs := Pairing(NamesOf(items), Presence(items), entries);
    PairingEntries(NamesOf(items), Presence(items), entries);
    EntriesOrdered(blocks, 0);
    assert forall i :: 0 <= i < |pairs| ==> pairs[i].e == entries[i];
    SelectedAll(pairs, |blocks|);
    FlattenNames(files, pairs);
    PairedNames(items, entries);
  }

  lemma OutIs(start: Mapping, items: seq<Item>, blocks: seq<Block>, from: nat)
    requires ValidItems(items) && Conserved(blocks, from)
    requires start == Mapping([], 0, 0, seq(|blocks|, i => 0), seq(|blocks|, i => []), [])
    requires Fitting(start, Presence(items), Entries(blocks, 0), Bases(blocks, 0), PropsOf(items))
    ensures OutMeans(MapFrom(start, NamesOf(items), Presence(items), Entries(blocks, 0), Bases(blocks, 0),
                             PropsOf(items)).out, items, blocks)
  {
    hide Entries, Conserved, Bases, MapFrom, Presence, NamesOf, StreamNames, PropsOf, Pairing, BasesFit;
    var entries, bases := Entries(blocks, 0), Bases(blocks, 0);
    var pairs := Pairing(NamesOf(items), Presence(items), entries);
    BasesFitBlocks(blocks, from);
    StartInPlace(start, entries);
    OutIsListed(start, [], NamesOf(items), Presence(items), entries, bases, PropsOf(items));
    assert entries[0..] == entries && [] + pairs == pairs;
    EntriesAre(blocks, 0, from);
    PairingEntries(NamesOf(items), Presence(items), entries);
    PairedNames(items, entries);
    ListedMeans(MapFrom(start, NamesOf(items), Presence(items), entries, bases, PropsOf(items)).out, pairs, entries,
                items, blocks);
  }

  lemma StartInPlace(m: Mapping, entries: seq<Entry>)
    requires m.n == 0 && m.out == [] && forall b :: 0 <= b < |m.positions| ==> m.positions[b] == 0
    ensures InPlace(m, entries) && Listed(m.out, []) && EntriesOf([]) == entries[..m.n]
  {
    assert entries[..0] == [];
  }

  lemma ListedMeans(out: seq<FileEntry>, pairs: seq<Named>, entries: seq<Entry>, items: seq<Item>, blocks: seq<Block>)
    requires ValidItems(items) && Listed(out, pairs) && EntriesOf(pairs) == entries
    requires NamesPaired(pairs) == StreamNames(items) && SizesOf(entries) == AllSizes(blocks)
    requires |AllCrcs(blocks)| == |entries| && forall i :: 0 <= i < |entries| ==> entries[i].crc == AllCrcs(blocks)[i]
    ensures OutMeans(out, items, blocks)
  {
    hide StreamNames, AllSizes, AllCrcs, Tile;
    forall i | 0 <= i < |out| ensures out[i].name == NamesPaired(pairs)[i]
                               && out[i].length == SizesOf(entries)[i] && out[i].crc == AllCrcs(blocks)[i]
    {
      assert EntriesOf(pairs)[i] == pairs[i].e;
    }
    ListsAt(out);
    assert NamesIn(out) == NamesPaired(pairs);
    assert LengthsOf(out) == SizesOf(entries);
    assert CrcsOf(out) == AllCrcs(blocks);
  }

  lemma {:induction false} ListsAt(files: seq<FileEntry>)
    ensures forall i :: 0 <= i < |files| ==> LengthsOf(files)[i] == files[i].length && CrcsOf(files)[i] == files[i].crc
  {
    if files != [] {
      ListsAt(files[1..]);
    }
  }
}
