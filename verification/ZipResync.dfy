/** Salvaging a ZIP without its directory: a windowed search for local file headers
    (APPNOTE.TXT section 4.3.7). */
module ZipResync {
  import opened Bits
  import opened SevenZipNumber

  const CHUNK: nat := 128 * 1024
  const MAX_BYTES: nat := 4 * 1024 * 1024 * 1024
  const HEADER_SIZE: nat := 30

  predicate SignatureAt(d: seq<byte>, p: nat) {
    p + 4 <= |d| && d[p] == 0x50 && d[p + 1] == 0x4B && d[p + 2] == 3 && d[p + 3] == 4
  }

  function Word(d: seq<byte>, p: nat): nat
    requires p + 2 <= |d|
  {
    LittleEndian(d[p..p + 2])
  }

  function Long(d: seq<byte>, p: nat): nat
    requires p + 4 <= |d|
  {
    LittleEndian(d[p..p + 4])
  }

  datatype Kind = Malformed | Unsupported | Recorded

  /** A header that was looked at, and where the search resumed. */
  datatype Candidate = Candidate(offset: nat, kind: Kind, next: nat)

  /** How many bytes of the compressed data extraction reads before it ends or fails; extraction
      reads forward from the data and never beyond the declared or the available bytes. */
  type Extraction = (nat, nat) -> nat

  function Min(a: nat, b: nat): nat {
    if a < b then a else b
  }

  /** What happens at a signature. A malformed header is given up; an unsupported entry is reported and
      its data skipped; any other is extracted. */
  function Inspect(d: seq<byte>, p: nat, extract: Extraction, skip: nat): (c: Candidate)
    requires p + HEADER_SIZE <= |d| && skip >= 1
    ensures c.offset == p && c.next > p
  {
    var flags, packing := Word(d, p + 6), Word(d, p + 8);
    var compressed, rawSize := Long(d, p + 18), Long(d, p + 22);
    var nameLen, extraLen := Word(d, p + 26), Word(d, p + 28);
    var start := p + HEADER_SIZE + nameLen + extraLen;
    if nameLen > 4096 || extraLen > 65535 || compressed > MAX_BYTES || start > |d| then
      Candidate(p, Malformed, p + skip)
    else if And(flags, 9) != 0 || (packing != 0 && packing != 8) || rawSize > MAX_BYTES then
      Candidate(p, Unsupported, start + compressed)
    else
      Candidate(p, Recorded, start + Min(extract(start, compressed), Min(compressed, |d| - start)))
  }

  /** The fields of a local file header after its signature, in order; `encrypted` and `descriptor` are two
      bits of the flags. */
  datatype LocalHeader = LocalHeader(version: nat, encrypted: bool, descriptor: bool, flags: nat, packing: nat,
                                     time: nat, date: nat, crc: nat, compressed: nat, size: nat,
                                     nameLen: nat, extraLen: nat)

  /** Bits one, two and the ones above three are free. */
  function Flags(h: LocalHeader): nat {
    (if h.encrypted then 1 else 0) + 2 * (h.flags % 4) + (if h.descriptor then 8 else 0) + 16 * (h.flags / 4)
  }

  ghost predicate ValidHeader(h: LocalHeader) {
    && h.version < Pow2(16) && Flags(h) < Pow2(16) && h.packing < Pow2(16) && h.time < Pow2(16) && h.date < Pow2(16)
    && h.crc < Pow2(32) && h.compressed < Pow2(32) && h.size < Pow2(32)
    && h.nameLen < Pow2(16) && h.extraLen < Pow2(16)
  }

  function HeaderBytes(h: LocalHeader): (s: seq<byte>)
    ensures |s| == HEADER_SIZE
  {
    [0x50, 0x4B, 3, 4] + LittleEndianBytes(h.version, 2) + LittleEndianBytes(Flags(h), 2)
      + LittleEndianBytes(h.packing, 2) + LittleEndianBytes(h.time, 2) + LittleEndianBytes(h.date, 2)
      + LittleEndianBytes(h.crc, 4) + LittleEndianBytes(h.compressed, 4) + LittleEndianBytes(h.size, 4)
      + LittleEndianBytes(h.nameLen, 2) + LittleEndianBytes(h.extraLen, 2)
  }

  /** What is done with a header that was written: it is given up when its name is too long or the file
      ends within its names; reported when the entry is encrypted, has a descriptor or another packing
      than stored and deflated; and extracted otherwise. */
  lemma HeaderInspected(d: seq<byte>, p: nat, h: LocalHeader, extract: Extraction, skip: nat)
    requires ValidHeader(h) && Has(d, p, HeaderBytes(h)) && skip >= 1
    ensures SignatureAt(d, p)
    ensures var start := p + 30 + h.nameLen + h.extraLen;
      Inspect(d, p, extract, skip) ==
        if h.nameLen > 4096 || start > |d| then Candidate(p, Malformed, p + skip)
        else if h.encrypted || h.descriptor || h.packing !in {0, 8} then
          Candidate(p, Unsupported, start + h.compressed)
        else Candidate(p, Recorded, start + Min(extract(start, h.compressed), Min(h.compressed, |d| - start)))
  {
    hide LittleEndianBytes, LittleEndian, HeaderBytes, And, Pow2, Flags, Has;
    FieldsBack(d, p, h);
    FlagsTested(h);
    FieldRanges();
  }

  lemma FieldRanges()
    ensures Pow2(16) == 65536 && Pow2(32) == MAX_BYTES
  {
    assert Pow2(8) == 256;
    Pow2Add(8, 8);
    Pow2Add(16, 16);
  }

  lemma FieldsBack(d: seq<byte>, p: nat, h: LocalHeader)
    requires ValidHeader(h) && Has(d, p, HeaderBytes(h))
    ensures p + HEADER_SIZE <= |d| && SignatureAt(d, p)
    ensures Word(d, p + 6) == Flags(h) && Word(d, p + 8) == h.packing
    ensures Long(d, p + 18) == h.compressed && Long(d, p + 22) == h.size
    ensures Word(d, p + 26) == h.nameLen && Word(d, p + 28) == h.extraLen
  {
    hide LittleEndianBytes, LittleEndian, Flags, Pow2, HeaderBytes;
    var s := HeaderBytes(h);
    assert d[p..p + 30] == s;
    FieldSlices(h);
    assert s[..4][0] == d[p] && s[..4][1] == d[p + 1] && s[..4][2] == d[p + 2] && s[..4][3] == d[p + 3];
    FieldAt(d, p, s, 6, 2, Flags(h));
    FieldAt(d, p, s, 8, 2, h.packing);
    FieldAt(d, p, s, 18, 4, h.compressed);
    FieldAt(d, p, s, 22, 4, h.size);
    FieldAt(d, p, s, 26, 2, h.nameLen);
    FieldAt(d, p, s, 28, 2, h.extraLen);
  }

  lemma FieldSlices(h: LocalHeader)
    ensures var s := HeaderBytes(h);
      && s[..4] == [0x50, 0x4B, 3, 4]
      && s[6..8] == LittleEndianBytes(Flags(h), 2) && s[8..10] == LittleEndianBytes(h.packing, 2)
      && s[18..22] == LittleEndianBytes(h.compressed, 4) && s[22..26] == LittleEndianBytes(h.size, 4)
      && s[26..28] == LittleEndianBytes(h.nameLen, 2) && s[28..30] == LittleEndianBytes(h.extraLen, 2)
  {
    hide LittleEndianBytes, Flags;
  }

  lemma FieldAt(d: seq<byte>, p: nat, s: seq<byte>, k: nat, n: nat, v: nat)
    requires k + n <= |s| && p + |s| <= |d| && d[p..p + |s|] == s && s[k..k + n] == LittleEndianBytes(v, n)
    requires v < Pow2(8 * n)
    ensures LittleEndian(d[p + k..p + k + n]) == v
  {
    LittleEndianRoundTrip(v, n);
    var there, written := d[p + k..p + k + n], s[k..k + n];
    forall i | 0 <= i < n ensures there[i] == written[i] {
      assert d[p..p + |s|][k + i] == d[p + k + i];
    }
    assert there == written;
  }

  lemma FlagsTested(h: LocalHeader)
    ensures And(Flags(h), 9) != 0 <==> h.encrypted || h.descriptor
  {
    hide And;
    var f := Flags(h);
    AndHalve(f, 9);
    AndHalve(f / 2, 4);
    AndHalve(f / 4, 2);
    AndHalve(f / 8, 1);
    AndNothing(f / 16);
    assert f % 2 == (if h.encrypted then 1 else 0);
    assert f / 2 == h.flags % 4 + (if h.descriptor then 4 else 0) + 8 * (h.flags / 4);
    assert f / 8 == (if h.descriptor then 1 else 0) + 2 * (h.flags / 4);
    assert f / 2 / 2 == f / 4 && f / 4 / 2 == f / 8 && f / 8 / 2 == f / 16;
  }

  lemma AndNothing(a: nat)
    ensures And(a, 0) == 0
  {
  }

  /** The reference search: try every position in turn, and resume one byte after a malformed header. */
  function Reference(d: seq<byte>, p: nat, extract: Extraction): seq<Candidate>
    decreases |d| - p
  {
    if p + HEADER_SIZE > |d| then []
    else if SignatureAt(d, p) then
      var c := Inspect(d, p, extract, 1);
      [c] + Reference(d, c.next, extract)
    else Reference(d, p + 1, extract)
  }

  /** Stretches without a signature can be skipped. */
  lemma {:induction false} SkipClear(d: seq<byte>, p: nat, q: nat, extract: Extraction)
    requires p <= q && forall k :: p <= k < q ==> !SignatureAt(d, k)
    ensures Reference(d, p, extract) == Reference(d, q, extract)
    decreases q - p
  {
    if p < q {
      assert !SignatureAt(d, p);
      SkipClear(d, p + 1, q, extract);
      if p + HEADER_SIZE > |d| {
        assert Reference(d, p, extract) == [] == Reference(d, p + 1, extract);
      }
    }
  }

  /** A signature does not overlap itself, so nothing starts in its last three bytes. */
  lemma NoOverlap(d: seq<byte>, p: nat)
    requires SignatureAt(d, p)
    ensures forall k :: p + 1 <= k < p + 4 ==> !SignatureAt(d, k)
  {
  }

  /** window.find(signature, from) */
  function Find(window: seq<byte>, from: nat): (r: int)
    ensures r == -1 || (from <= r && SignatureAt(window, r))
    ensures forall k :: from <= k < (if r == -1 then |window| else r) ==> !SignatureAt(window, k)
    decreases |window| - from
  {
    if from + 4 > |window| then -1
    else if SignatureAt(window, from) then from
    else Find(window, from + 1)
  }

  /** The same reference, with the malformed skip the program takes. */
  function AsScanned(c: Candidate): Candidate {
    if c.kind == Malformed then c.(next := c.offset + 4) else c
  }

  function AllAsScanned(cs: seq<Candidate>): seq<Candidate> {
    if cs == [] then [] else [AsScanned(cs[0])] + AllAsScanned(cs[1..])
  }

  lemma InspectSkips(d: seq<byte>, p: nat, extract: Extraction)
    requires p + HEADER_SIZE <= |d| && SignatureAt(d, p)
    ensures Inspect(d, p, extract, 4) == AsScanned(Inspect(d, p, extract, 1))
    ensures Reference(d, Inspect(d, p, extract, 1).next, extract)
        == Reference(d, Inspect(d, p, extract, 4).next, extract)
  {
    NoOverlap(d, p);
    if Inspect(d, p, extract, 1).kind == Malformed {
      SkipClear(d, p + 1, p + 4, extract);
    }
  }

  /** One window of the search, when there is no signature at `offset`. */
  method NextOffset(d: seq<byte>, offset: nat, ghost extract: Extraction) returns (next: nat)
    requires offset + HEADER_SIZE <= |d| && !SignatureAt(d, offset)
    ensures next > offset
    ensures Reference(d, offset, extract) == Reference(d, next, extract)
  {
    var end := Min(offset + CHUNK, |d|);
    var window := d[offset..end];
    var found := Find(window, 1);
    if found >= 0 {
      next := offset + found;
    } else {
      next := offset + if |window| - 3 > 1 then |window| - 3 else 1;
    }
    forall k | offset <= k < next
      ensures !SignatureAt(d, k)
    {
      if k > offset {
        assert !SignatureAt(window, k - offset);
      }
    }
    SkipClear(d, offset, next, extract);
  }

  /** The windowed scan looks at exactly the headers the reference looks at, in the same order. */
  method Scan(d: seq<byte>, extract: Extraction) returns (candidates: seq<Candidate>)
    ensures candidates == AllAsScanned(Reference(d, 0, extract))
  {
    hide Reference, Inspect, SignatureAt;
    candidates := [];
    var offset: nat := 0;
    while offset + HEADER_SIZE <= |d|
      invariant AllAsScanned(Reference(d, 0, extract)) == candidates + AllAsScanned(Reference(d, offset, extract))
      decreases |d| - offset
    {
      if !SignatureAt(d, offset) {
        offset := NextOffset(d, offset, extract);
      } else {
        var c := Inspect(d, offset, extract, 4);
        InspectSkips(d, offset, extract);
        ReferenceStep(d, offset, extract);
        candidates := candidates + [c];
        offset := c.next;
      }
    }
    ReferenceEnd(d, offset, extract);
  }

  lemma ReferenceStep(d: seq<byte>, p: nat, extract: Extraction)
    requires p + HEADER_SIZE <= |d| && SignatureAt(d, p)
    ensures AllAsScanned(Reference(d, p, extract))
      == [AsScanned(Inspect(d, p, extract, 1))] + AllAsScanned(Reference(d, Inspect(d, p, extract, 1).next, extract))
  {
    var c := Inspect(d, p, extract, 1);
    assert ([c] + Reference(d, c.next, extract))[1..] == Reference(d, c.next, extract);
  }

  lemma ReferenceEnd(d: seq<byte>, p: nat, extract: Extraction)
    requires p + HEADER_SIZE > |d|
    ensures AllAsScanned(Reference(d, p, extract)) == []
  {
  }

  /** Position `p` was examined, or lies in the header or data of an entry that was taken. */
  ghost predicate Accounted(cs: seq<Candidate>, p: nat) {
    exists i :: 0 <= i < |cs| && (cs[i].offset == p || (cs[i].kind != Malformed && cs[i].offset < p < cs[i].next))
  }

  /** The reference misses no header. */
  lemma {:induction false} ReferenceComplete(d: seq<byte>, from: nat, p: nat, extract: Extraction)
    requires from <= p && p + HEADER_SIZE <= |d| && SignatureAt(d, p)
    ensures Accounted(Reference(d, from, extract), p)
    decreases |d| - from
  {
    var cs := Reference(d, from, extract);
    if SignatureAt(d, from) {
      var c := Inspect(d, from, extract, 1);
      if from == p {
        assert cs[0].offset == p;
      } else if p >= c.next {
        ReferenceComplete(d, c.next, p, extract);
        var rest := Reference(d, c.next, extract);
        var i :| 0 <= i < |rest|
          && (rest[i].offset == p || (rest[i].kind != Malformed && rest[i].offset < p < rest[i].next));
        assert cs[i + 1] == rest[i];
      } else {
        assert c.kind != Malformed;
        assert cs[0] == c;
      }
    } else {
      ReferenceComplete(d, from + 1, p, extract);
    }
  }

  /** Every header in the file is examined by the scan or lies inside an entry that was taken, even
      across window edges and after the four-byte skip; and the scan moves strictly forward. */
  lemma ScanMissesNothing(d: seq<byte>, extract: Extraction, p: nat)
    requires p + HEADER_SIZE <= |d| && SignatureAt(d, p)
    ensures Accounted(AllAsScanned(Reference(d, 0, extract)), p)
  {
    ReferenceComplete(d, 0, p, extract);
    var cs := Reference(d, 0, extract);
    var i :| 0 <= i < |cs| && (cs[i].offset == p || (cs[i].kind != Malformed && cs[i].offset < p < cs[i].next));
    AsScannedAt(cs, i);
    assert AllAsScanned(cs)[i] == AsScanned(cs[i]);
  }

  lemma {:induction false} AsScannedAt(cs: seq<Candidate>, i: nat)
    requires i < |cs|
    ensures |AllAsScanned(cs)| == |cs| && AllAsScanned(cs)[i] == AsScanned(cs[i])
  {
    if i > 0 {
      AsScannedAt(cs[1..], i - 1);
    } else if |cs| > 1 {
      AsScannedAt(cs[1..], 0);
    }
  }

  /** Examined headers come in order, each begins with the signature, and none starts before the
      previous one was left. */
  ghost predicate Forward(cs: seq<Candidate>, d: seq<byte>, from: nat) {
    cs == [] || (
      && cs[0].offset >= from && SignatureAt(d, cs[0].offset) && cs[0].next > cs[0].offset
      && Forward(cs[1..], d, cs[0].next))
  }

  /** The scan moves strictly forward from signature to signature. */
  lemma {:induction false} ScanAdvances(d: seq<byte>, from: nat, extract: Extraction)
    ensures Forward(AllAsScanned(Reference(d, from, extract)), d, from)
    decreases |d| - from
  {
    hide Inspect, SignatureAt;
    if from + HEADER_SIZE <= |d| {
      if SignatureAt(d, from) {
        var c := Inspect(d, from, extract, 4);
        InspectSkips(d, from, extract);
        ReferenceStep(d, from, extract);
        ScanAdvances(d, c.next, extract);
        var rest := AllAsScanned(Reference(d, c.next, extract));
        assert ([c] + rest)[1..] == rest;
      } else {
        ScanAdvances(d, from + 1, extract);
        var cs := AllAsScanned(Reference(d, from + 1, extract));
        assert Forward(cs, d, from);
      }
    }
  }
}
