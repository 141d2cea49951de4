/** The header cursor, and the variable-length NUMBER of the 7z format (7zFormat.txt, section
    "NUMBER"): the count of leading one bits of the first byte says how many bytes follow. */
module SevenZipNumber {
  import opened Bits
  import opened Wrappers

  datatype Reason =
    | Truncated | UnsupportedLayout | TooManySubstreams
    | UnsupportedFolder | UnsupportedCoderGraph | InvalidCoderProperties
    | DuplicatePackInfo | InvalidPackedStreamCount | UnsupportedPackInfo
    | DuplicateUnpackInfo | MultipleOrExternalFolders | UnsupportedUnpackInfo
    | MisorderedStreams | InvalidSubstreamCount | MissingSubstreamSizes | InvalidSubstreamSizes
    | UnsupportedSubstreamInfo | UnknownStreamInfo | IncompleteStreamMetadata | PackedFolderCountMismatch
    | InvalidFileCount | FilePropertyTooLarge | ExternalFilenames | InvalidFilenames
    | FileMappingUnavailable | InvalidEmptyFileProperties | UnpackSizesMismatch
    | UnsupportedHeaderProperties | TrailingHeaderData

  /** The result of parsing `data` from some position: a value and the position after it. */
  datatype Parsed<+T> = Fail(reason: Reason) | Got(value: T, pos: nat) {
    predicate IsFailure() {
      Fail?
    }

    function PropagateFailure<U>(): (r: Parsed<U>)
      requires Fail?
    {
      Parsed<U>.Fail(reason)
    }

    function Extract(): (T, nat)
      requires Got?
    {
      (value, pos)
    }
  }

  function RawAt(d: seq<byte>, pos: nat, n: nat): (r: Parsed<seq<byte>>)
    ensures r.Got? ==> pos + n == r.pos <= |d| && r.value == d[pos..r.pos]
  {
    if pos + n > |d| then Fail(Truncated) else Got(d[pos..pos + n], pos + n)
  }

  function U8At(d: seq<byte>, pos: nat): (r: Parsed<byte>)
    ensures r.Got? ==> pos < r.pos <= |d|
  {
    if pos + 1 > |d| then Fail(Truncated) else Got(d[pos], pos + 1)
  }

  /** How many one bits lead the byte. */
  function LeadingOnes(first: byte): (n: nat)
    ensures n <= 8
  {
    if first < 0x80 then 0
    else if first < 0xC0 then 1
    else if first < 0xE0 then 2
    else if first < 0xF0 then 3
    else if first < 0xF8 then 4
    else if first < 0xFC then 5
    else if first < 0xFE then 6
    else if first < 0xFF then 7
    else 8
  }

  /** The bits of the first byte that belong to the value. */
  function TopBits(first: byte): nat {
    if first == 0xFF then 0 else first % Pow2(7 - Min7(LeadingOnes(first)))
  }

  function Min7(n: nat): (r: nat)
    ensures r <= 7
  {
    if n < 7 then n else 7
  }

  function NumAt(d: seq<byte>, pos: nat): (r: Parsed<nat>)
    ensures r.Got? ==> pos < r.pos <= |d| && r.pos <= pos + 9
  {
    var (first, p) :- U8At(d, pos);
    var n := LeadingOnes(first);
    var (rest, q) :- RawAt(d, p, n);
    Got(TopBits(first) * Pow2(8 * n) + LittleEndian(rest), q)
  }

  lemma LittleEndianNil()
    ensures LittleEndian([]) == 0
  {
  }

  lemma {:induction false} LittleEndianSnoc(s: seq<byte>, b: byte)
    ensures LittleEndian(s + [b]) == LittleEndian(s) + b * Pow2(8 * |s|)
  {
    if s == [] {
      assert [] + [b] == [b];
      assert Pow2(0) == 1;
    } else {
      assert (s + [b])[1..] == s[1..] + [b];
      LittleEndianSnoc(s[1..], b);
      ShiftByte(8 * |s[1..]|);
      var w := Pow2(8 * |s[1..]|);
      assert 256 * (b * w) == b * (256 * w);
    }
  }

  lemma ShiftByte(n: nat)
    ensures Pow2(n + 8) == 256 * Pow2(n)
  {
    Pow2Add(8, n);
    assert Pow2(8) == 256;
  }

  lemma {:induction false} LittleEndianBound(s: seq<byte>)
    ensures LittleEndian(s) < Pow2(8 * |s|)
  {
    if s != [] {
      LittleEndianBound(s[1..]);
      ShiftByte(8 * |s[1..]|);
    }
  }

  /** Every decoded value fits in 64 bits. */
  lemma NumBound(d: seq<byte>, pos: nat)
    requires NumAt(d, pos).Got?
    ensures NumAt(d, pos).value < Pow2(64)
  {
    var first := d[pos];
    AllOnes();
    ValueBound(first, d[pos + 1..pos + 1 + LeadingOnes(first)]);
  }

  lemma ValueBound(first: byte, rest: seq<byte>)
    requires |rest| == LeadingOnes(first)
    ensures TopBits(first) * Pow2(8 * |rest|) + LittleEndian(rest) < Pow2(64)
  {
    hide LittleEndian, Pow2, TopBits;
    var n := |rest|;
    LittleEndianBound(rest);
    AllOnes();
    if n < 8 {
      TopBound(first);
      Packed(TopBits(first), Pow2(7 - n), Pow2(8 * n), LittleEndian(rest));
      Pow2Add(7 - n, 8 * n);
      Pow2Monotone(7 - n + 8 * n, 64);
    }
  }

  lemma Packed(top: nat, k: nat, w: nat, low: nat)
    requires top < k && low < w
    ensures top * w + low < k * w
  {
    MulMonotone(top + 1, k, w);
    assert (top + 1) * w == top * w + w;
  }

  lemma MulMonotone(a: nat, b: nat, w: nat)
    requires a <= b
    ensures a * w <= b * w
  {
    assert b * w == a * w + (b - a) * w;
  }

  lemma TopBound(first: byte)
    requires LeadingOnes(first) < 8
    ensures TopBits(first) < Pow2(7 - LeadingOnes(first))
  {
  }

  // ----- the encoder of the format

  function LittleEndianBytes(v: nat, n: nat): (s: seq<byte>)
    ensures |s| == n
  {
    if n == 0 then [] else [v % 256] + LittleEndianBytes(v / 256, n - 1)
  }

  lemma {:induction false} LittleEndianRoundTrip(v: nat, n: nat)
    requires v < Pow2(8 * n)
    ensures LittleEndian(LittleEndianBytes(v, n)) == v
  {
    if n > 0 {
      ShiftByte(8 * (n - 1));
      LittleEndianRoundTrip(v / 256, n - 1);
    }
  }

  predicate Encodable(v: nat, n: nat) {
    n <= 8 && v < if n < 8 then Pow2(7 * (n + 1)) else Pow2(64)
  }

  /** The bits of the value above its low `n` bytes, and those bytes. */
  function High(v: nat, n: nat): (q: nat)
    ensures v == q * Pow2(8 * n) + Low(v, n)
  {
    DivMod(v, Pow2(8 * n));
    v / Pow2(8 * n)
  }

  function Low(v: nat, n: nat): (r: nat)
    ensures r < Pow2(8 * n)
  {
    DivMod(v, Pow2(8 * n));
    v % Pow2(8 * n)
  }

  lemma DivMod(v: nat, w: nat)
    requires w >= 1
    ensures v == (v / w) * w + v % w && v % w < w && v / w >= 0
  {
  }

  /** A value in the form with `n` bytes after the first. */
  function EncodeWith(v: nat, n: nat): (s: seq<byte>)
    requires Encodable(v, n)
    ensures |s| == n + 1
  {
    HighPart(v, n);
    [FirstOf(High(v, n), n)] + LittleEndianBytes(Low(v, n), n)
  }

  function FirstOf(q: nat, n: nat): byte
    requires n <= 8 && q < if n < 8 then Pow2(7 - n) else 1
  {
    if n == 8 then 255 else FirstByte(n, q); 256 - Pow2(8 - n) + q
  }

  /** The shortest form the value has. */
  function FormOf(v: nat): (n: nat)
    requires v < Pow2(64)
    ensures Encodable(v, n)
  {
    if v < Pow2(7) then 0
    else if v < Pow2(14) then 1
    else if v < Pow2(21) then 2
    else if v < Pow2(28) then 3
    else if v < Pow2(35) then 4
    else if v < Pow2(42) then 5
    else if v < Pow2(49) then 6
    else if v < Pow2(56) then 7
    else 8
  }

  function Encode(v: nat): (s: seq<byte>)
    requires v < Pow2(64)
    ensures 1 <= |s| <= 9
  {
    EncodeWith(v, FormOf(v))
  }

  lemma HighPart(v: nat, n: nat)
    requires Encodable(v, n)
    ensures High(v, n) < if n < 8 then Pow2(7 - n) else 1
  {
    hide High, Low;
    var k := if n < 8 then Pow2(7 - n) else 1;
    if n < 8 {
      Pow2Add(7 - n, 8 * n);
    }
    assert v < k * Pow2(8 * n);
    QuotientBound(High(v, n), k, Pow2(8 * n), Low(v, n));
  }

  lemma QuotientBound(q: nat, k: nat, w: nat, r: nat)
    requires q * w + r < k * w
    ensures q < k
  {
    if q >= k {
      MulMonotone(k, q, w);
    }
  }

  /** The first byte of a form announces that form and carries the high bits. */
  lemma FirstByte(n: nat, q: nat)
    requires n < 8 && q < Pow2(7 - n)
    ensures 0 <= 256 - Pow2(8 - n) + q < 256
    ensures LeadingOnes(256 - Pow2(8 - n) + q) == n && TopBits(256 - Pow2(8 - n) + q) == q
  {
    assert Pow2(1) == 2 && Pow2(2) == 4 && Pow2(3) == 8 && Pow2(4) == 16 && Pow2(5) == 32 && Pow2(6) == 64
        && Pow2(7) == 128 && Pow2(8) == 256;
  }

  /** Decoding what the encoder wrote, in any admissible form and anywhere in the data, returns the
      value and stops right after it. */
  lemma NumRoundTrip(v: nat, n: nat, d: seq<byte>, pos: nat)
    requires Encodable(v, n)
    requires pos + n + 1 <= |d| && d[pos..pos + n + 1] == EncodeWith(v, n)
    ensures NumAt(d, pos) == Got(v, pos + n + 1)
  {
    hide High, Low;
    var q, r := High(v, n), Low(v, n);
    HighPart(v, n);
    var s := EncodeWith(v, n);
    assert d[pos] == s[0] && d[pos + 1..pos + 1 + n] == s[1..] == LittleEndianBytes(r, n);
    LittleEndianRoundTrip(r, n);
    if n < 8 {
      FirstByte(n, q);
    }
  }

  // ----- the cursor

  /** A parser object: the header bytes and the position reached. */
  class Parse {
    const data: seq<byte>
    var pos: nat

    constructor (data: seq<byte>)
      ensures this.data == data && pos == 0
    {
      this.data := data;
      pos := 0;
    }

    /** The call agrees with the parser function at the position it started from. */
    ghost predicate Agrees<T>(r: Result<T, Reason>, expected: Parsed<T>)
      reads this
    {
      match expected
      case Fail(e) => r == Err(e)
      case Got(v, p) => r == Ok(v) && pos == p
    }

    method Raw(n: nat) returns (r: Result<seq<byte>, Reason>)
      modifies this
      ensures Agrees(r, RawAt(data, old(pos), n))
    {
      if pos + n > |data| {
        return Err(Truncated);
      }
      var chunk := data[pos..pos + n];
      pos := pos + n;
      return Ok(chunk);
    }

    method U8() returns (r: Result<byte, Reason>)
      modifies this
      ensures Agrees(r, U8At(data, old(pos)))
    {
      var chunk :- Raw(1);
      return Ok(chunk[0]);
    }

    method Tag(wanted: byte) returns (r: Result<(), Reason>)
      modifies this
      ensures Agrees(r, TagAt(data, old(pos), wanted))
    {
      var b :- U8();
      if b != wanted {
        return Err(UnsupportedLayout);
      }
      return Ok(());
    }

    /** The bytes after the first, OR-ed into place one at a time. */
    method Tail(top: nat, n: nat) returns (r: Result<nat, Reason>)
      requires n < 8 && pos <= |data|
      modifies this
      ensures match RawAt(data, old(pos), n)
        case Fail(e) => r == Err(e)
        case Got(rest, p) => r == Ok(top * Pow2(8 * n) + LittleEndian(rest)) && pos == p
    {
      hide LittleEndian, Or;
      var value := top * Pow2(8 * n);
      ghost var start := pos;
      assert data[start..start] == [];
      LittleEndianNil();
      for i := 0 to n
        invariant pos == start + i <= |data|
        invariant value == top * Pow2(8 * n) + LittleEndian(data[start..pos])
      {
        ghost var read := data[start..pos];
        var b :- U8();
        assert data[start..pos] == read + [b];
        OrInto(top, n, read, b);
        value := Or(value, b * Pow2(8 * i));
      }
      return Ok(value);
    }

    method Num() returns (r: Result<nat, Reason>)
      modifies this
      ensures Agrees(r, NumAt(data, old(pos)))
    {
      hide And, Pow2, TopBits, LittleEndian;
      SmallPowers();
      AllOnes();
      var first :- U8();
      var mask := 0x80;
      for n := 0 to 8
        invariant pos == old(pos) + 1 && pos <= |data| && first == data[old(pos)]
        invariant n < 8 ==> mask == Pow2(7 - n)
        invariant first >= 256 - Pow2(8 - n)
      {
        MaskTest(first, n);
        if And(first, mask) == 0 {
          AndMask(first, 7 - n);
          r := Tail(And(first, mask - 1), n);
          return;
        }
        mask := mask / 2;
      }
      var rest :- Raw(8);
      return Ok(LittleEndian(rest));
    }
  }

  function TagAt(d: seq<byte>, pos: nat, wanted: byte): (r: Parsed<()>)
    ensures r.Got? ==> pos < r.pos <= |d|
  {
    var (b, p) :- U8At(d, pos);
    if b != wanted then Fail(UnsupportedLayout) else Got((), p)
  }

  /** The mask loop finds the first zero bit. */
  lemma MaskTest(first: byte, n: nat)
    requires n < 8 && first >= 256 - Pow2(8 - n)
    ensures And(first, Pow2(7 - n)) == 0 <==> LeadingOnes(first) == n
    ensures And(first, Pow2(7 - n)) != 0 ==> first >= 256 - Pow2(8 - (n + 1))
    ensures LeadingOnes(first) == n ==> TopBits(first) == first % Pow2(7 - n)
    ensures n < 7 ==> Pow2(7 - n) / 2 == Pow2(7 - (n + 1))
  {
    hide And;
    AndBit(first, 7 - n);
    SmallPowers();
  }

  lemma AllOnes()
    ensures TopBits(0xFF) == 0
  {
  }

  lemma SmallPowers()
    ensures Pow2(0) == 1 && Pow2(1) == 2 && Pow2(2) == 4 && Pow2(3) == 8 && Pow2(4) == 16 && Pow2(5) == 32
    ensures Pow2(6) == 64 && Pow2(7) == 128 && Pow2(8) == 256
  {
  }

  /** Shifting the next byte into place and OR-ing it in adds it: its bits were all zero. */
  lemma OrInto(top: nat, n: nat, read: seq<byte>, b: byte)
    requires |read| < n
    ensures Or(top * Pow2(8 * n) + LittleEndian(read), b * Pow2(8 * |read|))
      == top * Pow2(8 * n) + LittleEndian(read + [b])
  {
    hide Or, LittleEndian, Pow2;
    var i := |read|;
    var m := 8 * (n - i);
    var w, low := Pow2(8 * i), LittleEndian(read);
    LittleEndianBound(read);
    Pow2Add(m, 8 * i);
    Pow2Eight();
    Pow2Monotone(8, m);
    OrLow(top, b, m);
    OrShifted(low, top * Pow2(m), b, 8 * i);
    LittleEndianSnoc(read, b);
    Regroup(top, Pow2(m), w, b);
  }

  lemma Regroup(top: nat, p: nat, w: nat, b: nat)
    ensures top * (p * w) == (top * p) * w
    ensures (top * p + b) * w == (top * p) * w + b * w
  {
  }

  lemma Pow2Eight()
    ensures Pow2(8) == 256
  {
  }
}
