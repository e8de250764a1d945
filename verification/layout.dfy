/** The byte layout of an ISM file, as `IsmImport.__init__` reads it before
    any value is interpreted: a 6-byte marker that is skipped, a 6-byte
    signed element count minus one, four `>f8` arrays, one `>i2` array, and
    a date text behind a 2-byte signed length. All fields are big-endian. */
module Layout {
  import opened Wrappers
  import opened BigEndian
  import opened FileStream

  const SkipSize := 6
  const CountSize := 6
  const DateLengthSize := 2

  /** One undecoded `>f8` array cell: the 8 bytes of an IEEE 754 binary64 value. */
  type Cell = seq<Byte>

  /** The five parallel arrays of a file, in file order. */
  datatype Arrays = Arrays(
    frequency: seq<Cell>,
    impedance: seq<Cell>,
    phase: seq<Cell>,
    time: seq<Cell>,
    significance: seq<int>)

  /** What the reads of the constructor leave behind: `count` is the element
      count (the stored field plus one). */
  datatype RawFile = RawFile(count: nat, arrays: Arrays, dateText: seq<Byte>)

  predicate IsInt16(v: int) {
    -0x8000 <= v < 0x8000
  }

  /** The `n` float64 cells stored back to back from byte `p` on. */
  function Float64Cells(bytes: seq<Byte>, p: nat, n: nat): (cells: seq<Cell>)
    requires p + 8 * n <= |bytes|
    ensures |cells| == n
    decreases n
  {
    if n == 0 then [] else [bytes[p..p + 8]] + Float64Cells(bytes, p + 8, n - 1)
  }

  /** The `n` big-endian int16 values stored back to back from byte `p` on. */
  function Int16Values(bytes: seq<Byte>, p: nat, n: nat): (values: seq<int>)
    requires p + 2 * n <= |bytes|
    ensures |values| == n
    decreases n
  {
    if n == 0 then [] else [Signed(bytes[p..p + 2])] + Int16Values(bytes, p + 2, n - 1)
  }

  /** Cell `k` of the float64 cells from byte `p` on is bytes `p + 8k` to `p + 8k + 8`. */
  lemma {:induction false} Float64CellAt(bytes: seq<Byte>, p: nat, n: nat, k: nat)
    requires p + 8 * n <= |bytes| && k < n
    ensures Float64Cells(bytes, p, n)[k] == bytes[p + 8 * k..p + 8 * k + 8]
    decreases n
  {
    if k > 0 {
      Float64CellAt(bytes, p + 8, n - 1, k - 1);
    }
  }

  /** Value `k` of the int16 values from byte `p` on is read from bytes `p + 2k` to `p + 2k + 2`. */
  lemma {:induction false} Int16ValueAt(bytes: seq<Byte>, p: nat, n: nat, k: nat)
    requires p + 2 * n <= |bytes| && k < n
    ensures Int16Values(bytes, p, n)[k] == Signed(bytes[p + 2 * k..p + 2 * k + 2])
    decreases n
  {
    if k > 0 {
      Int16ValueAt(bytes, p + 2, n - 1, k - 1);
    }
  }

  /** The five arrays of `n` elements stored back to back from byte `h` on. */
  function ArraysAt(bytes: seq<Byte>, h: nat, n: nat): Arrays
    requires h + 34 * n <= |bytes|
  {
    Arrays(
      Float64Cells(bytes, h, n),
      Float64Cells(bytes, h + 8 * n, n),
      Float64Cells(bytes, h + 16 * n, n),
      Float64Cells(bytes, h + 24 * n, n),
      Int16Values(bytes, h + 32 * n, n))
  }

  /** `read(8 * n)` into `np.ndarray(shape=(n,), dtype='>f8', buffer=...)`
      at byte `p`: fails on a negative `n` (a negative dimension) or a short
      read (a buffer too small for the shape). */
  function ReadFloat64s(bytes: seq<Byte>, p: nat, n: int): (r: Option<seq<Cell>>)
    requires p <= |bytes|
    ensures r.Some? <==> 0 <= n && p + 8 * n <= |bytes|
    ensures r.Some? ==> r.value == Float64Cells(bytes, p, n)
  {
    var _ :- ReadExactly(Stream(bytes, p), 8 * n);
    Some(Float64Cells(bytes, p, n))
  }

  /** `read(2 * n)` into `np.ndarray(shape=(n,), dtype='>i2', buffer=...)`
      at byte `p`: fails on a negative `n` or a short read. */
  function ReadInt16s(bytes: seq<Byte>, p: nat, n: int): (r: Option<seq<int>>)
    requires p <= |bytes|
    ensures r.Some? <==> 0 <= n && p + 2 * n <= |bytes|
    ensures r.Some? ==> r.value == Int16Values(bytes, p, n)
  {
    var _ :- ReadExactly(Stream(bytes, p), 2 * n);
    Some(Int16Values(bytes, p, n))
  }

  /** The five array reads that follow the count field, from byte `h` on,
      each starting where the previous one ended. The reads succeed exactly
      when the last one fits in the file. */
  function ReadArrays(bytes: seq<Byte>, h: nat, n: int): (r: Option<Arrays>)
    requires h <= |bytes|
    ensures r.Some? <==> 0 <= n && h + 34 * n <= |bytes|
    ensures r.Some? ==> r.value == ArraysAt(bytes, h, n)
  {
    var frequency :- ReadFloat64s(bytes, h, n);
    var impedance :- ReadFloat64s(bytes, h + 8 * n, n);
    var phase :- ReadFloat64s(bytes, h + 16 * n, n);
    var time :- ReadFloat64s(bytes, h + 24 * n, n);
    var significance :- ReadInt16s(bytes, h + 32 * n, n);
    Some(Arrays(frequency, impedance, phase, time, significance))
  }

  /** Where the count field ends: byte 12, or the end of a shorter file. */
  function HeaderEnd(bytes: seq<Byte>): nat {
    if |bytes| < SkipSize + CountSize then |bytes| else SkipSize + CountSize
  }

  /** The stored count field (short when the file is), as
      `int.from_bytes(..., "big", signed=True)` reads it. */
  function CountField(bytes: seq<Byte>): int {
    var start := if |bytes| < SkipSize then |bytes| else SkipSize;
    Signed(bytes[start..HeaderEnd(bytes)])
  }

  /** The two header reads end at `HeaderEnd` and the second returns the count field. */
  lemma HeaderReads(bytes: seq<Byte>)
    ensures var afterSkip := Read(Stream(bytes, 0), SkipSize).value.1;
      var countRead := Read(afterSkip, CountSize).value;
      countRead.1 == Stream(bytes, HeaderEnd(bytes)) && Signed(countRead.0) == CountField(bytes)
  {
  }

  /** The signed date length field at byte `p` (short when the file is). */
  function DateLength(bytes: seq<Byte>, p: nat): int
    requires p <= |bytes|
  {
    Signed(bytes[p..if p + DateLengthSize <= |bytes| then p + DateLengthSize else |bytes|])
  }

  /** The date text read at byte `p`: a 2-byte signed length `L`, then
      `read(L)`, which is short at the end of the file, reads to the end of
      the file for `L = -1` and raises for any `L` below -1. */
  function DateTextAt(bytes: seq<Byte>, p: nat): (r: Option<seq<Byte>>)
    requires p <= |bytes|
    ensures r.Some? <==> DateLength(bytes, p) >= -1
  {
    var lengthRead := Read(Stream(bytes, p), DateLengthSize).value;
    var textRead :- Read(lengthRead.1, Signed(lengthRead.0));
    Some(textRead.0)
  }

  /** The date text of a file whose `n` elements start at byte `h`. */
  function DateTextAfter(bytes: seq<Byte>, h: nat, n: nat): (r: Option<seq<Byte>>)
    requires h + 34 * n <= |bytes|
    ensures r.Some? <==> DateLength(bytes, h + 34 * n) >= -1
  {
    DateTextAt(bytes, h + 34 * n)
  }

  /** The reads that follow the count field, from byte `h` on, for `n`
      elements: the five arrays, then the date text. */
  function ReadBody(bytes: seq<Byte>, h: nat, n: int): (r: Option<RawFile>)
    requires h <= |bytes|
    ensures r.Some? <==> 0 <= n && h + 34 * n <= |bytes| && DateLength(bytes, h + 34 * n) >= -1
    ensures r.Some? ==> r.value.count == n
    ensures r.Some? ==> r.value.arrays == ArraysAt(bytes, h, r.value.count)
    ensures r.Some? ==> DateTextAfter(bytes, h, r.value.count) == Some(r.value.dateText)
  {
    var arrays :- ReadArrays(bytes, h, n);
    var text :- DateTextAfter(bytes, h, n);
    Some(RawFile(n, arrays, text))
  }

  /** The sequence of reads of the constructor: the two header reads, which
      end at `HeaderEnd` and return the count field (`HeaderReads`), then
      the body. The file is accepted exactly when the element count is not
      negative, the five arrays fit in the file and the date length is at
      least -1; the date length and the date text may be cut short. */
  function Parse(bytes: seq<Byte>): (r: Option<RawFile>)
    ensures r.Some? <==>
      && 0 <= CountField(bytes) + 1 && HeaderEnd(bytes) + 34 * (CountField(bytes) + 1) <= |bytes|
      && DateLength(bytes, HeaderEnd(bytes) + 34 * (CountField(bytes) + 1)) >= -1
    ensures r.Some? ==> r.value.count == CountField(bytes) + 1
    ensures r.Some? ==> r.value.arrays == ArraysAt(bytes, HeaderEnd(bytes), r.value.count)
    ensures r.Some? ==>
      DateTextAfter(bytes, HeaderEnd(bytes), r.value.count) == Some(r.value.dateText)
  {
    ReadBody(bytes, HeaderEnd(bytes), CountField(bytes) + 1)
  }

  /** For a file of at least 12 bytes, the count field is bytes 6 to 12
      and the arrays start at byte 12. */
  lemma ParseFrom12(bytes: seq<Byte>)
    requires Parse(bytes).Some? && |bytes| >= 12
    ensures Parse(bytes).value.count == Signed(bytes[6..12]) + 1
    ensures 12 + 34 * Parse(bytes).value.count <= |bytes|
    ensures Parse(bytes).value.arrays == ArraysAt(bytes, 12, Parse(bytes).value.count)
  {
    assert HeaderEnd(bytes) == 12;
  }

  /** For a file of at least 12 bytes, the date text is read after the arrays,
      from the date length field at byte `12 + 34*n` on (see `DateTextFormula`). */
  lemma ParseDateFrom12(bytes: seq<Byte>)
    requires Parse(bytes).Some? && |bytes| >= 12
    ensures 12 + 34 * Parse(bytes).value.count <= |bytes|
    ensures DateTextAfter(bytes, 12, Parse(bytes).value.count) == Some(Parse(bytes).value.dateText)
  {
    assert HeaderEnd(bytes) == 12;
  }

  /** The offsets of element `k` of the arrays of `n` elements stored from
      byte `h` on (byte 12 in a file, by `ParseFrom12`): array `a`
      (0 = frequency .. 3 = time) starts at `h + 8*a*n` and the significance
      array at `h + 32*n`, each element right after the previous one. */
  lemma ElementOffsets(bytes: seq<Byte>, h: nat, n: nat, k: nat)
    requires h + 34 * n <= |bytes| && k < n
    ensures ArraysAt(bytes, h, n).frequency[k] == bytes[h + 8 * k..h + 8 * k + 8]
    ensures ArraysAt(bytes, h, n).impedance[k] == bytes[h + 8 * n + 8 * k..h + 8 * n + 8 * k + 8]
    ensures ArraysAt(bytes, h, n).phase[k] == bytes[h + 16 * n + 8 * k..h + 16 * n + 8 * k + 8]
    ensures ArraysAt(bytes, h, n).time[k] == bytes[h + 24 * n + 8 * k..h + 24 * n + 8 * k + 8]
    ensures ArraysAt(bytes, h, n).significance[k]
      == Signed(bytes[h + 32 * n + 2 * k..h + 32 * n + 2 * k + 2])
  {
    FrequencyAt(bytes, h, n, k);
    ImpedanceAt(bytes, h, n, k);
    PhaseAt(bytes, h, n, k);
    TimeAt(bytes, h, n, k);
    SignificanceAt(bytes, h, n, k);
  }

  lemma FrequencyAt(bytes: seq<Byte>, h: nat, n: nat, k: nat)
    requires h + 34 * n <= |bytes| && k < n
    ensures ArraysAt(bytes, h, n).frequency[k] == bytes[h + 8 * k..h + 8 * k + 8]
  {
    Float64CellAt(bytes, h, n, k);
  }

  lemma ImpedanceAt(bytes: seq<Byte>, h: nat, n: nat, k: nat)
    requires h + 34 * n <= |bytes| && k < n
    ensures ArraysAt(bytes, h, n).impedance[k] == bytes[h + 8 * n + 8 * k..h + 8 * n + 8 * k + 8]
  {
    Float64CellAt(bytes, h + 8 * n, n, k);
  }

  lemma PhaseAt(bytes: seq<Byte>, h: nat, n: nat, k: nat)
    requires h + 34 * n <= |bytes| && k < n
    ensures ArraysAt(bytes, h, n).phase[k] == bytes[h + 16 * n + 8 * k..h + 16 * n + 8 * k + 8]
  {
    Float64CellAt(bytes, h + 16 * n, n, k);
  }

  lemma TimeAt(bytes: seq<Byte>, h: nat, n: nat, k: nat)
    requires h + 34 * n <= |bytes| && k < n
    ensures ArraysAt(bytes, h, n).time[k] == bytes[h + 24 * n + 8 * k..h + 24 * n + 8 * k + 8]
  {
    Float64CellAt(bytes, h + 24 * n, n, k);
  }

  lemma SignificanceAt(bytes: seq<Byte>, h: nat, n: nat, k: nat)
    requires h + 34 * n <= |bytes| && k < n
    ensures ArraysAt(bytes, h, n).significance[k]
      == Signed(bytes[h + 32 * n + 2 * k..h + 32 * n + 2 * k + 2])
  {
    Int16ValueAt(bytes, h + 32 * n, n, k);
  }

  /** The date text read at byte `p` of a file with room for the length
      field: none for a length below -1, otherwise the text behind the
      field, up to the end of the file when the length is -1 or runs past
      the end. */
  lemma DateTextFormula(bytes: seq<Byte>, p: nat)
    requires p + 2 <= |bytes|
    ensures var len := Signed(bytes[p..p + 2]);
      && DateLength(bytes, p) == len
      && (DateTextAt(bytes, p).Some? <==> len >= -1)
      && (len >= -1 ==>
            DateTextAt(bytes, p).value
              == bytes[p + 2..if len == -1 || p + 2 + len > |bytes| then |bytes| else p + 2 + len])
  {
  }

  /** A two-element file whose date length field is `FF FE` (-2): `read(-2)`
      raises, so the file is rejected whatever text follows. */
  lemma DateLengthMinusTwoRejected()
    ensures Parse(SampleFile([0xFF, 0xFE])) == None
  {
    SampleFileFields([0xFF, 0xFE]);
  }

  /** The same file with the field `FF FF` (-1) is accepted, and the date
      text is everything after the field. */
  lemma DateLengthMinusOneReadsToEnd()
    ensures Parse(SampleFile([0xFF, 0xFF])).Some?
    ensures Parse(SampleFile([0xFF, 0xFF])).value.dateText == [0x30, 0x31, 0x30, 0x31, 0x37, 0x30]
  {
    var bytes := SampleFile([0xFF, 0xFF]);
    SampleFileFields([0xFF, 0xFF]);
    DateTextFormula(bytes, 80);
    assert DateTextAfter(bytes, 12, 2) == Some(bytes[82..88]);
    assert bytes[82..88] == [0x30, 0x31, 0x30, 0x31, 0x37, 0x30];
  }

  /** A zero marker, the stored count 1 (two elements), 68 zero bytes of
      arrays, the given date length field and the text `010170`. */
  function SampleFile(lengthField: seq<Byte>): seq<Byte>
    requires |lengthField| == 2
  {
    [0, 0, 0, 0, 0, 0] + [0, 0, 0, 0, 0, 1] + seq(68, _ => 0) + lengthField
      + [0x30, 0x31, 0x30, 0x31, 0x37, 0x30]
  }

  lemma SampleFileFields(lengthField: seq<Byte>)
    requires |lengthField| == 2
    ensures var bytes := SampleFile(lengthField);
      && |bytes| == 88 && HeaderEnd(bytes) == 12 && CountField(bytes) == 1
      && DateLength(bytes, 80) == Signed(lengthField)
  {
    var bytes := SampleFile(lengthField);
    assert bytes[6..12] == [0, 0, 0, 0, 0, 1];
    assert bytes[80..82] == lengthField;
    Pow256Values();
    assert Unsigned([0, 0, 0, 0, 0, 1]) == 1 by {
      assert [0, 0, 0, 0, 0, 1][..5] == [0, 0, 0, 0, 0];
      assert Unsigned([0, 0, 0, 0, 0]) == 0 by {
        ZerosUnsigned([0, 0, 0, 0, 0]);
      }
    }
  }

  /** A file shorter than 12 bytes is accepted only with an element count of
      zero, which the later indexing of `frequency[0]` rejects. */
  lemma ShortFileHasNoElements(bytes: seq<Byte>)
    requires Parse(bytes).Some? && |bytes| < 12
    ensures Parse(bytes).value.count == 0
  {
  }

  /** The concatenation of a sequence of byte cells. */
  function Flatten(cs: seq<seq<Byte>>): seq<Byte> {
    if |cs| == 0 then [] else cs[0] + Flatten(cs[1..])
  }

  lemma {:induction false} FlattenLength(cs: seq<seq<Byte>>, w: nat)
    requires forall j :: 0 <= j < |cs| ==> |cs[j]| == w
    ensures |Flatten(cs)| == w * |cs|
  {
    if |cs| > 0 {
      FlattenLength(cs[1..], w);
      assert w * (|cs| - 1) == w * |cs| - w;
    }
  }

  /** Bytes `p` to `q` that hold the concatenation of `n` 8-byte cells hold the cells. */
  lemma {:induction false} Float64CellsOfFlatten(cs: seq<Cell>, n: nat, bytes: seq<Byte>, p: nat, q: nat)
    requires |cs| == n && forall j :: 0 <= j < n ==> |cs[j]| == 8
    requires q == p + 8 * n && q <= |bytes| && bytes[p..q] == Flatten(cs)
    ensures Float64Cells(bytes, p, n) == cs
    decreases n
  {
    if n > 0 {
      FlattenLength(cs[1..], 8);
      PartAt(bytes, p, cs[0], Flatten(cs[1..]));
      Float64CellsOfFlatten(cs[1..], n - 1, bytes, p + 8, q);
    }
  }

  /** The `>i2` encoding of each value of an int16 array. */
  function Int16Cells(vs: seq<int>): (cs: seq<seq<Byte>>)
    requires forall j :: 0 <= j < |vs| ==> IsInt16(vs[j])
    ensures |cs| == |vs|
    ensures forall j :: 0 <= j < |vs| ==> |cs[j]| == 2 && Signed(cs[j]) == vs[j]
  {
    Pow256Values();
    seq(|vs|, j requires 0 <= j < |vs| => assert IsInt16(vs[j]); EncodeSigned(vs[j], 2))
  }

  /** Bytes `p` to `q` that hold the encoding of an int16 array of `n` values hold the array. */
  lemma {:induction false} Int16ValuesOfFlatten(vs: seq<int>, n: nat, bytes: seq<Byte>, p: nat, q: nat)
    requires |vs| == n && forall j :: 0 <= j < n ==> IsInt16(vs[j])
    requires q == p + 2 * n && q <= |bytes| && bytes[p..q] == Flatten(Int16Cells(vs))
    ensures Int16Values(bytes, p, n) == vs
    decreases n
  {
    if n > 0 {
      var cs := Int16Cells(vs);
      assert cs[1..] == Int16Cells(vs[1..]);
      FlattenLength(cs[1..], 2);
      PartAt(bytes, p, cs[0], Flatten(cs[1..]));
      Int16ValuesOfFlatten(vs[1..], n - 1, bytes, p + 2, q);
    }
  }

  /** A record the format can hold: a count whose stored value (count - 1)
      fits the 6-byte field, arrays of that length, 8-byte float cells, int16
      significance codes, and a date text whose length fits the 2-byte field. */
  predicate WellFormed(f: RawFile) {
    var a := f.arrays;
    && f.count <= 0x8000_0000_0000
    && |a.frequency| == f.count && |a.impedance| == f.count && |a.phase| == f.count
    && |a.time| == f.count && |a.significance| == f.count
    && (forall j :: 0 <= j < f.count ==> |a.frequency[j]| == 8)
    && (forall j :: 0 <= j < f.count ==> |a.impedance[j]| == 8)
    && (forall j :: 0 <= j < f.count ==> |a.phase[j]| == 8)
    && (forall j :: 0 <= j < f.count ==> |a.time[j]| == 8)
    && (forall j :: 0 <= j < f.count ==> IsInt16(a.significance[j]))
    && |f.dateText| < 0x8000
  }

  /** The five arrays back to back, as the instrument writes them. */
  function EncodeArrays(a: Arrays): seq<Byte>
    requires forall j :: 0 <= j < |a.significance| ==> IsInt16(a.significance[j])
  {
    Flatten(a.frequency) + Flatten(a.impedance) + Flatten(a.phase) + Flatten(a.time)
      + Flatten(Int16Cells(a.significance))
  }

  /** The file the instrument writes for a record, behind a 6-byte marker. */
  function Encode(marker: seq<Byte>, f: RawFile): seq<Byte>
    requires |marker| == SkipSize && WellFormed(f)
  {
    Pow256Values();
    marker + EncodeSigned(f.count - 1, CountSize) + EncodeArrays(f.arrays)
      + EncodeSigned(|f.dateText|, DateLengthSize) + f.dateText
  }

  /** A slice holding `a + b` holds `a` and then `b`. */
  lemma PartAt(bytes: seq<Byte>, p: nat, a: seq<Byte>, b: seq<Byte>)
    requires p + |a| + |b| <= |bytes| && bytes[p..p + |a| + |b|] == a + b
    ensures bytes[p..p + |a|] == a && bytes[p + |a|..p + |a| + |b|] == b
  {
    assert bytes[p..p + |a|] == bytes[p..p + |a| + |b|][..|a|];
    assert bytes[p + |a|..p + |a| + |b|] == bytes[p..p + |a| + |b|][|a|..];
  }

  /** A slice holding five parts of widths `8n, 8n, 8n, 8n, 2n` holds each
      part at its offset. */
  lemma FiveParts(bytes: seq<Byte>, h: nat, n: nat, a: seq<Byte>, b: seq<Byte>, c: seq<Byte>,
                  d: seq<Byte>, e: seq<Byte>)
    requires |a| == 8 * n && |b| == 8 * n && |c| == 8 * n && |d| == 8 * n && |e| == 2 * n
    requires h + 34 * n <= |bytes| && bytes[h..h + 34 * n] == a + b + c + d + e
    ensures bytes[h..h + 8 * n] == a
    ensures bytes[h + 8 * n..h + 16 * n] == b
    ensures bytes[h + 16 * n..h + 24 * n] == c
    ensures bytes[h + 24 * n..h + 32 * n] == d
    ensures bytes[h + 32 * n..h + 34 * n] == e
  {
    PartAt(bytes, h, a + b + c + d, e);
    PartAt(bytes, h, a + b + c, d);
    PartAt(bytes, h, a + b, c);
    PartAt(bytes, h, a, b);
  }

  /** Arrays read field by field from byte `h` on are the arrays stored there. */
  lemma ArraysAtOfFields(bytes: seq<Byte>, h: nat, n: nat, a: Arrays)
    requires h + 34 * n <= |bytes|
    requires Float64Cells(bytes, h, n) == a.frequency
    requires Float64Cells(bytes, h + 8 * n, n) == a.impedance
    requires Float64Cells(bytes, h + 16 * n, n) == a.phase
    requires Float64Cells(bytes, h + 24 * n, n) == a.time
    requires Int16Values(bytes, h + 32 * n, n) == a.significance
    ensures ArraysAt(bytes, h, n) == a
  {
  }

  /** Each encoded array of a well-formed record has its stored width. */
  lemma EncodeArraysWidths(f: RawFile)
    requires WellFormed(f)
    ensures var a, n := f.arrays, f.count;
      && |Flatten(a.frequency)| == 8 * n && |Flatten(a.impedance)| == 8 * n
      && |Flatten(a.phase)| == 8 * n && |Flatten(a.time)| == 8 * n
      && |Flatten(Int16Cells(a.significance))| == 2 * n
  {
    var a := f.arrays;
    FlattenLength(a.frequency, 8);
    FlattenLength(a.impedance, 8);
    FlattenLength(a.phase, 8);
    FlattenLength(a.time, 8);
    FlattenLength(Int16Cells(a.significance), 2);
  }

  /** Encoded arrays laid out from byte `h` on hold each part at its offset. */
  lemma EncodedParts(bytes: seq<Byte>, h: nat, f: RawFile)
    requires forall j :: 0 <= j < |f.arrays.significance| ==> IsInt16(f.arrays.significance[j])
    requires h + 34 * f.count <= |bytes| && bytes[h..h + 34 * f.count] == EncodeArrays(f.arrays)
    requires var a, n := f.arrays, f.count;
      && |Flatten(a.frequency)| == 8 * n && |Flatten(a.impedance)| == 8 * n
      && |Flatten(a.phase)| == 8 * n && |Flatten(a.time)| == 8 * n
      && |Flatten(Int16Cells(a.significance))| == 2 * n
    ensures var a, n := f.arrays, f.count;
      && bytes[h..h + 8 * n] == Flatten(a.frequency)
      && bytes[h + 8 * n..h + 16 * n] == Flatten(a.impedance)
      && bytes[h + 16 * n..h + 24 * n] == Flatten(a.phase)
      && bytes[h + 24 * n..h + 32 * n] == Flatten(a.time)
      && bytes[h + 32 * n..h + 34 * n] == Flatten(Int16Cells(a.significance))
  {
    var a := f.arrays;
    FiveParts(bytes, h, f.count, Flatten(a.frequency), Flatten(a.impedance), Flatten(a.phase),
      Flatten(a.time), Flatten(Int16Cells(a.significance)));
  }

  lemma FrequencyReadBack(bytes: seq<Byte>, h: nat, f: RawFile)
    requires WellFormed(f)
    requires h + 34 * f.count <= |bytes| && bytes[h..h + 34 * f.count] == EncodeArrays(f.arrays)
    ensures Float64Cells(bytes, h, f.count) == f.arrays.frequency
  {
    EncodeArraysWidths(f);
    EncodedParts(bytes, h, f);
    Float64CellsOfFlatten(f.arrays.frequency, f.count, bytes, h, h + 8 * f.count);
  }

  lemma ImpedanceReadBack(bytes: seq<Byte>, h: nat, f: RawFile)
    requires WellFormed(f)
    requires h + 34 * f.count <= |bytes| && bytes[h..h + 34 * f.count] == EncodeArrays(f.arrays)
    ensures Float64Cells(bytes, h + 8 * f.count, f.count) == f.arrays.impedance
  {
    EncodeArraysWidths(f);
    EncodedParts(bytes, h, f);
    Float64CellsOfFlatten(f.arrays.impedance, f.count, bytes, h + 8 * f.count, h + 16 * f.count);
  }

  lemma PhaseReadBack(bytes: seq<Byte>, h: nat, f: RawFile)
    requires WellFormed(f)
    requires h + 34 * f.count <= |bytes| && bytes[h..h + 34 * f.count] == EncodeArrays(f.arrays)
    ensures Float64Cells(bytes, h + 16 * f.count, f.count) == f.arrays.phase
  {
    EncodeArraysWidths(f);
    EncodedParts(bytes, h, f);
    Float64CellsOfFlatten(f.arrays.phase, f.count, bytes, h + 16 * f.count, h + 24 * f.count);
  }

  lemma TimeReadBack(bytes: seq<Byte>, h: nat, f: RawFile)
    requires WellFormed(f)
    requires h + 34 * f.count <= |bytes| && bytes[h..h + 34 * f.count] == EncodeArrays(f.arrays)
    ensures Float64Cells(bytes, h + 24 * f.count, f.count) == f.arrays.time
  {
    EncodeArraysWidths(f);
    EncodedParts(bytes, h, f);
    Float64CellsOfFlatten(f.arrays.time, f.count, bytes, h + 24 * f.count, h + 32 * f.count);
  }

  lemma SignificanceReadBack(bytes: seq<Byte>, h: nat, f: RawFile)
    requires WellFormed(f)
    requires h + 34 * f.count <= |bytes| && bytes[h..h + 34 * f.count] == EncodeArrays(f.arrays)
    ensures Int16Values(bytes, h + 32 * f.count, f.count) == f.arrays.significance
  {
    EncodeArraysWidths(f);
    EncodedParts(bytes, h, f);
    Int16ValuesOfFlatten(f.arrays.significance, f.count, bytes, h + 32 * f.count, h + 34 * f.count);
  }

  /** The encoded arrays are read back as they were. */
  lemma ArraysAtEncodeArrays(bytes: seq<Byte>, h: nat, f: RawFile)
    requires WellFormed(f)
    requires h + 34 * f.count <= |bytes| && bytes[h..h + 34 * f.count] == EncodeArrays(f.arrays)
    ensures ArraysAt(bytes, h, f.count) == f.arrays
  {
    FrequencyReadBack(bytes, h, f);
    ImpedanceReadBack(bytes, h, f);
    PhaseReadBack(bytes, h, f);
    TimeReadBack(bytes, h, f);
    SignificanceReadBack(bytes, h, f);
    ArraysAtOfFields(bytes, h, f.count, f.arrays);
  }

  /** The fields of a concatenated record, at their offsets. */
  lemma RecordParts(bytes: seq<Byte>, marker: seq<Byte>, countBytes: seq<Byte>, body: seq<Byte>,
                    lengthBytes: seq<Byte>, text: seq<Byte>)
    requires |marker| == 6 && |countBytes| == 6 && |lengthBytes| == 2
    requires bytes == marker + countBytes + body + lengthBytes + text
    ensures |bytes| == 14 + |body| + |text|
    ensures bytes[6..12] == countBytes
    ensures bytes[12..12 + |body|] == body
    ensures bytes[12 + |body|..14 + |body|] == lengthBytes
    ensures bytes[14 + |body|..] == text
  {
    var head := marker + countBytes;
    var tail := lengthBytes + text;
    assert bytes == head + body + tail;
    PartAt(bytes, 0, head + body, tail);
    PartAt(bytes, 0, head, body);
    PartAt(bytes, 0, marker, countBytes);
    PartAt(bytes, 12 + |body|, lengthBytes, text);
  }

  /** The encoded arrays take 34 bytes per element. */
  lemma EncodeArraysLength(f: RawFile)
    requires WellFormed(f)
    ensures |EncodeArrays(f.arrays)| == 34 * f.count
  {
    FlattenLength(f.arrays.frequency, 8);
    FlattenLength(f.arrays.impedance, 8);
    FlattenLength(f.arrays.phase, 8);
    FlattenLength(f.arrays.time, 8);
    FlattenLength(Int16Cells(f.arrays.significance), 2);
  }

  /** The five parts of an encoded record, at their offsets. */
  lemma EncodeParts(marker: seq<Byte>, f: RawFile)
    requires |marker| == SkipSize && WellFormed(f)
    ensures var bytes, n := Encode(marker, f), f.count;
      && |bytes| == 14 + 34 * n + |f.dateText|
      && bytes[6..12] == EncodeSigned(n - 1, CountSize)
      && bytes[12..12 + 34 * n] == EncodeArrays(f.arrays)
      && bytes[12 + 34 * n..14 + 34 * n] == EncodeSigned(|f.dateText|, DateLengthSize)
      && bytes[14 + 34 * n..] == f.dateText
  {
    Pow256Values();
    EncodeArraysLength(f);
    RecordParts(Encode(marker, f), marker, EncodeSigned(f.count - 1, CountSize), EncodeArrays(f.arrays),
      EncodeSigned(|f.dateText|, DateLengthSize), f.dateText);
  }

  /** A date length field that fits the file gives the text of that length. */
  lemma DateTextOfLength(bytes: seq<Byte>, p: nat, text: seq<Byte>)
    requires p + 2 + |text| == |bytes|
    requires Signed(bytes[p..p + 2]) == |text| && bytes[p + 2..] == text
    ensures DateTextAt(bytes, p) == Some(text)
  {
    DateTextFormula(bytes, p);
    assert bytes[p + 2..p + 2 + |text|] == bytes[p + 2..];
  }

  /** Where the fields of an encoded record sit. */
  lemma EncodeFields(marker: seq<Byte>, f: RawFile)
    requires |marker| == SkipSize && WellFormed(f)
    ensures var bytes := Encode(marker, f);
      && 12 + 34 * f.count <= |bytes| && HeaderEnd(bytes) == 12 && CountField(bytes) == f.count - 1
    ensures ArraysAt(Encode(marker, f), 12, f.count) == f.arrays
    ensures DateTextAfter(Encode(marker, f), 12, f.count) == Some(f.dateText)
  {
    Pow256Values();
    var bytes := Encode(marker, f);
    EncodeParts(marker, f);
    assert HeaderEnd(bytes) == 12;
    ArraysAtEncodeArrays(bytes, 12, f);
    DateTextOfLength(bytes, 12 + 34 * f.count, f.dateText);
  }

  /** Bytes whose fields hold a record parse to it. */
  lemma ParseOfFields(bytes: seq<Byte>, f: RawFile)
    requires 12 + 34 * f.count <= |bytes| && HeaderEnd(bytes) == 12 && CountField(bytes) == f.count - 1
    requires ArraysAt(bytes, 12, f.count) == f.arrays
    requires DateTextAfter(bytes, 12, f.count) == Some(f.dateText)
    ensures Parse(bytes) == Some(f)
  {
    var n := f.count;
    assert HeaderEnd(bytes) + 34 * (CountField(bytes) + 1) == 12 + 34 * n;
    assert DateLength(bytes, 12 + 34 * n) >= -1;
    assert Parse(bytes).Some?;
    var r := Parse(bytes).value;
    assert r.count == n && r.arrays == f.arrays;
    assert DateTextAfter(bytes, 12, n) == Some(r.dateText);
  }

  /** Parsing the encoding of a well-formed record gives the record back,
      whatever the marker. */
  lemma ParseEncode(marker: seq<Byte>, f: RawFile)
    requires |marker| == SkipSize && WellFormed(f)
    ensures Parse(Encode(marker, f)) == Some(f)
  {
    EncodeFields(marker, f);
    ParseOfFields(Encode(marker, f), f);
  }
}
