/** `IsmImport`: the measurement a complete ISM file decodes to, and the
    getters that return the part of the sweep from the reversal point to
    the final frequency, last point first. */
module Ism {
  import opened Wrappers
  import opened BigEndian
  import Float64
  import opened Layout
  import opened Calendar
  import opened TimeStamps
  import opened Sweep

  type Float = Float64.Float

  /** The attributes the constructor sets. */
  datatype Measurement = Measurement(
    measurementDate: Date,
    frequency: seq<Float>,
    impedance: seq<Float>,
    phase: seq<Float>,
    measurementTimeStamp: seq<TimeStamp>,
    significance: seq<int>,
    firstUp: bool,
    reverseIndex: int)
  {
    /** What a successful constructor leaves behind: at least two points,
        five arrays of one length, and the reversal of the frequencies. */
    predicate Valid() {
      && |frequency| >= 2
      && |impedance| == |frequency| && |phase| == |frequency|
      && |measurementTimeStamp| == |frequency| && |significance| == |frequency|
      && Reversal(firstUp, reverseIndex) == ReversalOf(frequency)
    }
  }

  /** Every cell of `Float64Cells` is 8 bytes wide. */
  lemma CellWidths(bytes: seq<Byte>, p: nat, n: nat)
    requires p + 8 * n <= |bytes|
    ensures forall k :: 0 <= k < n ==> |Float64Cells(bytes, p, n)[k]| == 8
  {
    forall k | 0 <= k < n
      ensures |Float64Cells(bytes, p, n)[k]| == 8
    {
      Float64CellAt(bytes, p, n, k);
    }
  }

  predicate Cells8(cells: seq<Cell>) {
    forall k :: 0 <= k < |cells| ==> |cells[k]| == 8
  }

  /** The `'>f8'` values of an array of cells, cell by cell. A plain element
      map: what it means for a file is stated by `MeasureFields` and
      `DecodedCells`. */
  function Values(cells: seq<Cell>): (xs: seq<Float>)
    requires Cells8(cells)
    ensures |xs| == |cells| && forall k :: 0 <= k < |cells| ==> xs[k] == Float64.Decode(cells[k])
  {
    seq(|cells|, k requires 0 <= k < |cells| => Float64.Decode(cells[k]))
  }

  /** `[self._ismTimeStampToDateTime(t) for t in tmpTime]`: fails as soon
      as one raw time fails. */
  function TimeStampsOf(raw: seq<Float>): (r: Option<seq<TimeStamp>>)
    ensures r.Some? <==> forall k :: 0 <= k < |raw| ==> FromRaw(raw[k]).Some?
    ensures r.Some? ==> (|r.value| == |raw|
      && forall k :: 0 <= k < |raw| ==> r.value[k] == FromRaw(raw[k]).value)
  {
    if |raw| == 0 then Some([])
    else
      var first :- FromRaw(raw[0]);
      var rest :- TimeStampsOf(raw[1..]);
      Some([first] + rest)
  }

  /** What the reads leave behind: five arrays of `count` elements, the
      float cells 8 bytes wide. */
  predicate WellSized(raw: RawFile) {
    var a := raw.arrays;
    && |a.frequency| == raw.count && |a.impedance| == raw.count && |a.phase| == raw.count
    && |a.time| == raw.count && |a.significance| == raw.count
    && Cells8(a.frequency) && Cells8(a.impedance) && Cells8(a.phase) && Cells8(a.time)
  }

  /** Every raw time of the file converts to a timestamp. */
  predicate TimesConvert(raw: RawFile)
    requires WellSized(raw)
  {
    forall k :: 0 <= k < raw.count ==> FromRaw(Float64.Decode(raw.arrays.time[k])).Some?
  }

  /** The measurement a parsed file holds: its date, its timestamps, then
      `frequency[0] < frequency[1]`, which needs at least two points, and
      the reversal scan. */
  function Measure(raw: RawFile): (r: Option<Measurement>)
    requires WellSized(raw)
    ensures r.Some? <==> raw.count >= 2 && DecodeDate(raw.dateText).Some? && TimesConvert(raw)
    ensures r.Some? ==> r.value.Valid()
  {
    var date :- DecodeDate(raw.dateText);
    var times :- TimeStampsOf(Values(raw.arrays.time));
    if raw.count < 2 then None else Some(Assemble(raw, date, times))
  }

  /** The fields of a measurement of at least two points: the decoded
      arrays, and the sweep direction and reversal of its frequencies. */
  function Assemble(raw: RawFile, date: Date, times: seq<TimeStamp>): (m: Measurement)
    requires WellSized(raw) && raw.count >= 2 && |times| == raw.count
    ensures m.Valid()
  {
    var frequency := Values(raw.arrays.frequency);
    var reversal := ReversalOf(frequency);
    Measurement(date, frequency, Values(raw.arrays.impedance), Values(raw.arrays.phase),
      times, raw.arrays.significance, reversal.firstUp, reversal.reverseIndex)
  }

  /** `IsmImport(filePath)` on a file holding `bytes`: the reads, then the
      measurement they hold. A successful decoding is a valid measurement. */
  function Decode(bytes: seq<Byte>): (r: Option<Measurement>)
    ensures r.Some? ==> r.value.Valid()
  {
    match Parse(bytes)
    case None => None
    case Some(raw) => ParsedWellSized(bytes); Measure(raw)
  }

  /** `Decode` is `Measure` after `Parse`. */
  lemma DecodeIsMeasure(bytes: seq<Byte>)
    ensures Decode(bytes).Some? ==> Parse(bytes).Some?
    ensures Parse(bytes).Some? ==>
      WellSized(Parse(bytes).value) && Decode(bytes) == Measure(Parse(bytes).value)
  {
    if Parse(bytes).Some? {
      ParsedWellSized(bytes);
    }
  }

  /** The arrays `Parse` returns have `count` cells of 8 bytes each. */
  lemma ParsedWellSized(bytes: seq<Byte>)
    requires Parse(bytes).Some?
    ensures WellSized(Parse(bytes).value)
  {
    ArraysWidths(bytes, HeaderEnd(bytes), Parse(bytes).value.count);
  }

  lemma ArraysWidths(bytes: seq<Byte>, h: nat, n: nat)
    requires h + 34 * n <= |bytes|
    ensures var a := ArraysAt(bytes, h, n);
      && Cells8(a.frequency) && Cells8(a.impedance) && Cells8(a.phase) && Cells8(a.time)
  {
    CellWidths(bytes, h, n);
    CellWidths(bytes, h + 8 * n, n);
    CellWidths(bytes, h + 16 * n, n);
    CellWidths(bytes, h + 24 * n, n);
  }

  /** The fields of a measured file: the parsed date, the decoded cells,
      the converted times and the stored significances. */
  lemma MeasureFields(raw: RawFile)
    requires WellSized(raw)
    ensures Measure(raw).Some? ==> var m := Measure(raw).value;
      && m.measurementDate == DecodeDate(raw.dateText).value
      && m.frequency == Values(raw.arrays.frequency)
      && m.impedance == Values(raw.arrays.impedance)
      && m.phase == Values(raw.arrays.phase)
      && m.measurementTimeStamp == TimeStampsOf(Values(raw.arrays.time)).value
      && m.significance == raw.arrays.significance
  {
  }

  /** The constructor succeeds exactly when the reads succeed, there are at
      least two points, the date text names a date, and every raw time
      converts. */
  lemma DecodeSucceeds(bytes: seq<Byte>)
    ensures Decode(bytes).Some? <==>
      && Parse(bytes).Some?
      && Parse(bytes).value.count >= 2
      && DecodeDate(Parse(bytes).value.dateText).Some?
      && (ParsedWellSized(bytes); TimesConvert(Parse(bytes).value))
  {
    DecodeIsMeasure(bytes);
  }

  /** A text that names a date has at least five bytes: two for the day,
      two for the month, one for the year. */
  lemma DatedTextIsLong(text: seq<Byte>)
    requires DecodeDate(text).Some?
    ensures |text| >= 5
  {
  }

  /** A file that decodes is at least 12 bytes long and holds the whole
      date length field. */
  lemma DecodedFileLength(bytes: seq<Byte>)
    ensures Decode(bytes).Some? ==>
      |bytes| >= 12 && 14 + 34 * Parse(bytes).value.count <= |bytes|
  {
    DecodeSucceeds(bytes);
    if Decode(bytes).Some? {
      var raw := Parse(bytes).value;
      if |bytes| < 12 {
        ShortFileHasNoElements(bytes);
      }
      ParseDateFrom12(bytes);
      DatedTextIsLong(raw.dateText);
    }
  }

  /** The parsed file behind a decoded measurement. */
  lemma DecodedRaw(bytes: seq<Byte>) returns (raw: RawFile)
    requires Decode(bytes).Some?
    ensures Parse(bytes) == Some(raw) && WellSized(raw) && Measure(raw) == Decode(bytes)
    ensures 12 <= |bytes| && 14 + 34 * raw.count <= |bytes|
  {
    DecodeIsMeasure(bytes);
    raw := Parse(bytes).value;
    DecodedFileLength(bytes);
  }

  /** The element count of a decoded file is the signed 6-byte field at
      bytes 6 to 12, plus one. */
  lemma DecodedCount(bytes: seq<Byte>)
    ensures Decode(bytes).Some? ==>
      |bytes| >= 12 && |Decode(bytes).value.frequency| == Signed(bytes[6..12]) + 1
  {
    if Decode(bytes).Some? {
      var raw := DecodedRaw(bytes);
      MeasureFields(raw);
      ParseFrom12(bytes);
    }
  }

  /** Point `k` of the decoded float arrays of `n` points stored from byte
      `h` on (byte 12 by `ParseFrom12`, and `MeasureFields` makes these the
      measurement's arrays): the binary64 value of the 8-byte cell at the
      offset `ElementOffsets` gives. */
  lemma DecodedCells(bytes: seq<Byte>, h: nat, n: nat, k: nat)
    requires h + 34 * n <= |bytes| && k < n
    ensures var a := (ArraysWidths(bytes, h, n); ArraysAt(bytes, h, n));
      && Values(a.frequency)[k] == Float64.Decode(bytes[h + 8 * k..h + 8 * k + 8])
      && Values(a.impedance)[k] == Float64.Decode(bytes[h + 8 * n + 8 * k..h + 8 * n + 8 * k + 8])
      && Values(a.phase)[k] == Float64.Decode(bytes[h + 16 * n + 8 * k..h + 16 * n + 8 * k + 8])
      && Values(a.time)[k] == Float64.Decode(bytes[h + 24 * n + 8 * k..h + 24 * n + 8 * k + 8])
  {
    ArraysWidths(bytes, h, n);
    ElementOffsets(bytes, h, n, k);
  }

  /** The two-element file whose date length field is `FF FE` fails in
      `read(-2)`, although the text behind the field is a valid date. */
  lemma DateLengthMinusTwoFails()
    ensures Decode(SampleFile([0xFF, 0xFE])) == None
  {
    DateLengthMinusTwoRejected();
  }

  /** Python's start index of `x[start:]` on a sequence of length `len`: a
      negative start counts from the end, and both ends clamp. */
  function SliceStart(start: int, len: nat): (s: nat)
    ensures s <= len
    ensures 0 <= start <= len ==> s == start
    ensures -(len as int) <= start < 0 ==> s == len + start
    ensures start > len ==> s == len
    ensures start < -(len as int) ==> s == 0
  {
    if start < 0 then (if start + len < 0 then 0 else start + len)
    else if start > len then len
    else start
  }

  /** `np.flip` of a one-dimensional array. A plain element map: its use in
      the getters is stated by `Trimmed` and `ReverseReverse`. */
  function Reverse<T>(s: seq<T>): (r: seq<T>)
    ensures |r| == |s|
    ensures forall k :: 0 <= k < |s| ==> r[k] == s[|s| - 1 - k]
  {
    seq(|s|, k requires 0 <= k < |s| => s[|s| - 1 - k])
  }

  /** Flipping twice gives the array back. */
  lemma ReverseReverse<T>(s: seq<T>)
    ensures Reverse(Reverse(s)) == s
  {
  }

  /** `np.flip(x[reverseIndex:])`: element `k` is `x[n - 1 - k]`, so the
      view runs from the final point back to the start of the slice. */
  function Trimmed<T>(x: seq<T>, reverseIndex: int): (view: seq<T>)
    ensures |view| == |x| - SliceStart(reverseIndex, |x|)
    ensures forall k :: 0 <= k < |view| ==> view[k] == x[|x| - 1 - k]
  {
    Reverse(x[SliceStart(reverseIndex, |x|)..])
  }

  /** Flipping a view back gives the slice `x[reverseIndex:]` it was made from. */
  lemma TrimmedFlippedBack<T>(x: seq<T>, reverseIndex: int)
    ensures Reverse(Trimmed(x, reverseIndex)) == x[SliceStart(reverseIndex, |x|)..]
  {
    ReverseReverse(x[SliceStart(reverseIndex, |x|)..]);
  }

  /** `getFrequencyArray`. */
  function FrequencyArray(m: Measurement): (view: seq<Float>)
    ensures |view| == |m.frequency| - SliceStart(m.reverseIndex, |m.frequency|)
    ensures forall k :: 0 <= k < |view| ==> view[k] == m.frequency[|m.frequency| - 1 - k]
  {
    Trimmed(m.frequency, m.reverseIndex)
  }

  /** `getImpedanceArray`. */
  function ImpedanceArray(m: Measurement): (view: seq<Float>)
    ensures |view| == |m.impedance| - SliceStart(m.reverseIndex, |m.impedance|)
    ensures forall k :: 0 <= k < |view| ==> view[k] == m.impedance[|m.impedance| - 1 - k]
  {
    Trimmed(m.impedance, m.reverseIndex)
  }

  /** `getPhaseArray`. */
  function PhaseArray(m: Measurement): (view: seq<Float>)
    ensures |view| == |m.phase| - SliceStart(m.reverseIndex, |m.phase|)
    ensures forall k :: 0 <= k < |view| ==> view[k] == m.phase[|m.phase| - 1 - k]
  {
    Trimmed(m.phase, m.reverseIndex)
  }

  /** `getSignificanceArray`. */
  function SignificanceArray(m: Measurement): (view: seq<int>)
    ensures |view| == |m.significance| - SliceStart(m.reverseIndex, |m.significance|)
    ensures forall k :: 0 <= k < |view| ==> view[k] == m.significance[|m.significance| - 1 - k]
  {
    Trimmed(m.significance, m.reverseIndex)
  }

  /** `getMeasurementDateTimeArray`. */
  function MeasurementDateTimeArray(m: Measurement): (view: seq<TimeStamp>)
    ensures |view| == |m.measurementTimeStamp|
                      - SliceStart(m.reverseIndex, |m.measurementTimeStamp|)
    ensures forall k :: 0 <= k < |view| ==>
      view[k] == m.measurementTimeStamp[|m.measurementTimeStamp| - 1 - k]
  {
    Trimmed(m.measurementTimeStamp, m.reverseIndex)
  }

  /** `getMeasurementEndDateTime`: `max(self.measurementTimeStamp)`, over
      the whole untrimmed list. */
  function MeasurementEndDateTime(m: Measurement): (t: TimeStamp)
    requires m.Valid()
    ensures t in m.measurementTimeStamp
    ensures forall k :: 0 <= k < |m.measurementTimeStamp| ==>
      m.measurementTimeStamp[k].micros <= t.micros
  {
    Latest(m.measurementTimeStamp)
  }

  /** One point of `getComplexImpedanceArray` in polar form: the complex
      number `cos(angle) * radius + 1j * sin(angle) * radius`, kept as its
      radius (the impedance) and its angle (the phase). */
  datatype Polar = Polar(radius: Float, angle: Float)

  /** `getComplexImpedanceArray`: one point per trimmed frequency, from the
      trimmed impedances and phases. */
  function ComplexImpedanceArray(m: Measurement): (z: seq<Polar>)
    requires m.Valid()
    ensures |z| == |FrequencyArray(m)|
    ensures var n := |m.frequency|;
      forall k :: 0 <= k < |z| ==> z[k] == Polar(m.impedance[n - 1 - k], m.phase[n - 1 - k])
  {
    var freq, imp, phase := FrequencyArray(m), ImpedanceArray(m), PhaseArray(m);
    seq(|freq|, i requires 0 <= i < |freq| => Polar(imp[i], phase[i]))
  }

  /** The length every trimmed view of a measurement has: from the reversal
      point to the end, or the final point alone when the sweep never turns. */
  function ViewLength(m: Measurement): nat
    requires m.Valid()
  {
    if m.reverseIndex == -1 then 1 else |m.frequency| - m.reverseIndex
  }

  /** All views, the complex one included, have the same length: at least
      two points and fewer than the whole sweep when it turns, exactly one
      when it does not; point `k` of each is point `n - 1 - k` of its array. */
  lemma ViewsAligned(m: Measurement)
    requires m.Valid()
    ensures var n, len := |m.frequency|, ViewLength(m);
      && |FrequencyArray(m)| == len && |ImpedanceArray(m)| == len && |PhaseArray(m)| == len
      && |SignificanceArray(m)| == len && |MeasurementDateTimeArray(m)| == len
      && |ComplexImpedanceArray(m)| == len
      && (m.reverseIndex != -1 ==> 2 <= len <= n - 1)
      && forall k :: 0 <= k < len ==>
           && FrequencyArray(m)[k] == m.frequency[n - 1 - k]
           && ImpedanceArray(m)[k] == m.impedance[n - 1 - k]
           && PhaseArray(m)[k] == m.phase[n - 1 - k]
           && SignificanceArray(m)[k] == m.significance[n - 1 - k]
           && MeasurementDateTimeArray(m)[k] == m.measurementTimeStamp[n - 1 - k]
           && ComplexImpedanceArray(m)[k] == Polar(m.impedance[n - 1 - k], m.phase[n - 1 - k])
  {
  }

  /** The frequency view starts at the final frequency and ends at the
      reversal frequency `frequency[reverseIndex]`. */
  lemma ViewEndsAtReversal(m: Measurement)
    requires m.Valid() && m.reverseIndex != -1
    ensures var view := FrequencyArray(m);
      && view[0] == m.frequency[|m.frequency| - 1]
      && view[|view| - 1] == m.frequency[m.reverseIndex]
  {
    ViewsAligned(m);
  }

  /** The end time is one of the timestamps and no timestamp of the view
      is later. */
  lemma EndAfterEveryView(m: Measurement)
    requires m.Valid()
    ensures MeasurementEndDateTime(m) in m.measurementTimeStamp
    ensures forall k :: 0 <= k < |MeasurementDateTimeArray(m)| ==>
      MeasurementDateTimeArray(m)[k].micros <= MeasurementEndDateTime(m).micros
  {
    ViewsAligned(m);
  }
}
