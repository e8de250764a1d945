# ISM impedance-sweep file import

A Dafny model of `IsmImport` (`thales_file_import/ism_import.py`). It decodes
the binary "ISM" file an impedance spectroscopy instrument writes and returns
the part of the frequency sweep from its turning point to its last point.

What the model contains:

- **Byte layout.** A 6-byte marker is skipped. A 6-byte big-endian
  two's-complement field holds the element count minus one. Next come four
  `'>f8'` arrays (frequency, impedance, phase, raw time) and one `'>i2'` array
  (significance), all of that length. Last comes a 2-byte signed length and
  the date text. The file is a byte sequence, read the way the
  `BufferedReader` of `open(path, 'rb')` reads it: `read(size)` is short at
  the end of the file, `read(-1)` reads to the end, and any size below -1
  raises `ValueError`. An array read fails when its buffer is short, as
  `np.ndarray(shape=..., buffer=...)` does; a negative element count
  already fails in `read(8 * n)`, whose size is then below -1.
- **Float cells.** Each `'>f8'` cell is decoded as an IEEE 754 binary64
  value (section 3.4 of IEEE 754-2008): a NaN, a signed infinity, or a finite
  real. Python's `<` on these values is false whenever a NaN is involved.
- **Measurement date.** The first six date bytes are decoded as ASCII, split
  into `DDMMYY`, and each pair is read by Python's `int()`. That includes its
  leniency: surrounding whitespace, a sign, and underscores between digits.
  The two-digit year pivots at 70 (1970..2069), and `datetime(year, month,
  day)` accepts only real Gregorian dates.
- **Reversal scan.** `firstUp` is `frequency[0] < frequency[1]`. The loop
  stops at the first step against that direction, and `reverseIndex` is the
  stop index minus one, or -1 when the loop never stops. The loop is modelled
  as a method, and a reference function is proved equal to it.
- **Getters.** Each trimmed getter returns `np.flip(x[reverseIndex:])`, with
  Python's negative-start slice semantics. The complex impedances are kept
  in polar form. The end time is the maximum over all timestamps.
- **Timestamps.** A timestamp is 1980-01-01 plus `|raw|` seconds, kept as
  whole microseconds after that epoch. `timedelta` rounds half to even and
  fails on NaN and on the infinities. The sum `timeZero + timeDifference`
  fails when it lands past `datetime.max`.

Every failure the program raises (`ValueError`, `IndexError`,
`OverflowError`, numpy errors) is one `None`. A successful decoding is a
`Measurement` whose `Valid()` ties the five arrays, the point count (at least
two) and the reversal together.

Behaviour of the code worth knowing:

- **Counts.** A stored count of -1 gives zero elements, which the reads
  accept and `frequency[0]` then rejects. A stored count of 0 gives one
  element, which `frequency[1]` rejects. So a file decodes only with at
  least two points (`Ism.DecodeSucceeds`).
- **Date length.** The signed date length `L` goes straight to
  `read(L)`. A length that runs past the end reads fewer bytes, `L = -1`
  reads the rest of the file, and any `L` below -1 raises, whatever text
  follows (`Layout.DateLengthMinusTwoRejected`).
- **Date text.** `int()` accepts a field such as `" 7"` or `"+7"`, and a
  five-character text gives a one-digit year. Only what `decode("ASCII")`,
  `int()` and `datetime` reject fails.
- **Timestamps.** A NaN or infinite raw time raises, and so does one that
  lands past year 9999. Times are rounded to microseconds.
- **Reversal index.** `reverseIndex` is -1 or between 1 and `n - 2`, never
  0 or `n - 1`: the first step cannot break the direction it sets
  (`Sweep.ReversalOf`).

Files:

- `wrappers.dfy`: `Option`.
- `big_endian.dfy`: `int.from_bytes(..., "big", signed=...)`.
- `file_stream.dfy`: `read`.
- `layout.dfy`: the read sequence and the offsets.
- `float64.dfy`: binary64 decoding and `<`.
- `text.dfy`: `decode("ASCII")`, slicing and `int()`.
- `calendar.dfy`: dates and the pivot.
- `sweep.dfy`: the reversal scan.
- `timestamp.dfy`: `_ismTimeStampToDateTime`.
- `ism.dfy`: the constructor and the getters.

## Model

| member | source | states |
|---|---|---|
| BigEndian.Signed | thales_file_import/ism_import.py:45 | `int.from_bytes(signed=True)`: the empty field is 0; a w-byte field lies in [-2^(8w-1), 2^(8w-1)) and is the unsigned value or that minus 2^(8w) |
| BigEndian.EncodeSigned | thales_file_import/ism_import.py:45 | every integer in the w-byte range has a w-byte encoding that decodes back to it |
| BigEndian.EncodeSignedOfSigned | thales_file_import/ism_import.py:45 | signed decoding is injective: encoding the decoded value gives the field back |
| BigEndian.SixByteRange | thales_file_import/ism_import.py:45 | the 6-byte count field holds exactly [-2^47, 2^47), and every value there round-trips |
| BigEndian.TwoByteRange | thales_file_import/ism_import.py:50-52 | a 2-byte field (a significance or the date length) lies in [-32768, 32767] |
| FileStream.Read | thales_file_import/ism_import.py:44-53 | `read(size)` fails exactly when size < -1; otherwise it returns the next `size` bytes, fewer at the end of the file (not an error), and everything left for size -1 |
| FileStream.ReadSplit | thales_file_import/ism_import.py:44-53 | reading `a` and then `b` bytes returns the bytes one read of `a + b` returns, and ends at the same position |
| FileStream.ReadExactly | thales_file_import/ism_import.py:46-50 | a read that fills a numpy buffer succeeds exactly when 0 <= size <= remaining, and then returns exactly those bytes |
| Layout.ReadFloat64s | thales_file_import/ism_import.py:46-49 | a `'>f8'` array of n cells at byte p exists exactly when n >= 0 and p + 8n fits, and consists of the n 8-byte cells from p on |
| Layout.ReadInt16s | thales_file_import/ism_import.py:50 | a `'>i2'` array of n values at byte p exists exactly when n >= 0 and p + 2n fits, and consists of the n signed 2-byte values from p on |
| Layout.ReadArrays | thales_file_import/ism_import.py:46-50 | the five consecutive array reads succeed exactly when n >= 0 and all 34n bytes fit, whatever the earlier reads did |
| Layout.Float64CellAt | thales_file_import/ism_import.py:46-49 | cell k of a `'>f8'` array at p is bytes p + 8k to p + 8k + 8 |
| Layout.Int16ValueAt | thales_file_import/ism_import.py:50 | value k of a `'>i2'` array at p is the signed value of bytes p + 2k to p + 2k + 2 |
| Layout.HeaderReads | thales_file_import/ism_import.py:44-45 | the two header reads end at byte 12 (or the end of a shorter file), and the second returns the count field `CountField` |
| Layout.DateTextAt | thales_file_import/ism_import.py:52-53 | the date text read exists exactly when the signed length field is at least -1 |
| Layout.ReadBody | thales_file_import/ism_import.py:46-53 | the reads after the count field succeed exactly when the arrays fit and the date length is at least -1; the date text is what `read(L)` returns after them |
| Layout.Parse | thales_file_import/ism_import.py:44-53 | the read sequence succeeds exactly when count = stored field + 1 is >= 0, the arrays fit and the date length is at least -1; it yields that count, the arrays at the header's end and the date text behind them |
| Layout.ParseFrom12 | thales_file_import/ism_import.py:44-50 | in a file of at least 12 bytes, the count is the signed value of bytes 6..12 plus one and the arrays start at byte 12 |
| Layout.ParseDateFrom12 | thales_file_import/ism_import.py:52-53 | in a file of at least 12 bytes, the date length field sits at byte 12 + 34n |
| Layout.ElementOffsets | thales_file_import/ism_import.py:46-50 | point k of n is at 12 + 8k, 12 + 8n + 8k, 12 + 16n + 8k and 12 + 24n + 8k (the four float arrays) and at 12 + 32n + 2k (significance), counting from the header's end |
| Layout.DateTextFormula | thales_file_import/ism_import.py:52-53 | with the length field L at p: no date text when L < -1; otherwise the bytes from p + 2 on, L of them cut at the end of the file, or all of them for L = -1 |
| Layout.DateLengthMinusTwoRejected | thales_file_import/ism_import.py:52-53 | a two-point file whose date length field is `FF FE` is rejected, although a valid date follows |
| Layout.DateLengthMinusOneReadsToEnd | thales_file_import/ism_import.py:52-53 | the same file with `FF FF` is accepted, and its date text is the rest of the file |
| Layout.ShortFileHasNoElements | thales_file_import/ism_import.py:44-45 | a file shorter than 12 bytes is accepted by the reads only with zero elements |
| Layout.ParseEncode | thales_file_import/ism_import.py:44-53 | writing any marker, a count whose stored value fits 6 bytes, arrays of that length with 8-byte cells and int16 significances, and a date text shorter than 2^15, then reading the file back gives exactly those fields |
| Float64.Decode | thales_file_import/ism_import.py:46-49 | a cell is NaN exactly when its exponent is 2047 and its fraction is not zero, an infinity exactly when the exponent is 2047 and the fraction is zero, signed by bit 63; a finite value has the sign of bit 63 |
| Float64.FieldsPartitionCell | thales_file_import/ism_import.py:46-49 | the sign, exponent and fraction fields partition the 64 bits: sign·2^63 + exponent·2^52 + fraction is the cell as an unsigned integer |
| Float64.FlipSignNegates | thales_file_import/ism_import.py:46-49 | flipping bit 63 negates the decoded value |
| Float64.MagnitudeOrder | thales_file_import/ism_import.py:46-49 | finite magnitudes grow strictly with (exponent, fraction) taken lexicographically |
| Float64.DecodeOrder | thales_file_import/ism_import.py:46-49 | for cells with a clear sign bit below the infinities, a larger bit pattern is a strictly larger value under `<` |
| Float64.DecodeOne | thales_file_import/ism_import.py:46-49 | `3FF0000000000000` is 1.0 |
| Float64.DecodeMinusTwo | thales_file_import/ism_import.py:46-49 | `C000000000000000` is -2.0 |
| Float64.DecodeSpecials | thales_file_import/ism_import.py:46-49 | `7FF0000000000000` is +inf and `7FF8000000000000` is NaN |
| Float64.LessIrreflexive | thales_file_import/ism_import.py:99-110 | Python's `<` is false when either side is NaN, and false between equal values |
| Float64.LessOrder | thales_file_import/ism_import.py:99-110 | `<` is asymmetric and transitive |
| Float64.LessTotal | thales_file_import/ism_import.py:99-110 | without NaN, `<` is a total order: exactly one of a < b, a == b, b < a holds, so "not b < a" means a <= b |
| Float64.AtMostTransitive | thales_file_import/ism_import.py:102-115 | <= is transitive |
| Text.Slice | thales_file_import/ism_import.py:54-58 | `s[lo:hi]` clamps both bounds to the length and is empty when hi <= lo; element i is s[lo + i] |
| Text.Ascii | thales_file_import/ism_import.py:54 | `decode("ASCII")` succeeds exactly when every byte is below 0x80, and maps each byte to the character with that code |
| Text.ParseIntOfTwoDigits | thales_file_import/ism_import.py:56-58 | `int()` reads the zero-padded two-digit form of every value below 100 back as that value |
| Text.ParseIntOfPadded | thales_file_import/ism_import.py:56-58 | `int()` of whitespace, an optional sign, digits and whitespace is the signed decimal value of the digits |
| Text.ParseTwoDigits | thales_file_import/ism_import.py:56-58 | `int()` of two digits is 10·first + second |
| Text.ShortIntRange | thales_file_import/ism_import.py:56-58 | any field of at most two characters that `int()` accepts is in [-9, 99] |
| Text.ParseSpacedDigit | thales_file_import/ism_import.py:56-58 | `int()` accepts whitespace before a digit |
| Text.ParseSignedDigit | thales_file_import/ism_import.py:56-58 | `int()` accepts a `+` or `-` before a digit and applies it |
| Text.ParseRejectsBlank | thales_file_import/ism_import.py:56-58 | `int()` rejects an empty or all-whitespace field |
| Calendar.DaysInMonth | thales_file_import/ism_import.py:70 | months have 28..31 days, and February has 29 exactly in leap years |
| Calendar.MakeDate | thales_file_import/ism_import.py:70 | `datetime(year, month, day)` exists exactly when the year is in 1..9999, the month in 1..12 and the day in 1..days of that month, and is that date |
| Calendar.LeapDay | thales_file_import/ism_import.py:70 | 29 February exists in 2000 and not in 2001 |
| Calendar.ExpandYear | thales_file_import/ism_import.py:65-68 | the pivot sends every field value in -9..99 into 1970..2069, and keeps the last two digits of 0..99 |
| Calendar.ExpandYearOfLastDigits | thales_file_import/ism_import.py:65-68 | every year of 1970..2069 is the expansion of its last two digits |
| Calendar.WindowStart | thales_file_import/ism_import.py:65-68 | `010170` is 1970-01-01 |
| Calendar.WindowEnd | thales_file_import/ism_import.py:65-68 | `010169` is 2069-01-01 |
| Calendar.DecodeDate | thales_file_import/ism_import.py:54-70 | a decoded measurement date is a valid Gregorian date in 1970..2069 |
| Calendar.DecodeDigitDate | thales_file_import/ism_import.py:54-70 | a text starting with six ASCII digits DDMMYY gives `datetime(pivot(YY), MM, DD)`, whatever follows |
| Calendar.DecodeEncodeDate | thales_file_import/ism_import.py:54-70 | every date of 1970..2069 written as DDMMYY, followed by anything, decodes to itself |
| Sweep.FirstBreak | thales_file_import/ism_import.py:104-113 | the first step at or after `from` that goes against the direction, or the end, with no break in between |
| Sweep.ReversalOf | thales_file_import/ism_import.py:98-115 | firstUp iff f[0] < f[1]; reverseIndex is -1 or in 1..n-2; the step after reverseIndex breaks the direction and no step up to it does |
| Sweep.ScanReversal | thales_file_import/ism_import.py:98-115 | the loop as written, starting at i = 0 and subtracting one at the end, computes exactly `ReversalOf` |
| Sweep.ReversalIsTurningPoint | thales_file_import/ism_import.py:102-115 | without NaN, the sweep is monotone in its first direction up to reverseIndex, or over all of it when reverseIndex is -1 |
| Sweep.ReversalExample | thales_file_import/ism_import.py:102-115 | the sweep 1, 2, 3, 2 starts upward and turns at index 2 |
| Sweep.NoReversalExample | thales_file_import/ism_import.py:102-115 | the sweep 3, 2, 1 never turns: reverseIndex is -1 |
| TimeStamps.RoundHalfEven | thales_file_import/ism_import.py:200 | `timedelta` rounds to the nearest microsecond, halves to the even one |
| TimeStamps.FromRawMeaning | thales_file_import/ism_import.py:199-203 | a timestamp exists only for a finite raw value and lies within half a microsecond of |raw| seconds after 1980-01-01; every finite value up to `datetime.max` converts |
| TimeStamps.SignIgnored | thales_file_import/ism_import.py:200 | raw and -raw give the same timestamp, or fail alike |
| TimeStamps.FromRawMonotone | thales_file_import/ism_import.py:199-203 | a raw value of larger magnitude never gives an earlier timestamp |
| TimeStamps.FromRaw | thales_file_import/ism_import.py:192-203 | a timestamp exists only for a finite raw value and is never past `datetime.max` |
| TimeStamps.TiesToEven | thales_file_import/ism_import.py:200 | 2^-7 s (7812.5 µs) rounds to 7812 µs and -3·2^-7 s (23437.5 µs) to 23438 µs |
| TimeStamps.Latest | thales_file_import/ism_import.py:189 | `max` of a non-empty list is one of its elements and no element is later |
| Ism.TimeStampsOf | thales_file_import/ism_import.py:84-86 | the timestamp list exists exactly when every raw time converts, and element k is the conversion of raw time k |
| Ism.Measure | thales_file_import/ism_import.py:54-115 | a parsed file measures exactly when it has at least two points, its date text names a date and every raw time converts; the result is valid |
| Ism.Decode | thales_file_import/ism_import.py:43-115 | a successful constructor leaves five arrays of one length n >= 2 and the reversal of its frequencies; `Ism.DecodeSucceeds` states when it succeeds |
| Ism.DecodeIsMeasure | thales_file_import/ism_import.py:43-115 | decoding is measuring the parsed file, and fails when the reads fail |
| Ism.MeasureFields | thales_file_import/ism_import.py:54-90 | the attributes are the decoded date, the decoded float cells, the converted times and the stored significances |
| Ism.DecodeSucceeds | thales_file_import/ism_import.py:43-100 | the constructor succeeds exactly when the reads succeed (count >= 0, the arrays fit, the date length is at least -1), n >= 2, the date decodes and every raw time converts |
| Ism.DecodedFileLength | thales_file_import/ism_import.py:52-58 | a file that decodes holds the whole header and date length field (12 + 34n + 2 bytes at least), since a date needs a text |
| Ism.DecodedCount | thales_file_import/ism_import.py:44-45 | the number of points of a decoded file is the signed value of bytes 6..12 plus one |
| Ism.DecodedCells | thales_file_import/ism_import.py:46-82 | point k of each decoded float array is the binary64 value of the 8-byte cell at the offset of point k in its array |
| Ism.DateLengthMinusTwoFails | thales_file_import/ism_import.py:43-53 | the constructor fails on the two-point file whose date length field is `FF FE` |
| Ism.SliceStart | thales_file_import/ism_import.py:125 | `x[start:]` starts at start when it is within bounds, at len + start for a negative start down to -len, at len for a start past len, and at 0 for a start below -len |
| Ism.Trimmed | thales_file_import/ism_import.py:125 | `np.flip(x[reverseIndex:])` has the slice's length, and its element k is x[n - 1 - k] |
| Ism.TrimmedFlippedBack | thales_file_import/ism_import.py:125 | flipping a view again gives back the slice `x[reverseIndex:]` |
| Ism.FrequencyArray | thales_file_import/ism_import.py:118-125 | the view's element k is frequency[n - 1 - k], over the slice from reverseIndex |
| Ism.ImpedanceArray | thales_file_import/ism_import.py:127-134 | the view's element k is impedance[n - 1 - k], over the slice from reverseIndex |
| Ism.PhaseArray | thales_file_import/ism_import.py:136-143 | the view's element k is phase[n - 1 - k], over the slice from reverseIndex |
| Ism.SignificanceArray | thales_file_import/ism_import.py:162-169 | the view's element k is significance[n - 1 - k], over the slice from reverseIndex |
| Ism.MeasurementDateTimeArray | thales_file_import/ism_import.py:171-180 | the view's element k is timestamp n - 1 - k, over the slice from reverseIndex |
| Ism.ComplexImpedanceArray | thales_file_import/ism_import.py:145-160 | one point per trimmed frequency, point k pairing impedance and phase n - 1 - k |
| Ism.MeasurementEndDateTime | thales_file_import/ism_import.py:182-189 | the end time is one of the timestamps and no timestamp is later |
| Ism.ReverseReverse | thales_file_import/ism_import.py:125 | `np.flip` twice gives the array back |
| Ism.ViewsAligned | thales_file_import/ism_import.py:125-180 | all six views have the same length: n - reverseIndex (between 2 and n - 1) after a turn, 1 without one; view element k is array element n - 1 - k, and complex point k pairs impedance and phase n - 1 - k |
| Ism.ViewEndsAtReversal | thales_file_import/ism_import.py:125 | after a turn, the frequency view starts at the final frequency and ends at the reversal frequency |
| Ism.EndAfterEveryView | thales_file_import/ism_import.py:180-189 | the end time is one of the timestamps and no timestamp of the trimmed view is later |

## Left out

- File handling (`open`, `close`): the file is the byte sequence the model reads from.
- The copy loops into `np.zeros` arrays: they copy values unchanged. The int16 to float widening of significance is exact for int16, so significances stay integers.
- `getComplexImpedanceArray` does not evaluate `cos` and `sin` (floating-point trigonometry). Each point is kept as its radius (the impedance) and angle (the phase), and `Ism.ViewsAligned` states its length and pairing.
- TimeStamps.FromRaw: the product `|raw| * 10^6` that `timedelta` rounds is computed on exact reals, not in binary64. The two can differ by one microsecond for values whose decimal expansion falls near a half.
- TimeStamps.TimeStamp: a `datetime` is kept as microseconds after 1980-01-01, not as calendar fields. `Calendar` is used only for the measurement date.
- Exception types: every failure is `None`.
- The raw arrays are never changed by a getter: all the getters are pure functions of the measurement, so there is nothing to state.
