/** `IsmImport._ismTimeStampToDateTime`: a raw time value is a number of
    seconds after 1980-01-01 whose sign is ignored, turned into a
    `datetime` with microsecond resolution. */
module TimeStamps {
  import opened Wrappers
  import opened Float64
  import Calendar

  /** `datetime.datetime(1980, 1, 1)`, the zero of the instrument's clock. */
  const Epoch := Calendar.Date(1980, 1, 1)

  const MicrosPerSecond := 1_000_000

  /** Microseconds from the epoch to `datetime.max` (9999-12-31
      23:59:59.999999): 2929244 days, 86399 seconds and 999999 microseconds. */
  const MaxMicros := 2_929_245 * 86_400 * MicrosPerSecond - 1

  /** A `datetime` at or after the epoch, as whole microseconds after it. */
  datatype TimeStamp = TimeStamp(micros: nat)

  function Abs(x: real): (a: real)
    ensures a >= 0.0 && (a == x || a == -x)
  {
    if x < 0.0 then -x else x
  }

  /** The nearest whole number to `x`, ties to the even neighbour, as
      `timedelta` rounds a fractional microsecond count. */
  function RoundHalfEven(x: real): (n: nat)
    requires x >= 0.0
    ensures x - 0.5 <= n as real <= x + 0.5
    ensures (n as real == x - 0.5 || n as real == x + 0.5) ==> n % 2 == 0
  {
    var whole := x.Floor;
    var fraction := x - whole as real;
    if fraction > 0.5 || (fraction == 0.5 && whole % 2 == 1) then whole + 1 else whole
  }

  /** `timeZero + timedelta(seconds = abs(raw))`: `timedelta` rejects NaN
      (`ValueError`) and the infinities (`OverflowError`), and the sum
      overflows past `datetime.max`. */
  function FromRaw(raw: Float): (r: Option<TimeStamp>)
    ensures r.Some? ==> raw.Finite? && r.value.micros <= MaxMicros
  {
    match raw
    case NaN => None
    case Infinity(_) => None
    case Finite(v) =>
      var micros := RoundHalfEven(Abs(v) * MicrosPerSecond as real);
      if micros > MaxMicros then None else Some(TimeStamp(micros))
  }

  /** A timestamp lies within half a microsecond of the magnitude of the
      raw value, whatever its sign; NaN and the infinities have none. */
  lemma FromRawMeaning(raw: Float)
    ensures FromRaw(raw).Some? ==> raw.Finite?
    ensures FromRaw(raw).Some? ==>
      var exact := Abs(raw.value) * MicrosPerSecond as real;
      exact - 0.5 <= FromRaw(raw).value.micros as real <= exact + 0.5
    ensures raw.Finite? && Abs(raw.value) * MicrosPerSecond as real <= MaxMicros as real
      ==> FromRaw(raw).Some?
  {
  }

  /** `raw` and `-raw` give the same timestamp. */
  lemma SignIgnored(raw: Float)
    ensures FromRaw(Negate(raw)) == FromRaw(raw)
  {
  }

  /** A raw value of larger magnitude never gives an earlier timestamp. */
  lemma FromRawMonotone(a: real, b: real)
    requires Abs(a) <= Abs(b) && FromRaw(Finite(b)).Some?
    ensures FromRaw(Finite(a)).Some?
    ensures FromRaw(Finite(a)).value.micros <= FromRaw(Finite(b)).value.micros
  {
    var x, y := Abs(a) * MicrosPerSecond as real, Abs(b) * MicrosPerSecond as real;
    RoundMonotone(x, y);
  }

  lemma RoundMonotone(x: real, y: real)
    requires 0.0 <= x <= y
    ensures RoundHalfEven(x) <= RoundHalfEven(y)
  {
  }

  /** Half a microsecond rounds to the even neighbour. 2^-7 s and
      3 * 2^-7 s are binary64 values of exactly 7812.5 and 23437.5
      microseconds: they round to 7812 and 23438. */
  lemma TiesToEven()
    ensures FromRaw(Finite(0.0078125)) == Some(TimeStamp(7812))
    ensures FromRaw(Finite(-0.0234375)) == Some(TimeStamp(23438))
  {
    assert RoundHalfEven(7812.5) == 7812;
    assert RoundHalfEven(23437.5) == 23438;
  }

  /** The latest of a non-empty list of timestamps, as `max` picks it. */
  function Latest(ts: seq<TimeStamp>): (t: TimeStamp)
    requires |ts| > 0
    ensures t in ts
    ensures forall i :: 0 <= i < |ts| ==> ts[i].micros <= t.micros
  {
    if |ts| == 1 then ts[0]
    else
      var rest := Latest(ts[1..]);
      if ts[0].micros >= rest.micros then ts[0] else rest
  }
}
