/** The reversal scan at the end of `IsmImport.__init__`: the direction a
    frequency sweep starts in, and the index of the point where it turns. */
module Sweep {
  import opened Float64

  /** Step `i` (from `f[i - 1]` to `f[i]`) goes against the first direction:
      down after an upward start, up after a downward one. */
  predicate IsBreak(f: seq<Float>, up: bool, i: nat)
    requires 1 <= i < |f|
  {
    if up then Less(f[i], f[i - 1]) else Less(f[i - 1], f[i])
  }

  /** The first break at or after `from`, or `|f|` when there is none. */
  function FirstBreak(f: seq<Float>, up: bool, from: nat): (j: nat)
    requires 1 <= from <= |f|
    ensures from <= j <= |f|
    ensures j < |f| ==> IsBreak(f, up, j)
    ensures forall k :: from <= k < j ==> !IsBreak(f, up, k)
    decreases |f| - from
  {
    if from == |f| then |f|
    else if IsBreak(f, up, from) then from
    else FirstBreak(f, up, from + 1)
  }

  /** `firstUp` and `reverseIndex` as the constructor leaves them. */
  datatype Reversal = Reversal(firstUp: bool, reverseIndex: int)

  /** The sweep starts upward exactly when `f[0] < f[1]` (equal values count
      as downward); `reverseIndex` is the index before the first break, so
      the point where the sweep turns, or -1 when it never turns. Index 0 is
      impossible, because the first step sets the direction. */
  function ReversalOf(f: seq<Float>): (r: Reversal)
    requires |f| >= 2
    ensures r.firstUp <==> Less(f[0], f[1])
    ensures r.reverseIndex == -1 || 1 <= r.reverseIndex <= |f| - 2
    ensures r.reverseIndex >= 1 ==> IsBreak(f, r.firstUp, r.reverseIndex + 1)
    ensures forall k :: (1 <= k < |f| && (r.reverseIndex == -1 || k <= r.reverseIndex))
                        ==> !IsBreak(f, r.firstUp, k)
  {
    var up := Less(f[0], f[1]);
    FirstStepSetsDirection(f);
    var j := FirstBreak(f, up, 1);
    Reversal(up, if j == |f| then -1 else j - 1)
  }

  /** The step from `f[0]` to `f[1]` never breaks the direction it sets. */
  lemma FirstStepSetsDirection(f: seq<Float>)
    requires |f| >= 2
    ensures !IsBreak(f, Less(f[0], f[1]), 1)
  {
    LessOrder(f[0], f[1], f[0]);
  }

  /** The loop of the constructor, as written: it starts at `i = 0`, where
      `f[0]` is compared with itself, keeps the previous frequency in
      `oldFrequency`, stops at the first break, and finally subtracts one. */
  method ScanReversal(frequency: seq<Float>) returns (firstUp: bool, reverseIndex: int)
    requires |frequency| >= 2
    ensures Reversal(firstUp, reverseIndex) == ReversalOf(frequency)
  {
    firstUp := false;
    if Less(frequency[0], frequency[1]) {
      firstUp := true;
    }
    reverseIndex := 0;
    var oldFrequency := frequency[0];
    var i := 0;
    while i < |frequency|
      invariant 0 <= i <= |frequency|
      invariant oldFrequency == frequency[if i == 0 then 0 else i - 1]
      invariant reverseIndex == 0
      invariant forall k :: 1 <= k < i ==> !IsBreak(frequency, firstUp, k)
    {
      if firstUp {
        if Less(frequency[i], oldFrequency) {
          reverseIndex := i;
          break;
        }
      } else {
        if Less(oldFrequency, frequency[i]) {
          reverseIndex := i;
          break;
        }
      }
      oldFrequency := frequency[i];
      i := i + 1;
    }
    if reverseIndex == 0 {
      FirstBreakAt(frequency, firstUp, 1, |frequency|);
    } else {
      assert IsBreak(frequency, firstUp, reverseIndex);
      FirstBreakAt(frequency, firstUp, 1, reverseIndex);
    }
    reverseIndex := reverseIndex - 1;
  }

  /** A `j` with no break in `[from, j)` and a break at `j` (or `j == |f|`)
      is the first break. */
  lemma {:induction false} FirstBreakAt(f: seq<Float>, up: bool, from: nat, j: nat)
    requires 1 <= from <= j <= |f|
    requires forall k :: from <= k < j ==> !IsBreak(f, up, k)
    requires j < |f| ==> IsBreak(f, up, j)
    ensures FirstBreak(f, up, from) == j
    decreases j - from
  {
    if from < j {
      FirstBreakAt(f, up, from + 1, j);
    }
  }

  predicate NoNaN(f: seq<Float>) {
    forall i :: 0 <= i < |f| ==> !f[i].NaN?
  }

  /** `f[i]` comes no later than `f[j]` in the direction `up`. */
  predicate InOrder(f: seq<Float>, up: bool, i: nat, j: nat)
    requires i < |f| && j < |f|
  {
    if up then AtMost(f[i], f[j]) else AtMost(f[j], f[i])
  }

  /** Without NaN, a run of steps none of which breaks is monotone: every
      earlier point is in order with every later one. */
  lemma {:induction false} MonotoneRun(f: seq<Float>, up: bool, m: nat)
    requires m < |f| && NoNaN(f)
    requires forall k :: 1 <= k <= m ==> !IsBreak(f, up, k)
    ensures forall i, j :: 0 <= i <= j <= m ==> InOrder(f, up, i, j)
  {
    if m > 0 {
      MonotoneRun(f, up, m - 1);
      assert InOrder(f, up, m - 1, m) by {
        assert !IsBreak(f, up, m);
        assert !f[m - 1].NaN? && !f[m].NaN?;
        LessTotal(f[m - 1], f[m]);
        LessTotal(f[m], f[m - 1]);
      }
      forall i | 0 <= i <= m
        ensures InOrder(f, up, i, m)
      {
        if i < m {
          assert InOrder(f, up, i, m - 1);
          if up {
            AtMostTransitive(f[i], f[m - 1], f[m]);
          } else {
            AtMostTransitive(f[m], f[m - 1], f[i]);
          }
        }
      }
    }
  }

  /** Without NaN, the point at `reverseIndex` is the turning point: the
      maximum of everything before it in an upward start (the minimum in a
      downward one), and the next point moves strictly back. With no
      reversal, the whole sweep is monotone. */
  lemma ReversalIsTurningPoint(f: seq<Float>)
    requires |f| >= 2 && NoNaN(f)
    ensures var r := ReversalOf(f);
      var last := if r.reverseIndex == -1 then |f| - 1 else r.reverseIndex;
      forall i, j :: 0 <= i <= j <= last ==> InOrder(f, r.firstUp, i, j)
  {
    var r := ReversalOf(f);
    var last := if r.reverseIndex == -1 then |f| - 1 else r.reverseIndex;
    MonotoneRun(f, r.firstUp, last);
  }

  /** The sweep 1, 2, 3, 2 starts upward and turns at index 2. */
  lemma ReversalExample()
    ensures ReversalOf([Finite(1.0), Finite(2.0), Finite(3.0), Finite(2.0)]) == Reversal(true, 2)
  {
    var f := [Finite(1.0), Finite(2.0), Finite(3.0), Finite(2.0)];
    FirstBreakAt(f, true, 1, 3);
  }

  /** The sweep 3, 2, 1 never turns. */
  lemma NoReversalExample()
    ensures ReversalOf([Finite(3.0), Finite(2.0), Finite(1.0)]) == Reversal(false, -1)
  {
    var f := [Finite(3.0), Finite(2.0), Finite(1.0)];
    FirstBreakAt(f, false, 1, 3);
  }
}
