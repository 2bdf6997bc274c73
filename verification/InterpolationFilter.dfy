/** The interpolation filter: invalid runs of a scan are replaced by the mean of their neighbours. */
module InterpolationFilter {

  /** range_min and range_max. */
  datatype Limits = Limits(lo: real, hi: real) {
    predicate Accepts(x: real) { lo < x < hi }

    /** The value both neighbours start with. */
    function Default(): real { hi - 0.01 }
  }

  // ---- The meaning of the output ----

  /** First index of the invalid run that k belongs to. */
  function RunStart(s: seq<real>, lim: Limits, k: nat): (a: nat)
    requires k < |s|
    ensures a <= k
  {
    if k == 0 || lim.Accepts(s[k - 1]) then k else RunStart(s, lim, k - 1)
  }

  /** First valid index after k, or the length of the scan. */
  function RunEnd(s: seq<real>, lim: Limits, k: nat): (b: nat)
    requires k < |s|
    ensures k < b <= |s|
    decreases |s| - k
  {
    if k + 1 == |s| || lim.Accepts(s[k + 1]) then k + 1 else RunEnd(s, lim, k + 1)
  }

  /** The valid reading that ended the last invalid run before index m, the default without one. */
  function LastEnding(s: seq<real>, lim: Limits, m: nat): real
    requires m <= |s|
  {
    if m < 2 then lim.Default()
    else if lim.Accepts(s[m - 1]) && !lim.Accepts(s[m - 2]) then s[m - 1]
    else LastEnding(s, lim, m - 1)
  }

  function LeftValue(s: seq<real>, lim: Limits, a: nat): real
    requires a <= |s|
  {
    if a == 0 then lim.Default() else s[a - 1]
  }

  /** A run at the right edge takes the reading that ended the run before it. */
  function RightValue(s: seq<real>, lim: Limits, a: nat, b: nat): real
    requires a <= b <= |s|
  {
    if b < |s| then s[b] else LastEnding(s, lim, a)
  }

  function Output(s: seq<real>, lim: Limits, k: nat): real
    requires k < |s|
  {
    if lim.Accepts(s[k]) then s[k]
    else
      var a, b := RunStart(s, lim, k), RunEnd(s, lim, k);
      (LeftValue(s, lim, a) + RightValue(s, lim, a, b)) / 2.0
  }

  function Interpolated(s: seq<real>, lim: Limits): (t: seq<real>)
    ensures |t| == |s|
  {
    seq(|s|, k requires 0 <= k < |s| => Output(s, lim, k))
  }

  // ---- The loops ----

  lemma {:induction false} RunBounds(s: seq<real>, lim: Limits, a: nat, b: nat, k: nat)
    requires a <= k < b <= |s|
    requires forall i :: a <= i < b ==> !lim.Accepts(s[i])
    requires (a == 0 || lim.Accepts(s[a - 1])) && (b == |s| || lim.Accepts(s[b]))
    ensures RunStart(s, lim, k) == a && RunEnd(s, lim, k) == b
    decreases k - a + b
  {
    StartOfRun(s, lim, a, k);
    EndOfRun(s, lim, k, b);
  }

  lemma {:induction false} StartOfRun(s: seq<real>, lim: Limits, a: nat, k: nat)
    requires a <= k < |s| && forall i :: a <= i < k ==> !lim.Accepts(s[i])
    requires a == 0 || lim.Accepts(s[a - 1])
    ensures RunStart(s, lim, k) == a
  {
    if a < k {
      StartOfRun(s, lim, a, k - 1);
    }
  }

  lemma {:induction false} EndOfRun(s: seq<real>, lim: Limits, k: nat, b: nat)
    requires k < b <= |s| && forall i :: k < i < b ==> !lim.Accepts(s[i])
    requires b == |s| || lim.Accepts(s[b])
    ensures RunEnd(s, lim, k) == b
    decreases b - k
  {
    if k + 1 < b {
      EndOfRun(s, lim, k + 1, b);
    }
  }

  /** The inner search: the next valid index, and the value that next_valid_range takes. */
  method FindNext(ranges: array<real>, lim: Limits, i: nat, next0: real) returns (j: nat, endIndex: nat, next: real)
    requires i < ranges.Length && !lim.Accepts(ranges[i])
    ensures i < j <= ranges.Length && endIndex == j - 1
    ensures forall k :: i <= k < j ==> !lim.Accepts(ranges[k])
    ensures j < ranges.Length ==> lim.Accepts(ranges[j])
    ensures next == if j < ranges.Length then ranges[j] else next0
  {
    j, endIndex, next := i + 1, i, next0;
    while j < ranges.Length
      invariant i < j <= ranges.Length && endIndex == j - 1 && next == next0
      invariant forall k :: i <= k < j ==> !lim.Accepts(ranges[k])
    {
      if ranges[j] <= lim.lo || ranges[j] >= lim.hi {
        endIndex := j;
      } else {
        next := ranges[j];
        break;
      }
      j := j + 1;
    }
  }

  method Fill(ranges: array<real>, startIndex: nat, endIndex: nat, average: real)
    requires startIndex <= endIndex < ranges.Length
    modifies ranges
    ensures forall k :: 0 <= k < ranges.Length ==>
      ranges[k] == if startIndex <= k <= endIndex then average else old(ranges[k])
  {
    var k := startIndex;
    while k <= endIndex
      invariant startIndex <= k <= endIndex + 1
      invariant forall m :: 0 <= m < ranges.Length ==>
        ranges[m] == if startIndex <= m < k then average else old(ranges[m])
    {
      ranges[k] := average;
      k := k + 1;
    }
  }

  /** One invalid run from i, and the reading that ends it. */
  lemma RunOutput(s: seq<real>, lim: Limits, i: nat, j: nat, next: real)
    requires i < j <= |s| && (i == 0 || lim.Accepts(s[i - 1])) && (j == |s| || lim.Accepts(s[j]))
    requires forall k :: i <= k < j ==> !lim.Accepts(s[k])
    requires next == if j < |s| then s[j] else LastEnding(s, lim, i)
    ensures forall k :: i <= k < j ==> Output(s, lim, k) == (LeftValue(s, lim, i) + next) / 2.0
    ensures j < |s| ==> Output(s, lim, j) == s[j] && LastEnding(s, lim, j + 1) == s[j] == LeftValue(s, lim, j + 1)
  {
    forall k | i <= k < j ensures Output(s, lim, k) == (LeftValue(s, lim, i) + next) / 2.0 {
      RunBounds(s, lim, i, j, k);
    }
  }

  /** A valid reading outside the runs. */
  lemma ValidOutput(s: seq<real>, lim: Limits, i: nat)
    requires i < |s| && lim.Accepts(s[i]) && (i == 0 || lim.Accepts(s[i - 1]))
    ensures Output(s, lim, i) == s[i] && LeftValue(s, lim, i + 1) == s[i]
    ensures LastEnding(s, lim, i + 1) == LastEnding(s, lim, i)
  {
  }

  lemma AtStart(s: seq<real>, lim: Limits)
    ensures LeftValue(s, lim, 0) == lim.Default() && LastEnding(s, lim, 0) == lim.Default()
  {
  }

  /** update, on the copy of the input's ranges that becomes the output. */
  method Update(ranges: array<real>, lim: Limits)
    modifies ranges
    ensures ranges[..] == Interpolated(old(ranges[..]), lim)
  {
    hide Output, LastEnding, LeftValue, Limits.Default;
    ghost var s := ranges[..];
    AtStart(s, lim);
    var n := ranges.Length;
    var previous, next := lim.Default(), lim.Default();
    var i := 0;
    while i < n
      invariant 0 <= i <= n + 1
      invariant i <= n ==> previous == LeftValue(s, lim, i) && next == LastEnding(s, lim, i)
      invariant 0 < i < n ==> lim.Accepts(s[i - 1])
      invariant forall k :: 0 <= k < i && k < n ==> ranges[k] == Output(s, lim, k)
      invariant forall k :: i <= k < n ==> ranges[k] == s[k]
    {
      if ranges[i] <= lim.lo || ranges[i] >= lim.hi {
        var j, endIndex;
        j, endIndex, next := FindNext(ranges, lim, i, next);
        RunOutput(s, lim, i, j, next);
        var average := (previous + next) / 2.0;
        Fill(ranges, i, endIndex, average);
        previous := next;
        i := j + 1;
      } else {
        ValidOutput(s, lim, i);
        previous := ranges[i];
        i := i + 1;
      }
    }
  }

  // ---- What the output promises ----

  lemma {:induction false} EndingAccepted(s: seq<real>, lim: Limits, m: nat)
    requires m <= |s| && lim.Accepts(lim.Default())
    ensures lim.Accepts(LastEnding(s, lim, m))
  {
    if m >= 2 {
      EndingAccepted(s, lim, m - 1);
    }
  }

  lemma {:induction false} RunEdges(s: seq<real>, lim: Limits, k: nat)
    requires k < |s|
    ensures var a, b := RunStart(s, lim, k), RunEnd(s, lim, k);
      (a > 0 ==> lim.Accepts(s[a - 1])) && (b < |s| ==> lim.Accepts(s[b]))
  {
    StartEdge(s, lim, k);
    EndEdge(s, lim, k);
  }

  lemma {:induction false} StartEdge(s: seq<real>, lim: Limits, k: nat)
    requires k < |s|
    ensures RunStart(s, lim, k) > 0 ==> lim.Accepts(s[RunStart(s, lim, k) - 1])
  {
    if k > 0 && !lim.Accepts(s[k - 1]) {
      StartEdge(s, lim, k - 1);
    }
  }

  lemma {:induction false} EndEdge(s: seq<real>, lim: Limits, k: nat)
    requires k < |s|
    ensures RunEnd(s, lim, k) < |s| ==> lim.Accepts(s[RunEnd(s, lim, k)])
    decreases |s| - k
  {
    if k + 1 < |s| && !lim.Accepts(s[k + 1]) {
      EndEdge(s, lim, k + 1);
    }
  }

  /** Every reading of every output lies strictly within the limits exactly when the default does. */
  lemma OutputsAcceptedExactly(lim: Limits)
    ensures (forall s: seq<real>, k: nat :: k < |s| ==> lim.Accepts(Interpolated(s, lim)[k]))
       <==> lim.lo < lim.hi - 0.01
  {
    if lim.lo < lim.hi - 0.01 {
      forall s: seq<real>, k: nat | k < |s| ensures lim.Accepts(Interpolated(s, lim)[k]) {
        RunEdges(s, lim, k);
        EndingAccepted(s, lim, RunStart(s, lim, k));
      }
    } else {
      var s := [lim.lo];
      assert Output(s, lim, 0) == (lim.Default() + lim.Default()) / 2.0;
      assert !lim.Accepts(Interpolated(s, lim)[0]);
    }
  }

  /** Where no run has ended before a valid reading, everything before it is valid. */
  lemma {:induction false} NoEnding(s: seq<real>, lim: Limits, a: nat)
    requires 0 < a <= |s| && lim.Accepts(s[a - 1]) && !lim.Accepts(LastEnding(s, lim, a))
    ensures forall i :: 0 <= i < a ==> lim.Accepts(s[i])
  {
    if a >= 2 {
      NoEnding(s, lim, a - 1);
    }
  }

  lemma {:induction false} SameEnding(s: seq<real>, t: seq<real>, lim: Limits, m: nat)
    requires m <= |s| && m <= |t| && forall i :: 0 <= i < m ==> s[i] == t[i]
    ensures LastEnding(s, lim, m) == LastEnding(t, lim, m)
  {
    if m >= 2 {
      SameEnding(s, t, lim, m - 1);
    }
  }

  /** A run that is still invalid after the first pass keeps its bounds and its value. */
  lemma StillInvalid(s: seq<real>, lim: Limits, k: nat)
    requires k < |s| && !lim.Accepts(Interpolated(s, lim)[k])
    ensures Interpolated(Interpolated(s, lim), lim)[k] == Interpolated(s, lim)[k]
  {
    hide LastEnding;
    var t := Interpolated(s, lim);
    var a, b := RunStart(s, lim, k), RunEnd(s, lim, k);
    InvalidRun(s, lim, k);
    RunEdges(s, lim, k);
    forall i | a <= i < b ensures t[i] == t[k] {
      RunBounds(s, lim, a, b, i);
    }
    RunBounds(t, lim, a, b, k);
    if a > 0 && b == |s| {
      NoEnding(s, lim, a);
      SameEnding(s, t, lim, a);
    } else if b == |s| {
      SameEnding(s, t, lim, 0);
    }
  }

  /** The run of an invalid reading is invalid throughout. */
  lemma InvalidRun(s: seq<real>, lim: Limits, k: nat)
    requires k < |s| && !lim.Accepts(s[k])
    ensures forall i :: RunStart(s, lim, k) <= i < RunEnd(s, lim, k) ==> !lim.Accepts(s[i])
  {
    InvalidBefore(s, lim, k);
    InvalidAfter(s, lim, k);
  }

  lemma {:induction false} InvalidBefore(s: seq<real>, lim: Limits, k: nat)
    requires k < |s| && !lim.Accepts(s[k])
    ensures forall i :: RunStart(s, lim, k) <= i <= k ==> !lim.Accepts(s[i])
  {
    if k > 0 && !lim.Accepts(s[k - 1]) {
      InvalidBefore(s, lim, k - 1);
    }
  }

  lemma {:induction false} InvalidAfter(s: seq<real>, lim: Limits, k: nat)
    requires k < |s| && !lim.Accepts(s[k])
    ensures forall i :: k <= i < RunEnd(s, lim, k) ==> !lim.Accepts(s[i])
    decreases |s| - k
  {
    if k + 1 < |s| && !lim.Accepts(s[k + 1]) {
      InvalidAfter(s, lim, k + 1);
    }
  }

  /** A second pass changes nothing, whatever the limits: readings that the first pass could not make
      valid are given the same value again. */
  lemma InterpolatedTwice(s: seq<real>, lim: Limits)
    ensures Interpolated(Interpolated(s, lim), lim) == Interpolated(s, lim)
  {
    var t := Interpolated(s, lim);
    forall k | 0 <= k < |t| ensures Interpolated(t, lim)[k] == t[k] {
      if !lim.Accepts(t[k]) {
        StillInvalid(s, lim, k);
      }
    }
  }

  /** Valid readings stay, and a maximal invalid run with a valid right neighbour becomes the mean of the
      two readings that bound it (the default on the left edge). */
  lemma RunBecomesMean(s: seq<real>, lim: Limits, a: nat, b: nat, k: nat)
    requires a <= k < b < |s|
    requires forall i :: a <= i < b ==> !lim.Accepts(s[i])
    requires (a == 0 || lim.Accepts(s[a - 1])) && lim.Accepts(s[b])
    ensures Interpolated(s, lim)[k] == ((if a == 0 then lim.hi - 0.01 else s[a - 1]) + s[b]) / 2.0
    ensures forall i :: 0 <= i < |s| && lim.Accepts(s[i]) ==> Interpolated(s, lim)[i] == s[i]
  {
    RunBounds(s, lim, a, b, k);
  }

  /** A run at the right edge becomes the mean of the reading before it and of the valid reading c that ended
      the run before; without an earlier run the default takes that place. */
  lemma RightEdgeBecomesMean(s: seq<real>, lim: Limits, a: nat, k: nat, c: nat)
    requires 0 < a <= k < |s| && (forall i :: a <= i < |s| ==> !lim.Accepts(s[i])) && c <= a
    requires (forall i :: c <= i < a ==> lim.Accepts(s[i])) && lim.Accepts(s[a - 1])
    requires c < a && (c == 0 || !lim.Accepts(s[c - 1]))
    ensures Interpolated(s, lim)[k] == (s[a - 1] + if c == 0 then lim.hi - 0.01 else s[c]) / 2.0
  {
    RunBounds(s, lim, a, |s|, k);
    EndingIs(s, lim, a, c);
  }

  lemma {:induction false} EndingIs(s: seq<real>, lim: Limits, m: nat, c: nat)
    requires c < m <= |s| && (forall i :: c <= i < m ==> lim.Accepts(s[i])) && (c == 0 || !lim.Accepts(s[c - 1]))
    ensures LastEnding(s, lim, m) == if c == 0 then lim.hi - 0.01 else s[c]
  {
    if m > c + 1 {
      EndingIs(s, lim, m - 1, c);
    }
  }

  /** A scan without any valid reading becomes the default throughout. */
  lemma AllInvalidBecomesDefault(s: seq<real>, lim: Limits, k: nat)
    requires k < |s| && forall i :: 0 <= i < |s| ==> !lim.Accepts(s[i])
    ensures Interpolated(s, lim)[k] == lim.hi - 0.01
  {
    RunBounds(s, lim, 0, |s|, k);
  }
}
