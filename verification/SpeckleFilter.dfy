/** The speckle filter in its Distance mode: windows of consecutive readings. */
module SpeckleFilter {
  import opened Reals

  /** A float range. Infinite ranges are kept apart because their difference is not a number. */
  datatype Reading = NaN | NegInf | PosInf | Val(r: real)

  /** fabs(b - a) > d, for readings that are numbers or infinite. */
  predicate Differs(a: Reading, b: Reading, d: real) {
    match (a, b)
    case (Val(x), Val(y)) => Abs(y - x) > d
    case (PosInf, PosInf) => false
    case (NegInf, NegInf) => false
    case _ => true
  }

  /** range > max_range; comparisons with NaN are false. */
  predicate Beyond(a: Reading, maxRange: real) { a.PosInf? || (a.Val? && a.r > maxRange) }

  /** filter_window, max_range, max_range_difference. */
  datatype Config = Config(window: nat, maxRange: real, maxDifference: real)

  /** Neither the reading at k nor its distance from the window's first reading objects. */
  predicate Near(s: seq<Reading>, i: nat, k: nat, d: real)
    requires i < |s| && k < |s|
  {
    !s[k].NaN? && !Differs(s[i], s[k], d)
  }

  /** The window that starts at i holds together: its first reading is no NaN and all others are near it. */
  predicate WindowValid(s: seq<Reading>, i: nat, cfg: Config) {
    i < |s| && !s[i].NaN? && forall k :: i < k < i + cfg.window && k < |s| ==> Near(s, i, k, cfg.maxDifference)
  }

  /** Some valid window among the first m covers k. */
  predicate InValidWindow(s: seq<Reading>, k: nat, m: nat, cfg: Config) {
    exists i :: 0 <= i < m && i <= k < i + cfg.window && WindowValid(s, i, cfg)
  }

  /** A reading survives when it is beyond the maximum range, or lies in a valid window that fits. */
  predicate Survives(s: seq<Reading>, k: nat, cfg: Config)
    requires k < |s| && cfg.window <= |s|
  {
    Beyond(s[k], cfg.maxRange) || InValidWindow(s, k, |s| - cfg.window + 1, cfg)
  }

  function Filtered(s: seq<Reading>, cfg: Config): (t: seq<Reading>)
    requires cfg.window <= |s|
    ensures |t| == |s|
  {
    seq(|s|, k requires 0 <= k < |s| => if Survives(s, k, cfg) then s[k] else NaN)
  }

  method CheckWindowValid(ranges: array<Reading>, idx: nat, cfg: Config) returns (valid: bool)
    requires idx < ranges.Length
    ensures valid == WindowValid(ranges[..], idx, cfg)
  {
    var range := ranges[idx];
    if range.NaN? {
      return false;
    }
    var nr := 1;
    while nr < cfg.window
      invariant 1 <= nr
      invariant forall k :: idx < k < idx + nr && k < ranges.Length ==> Near(ranges[..], idx, k, cfg.maxDifference)
    {
      var neighbor := idx + nr;
      if neighbor < ranges.Length {
        if ranges[neighbor].NaN? || Differs(range, ranges[neighbor], cfg.maxDifference) {
          assert !Near(ranges[..], idx, neighbor, cfg.maxDifference);
          return false;
        }
      }
      nr := nr + 1;
    }
    return true;
  }

  /** What valid_ranges holds after the first m windows. */
  predicate Marked(s: seq<Reading>, k: nat, m: nat, cfg: Config)
    requires k < |s|
  {
    (0 < m && k < m - 1 + cfg.window && Beyond(s[k], cfg.maxRange)) || InValidWindow(s, k, m, cfg)
  }

  lemma MarkedStep(s: seq<Reading>, k: nat, m: nat, cfg: Config)
    requires k < |s| && cfg.window >= 1
    ensures Marked(s, k, m + 1, cfg) ==
      (Marked(s, k, m, cfg) || (m <= k < m + cfg.window && (WindowValid(s, m, cfg) || Beyond(s[k], cfg.maxRange))))
  {
    if i :| 0 <= i < m + 1 && i <= k < i + cfg.window && WindowValid(s, i, cfg) && i < m {
      assert InValidWindow(s, k, m, cfg);
    }
  }

  /** Set the flags that window idx covers. */
  method MarkWindow(ranges: array<Reading>, valid: array<bool>, idx: nat, windowValid: bool, cfg: Config)
    requires valid.Length == ranges.Length
    modifies valid
    ensures forall k :: 0 <= k < valid.Length ==>
      valid[k] == (old(valid[k]) || (idx <= k < idx + cfg.window && (windowValid || Beyond(ranges[k], cfg.maxRange))))
  {
    var nr := 0;
    while nr < cfg.window
      invariant 0 <= nr <= cfg.window
      invariant forall k :: 0 <= k < valid.Length ==>
        valid[k] == (old(valid[k]) || (idx <= k < idx + nr && (windowValid || Beyond(ranges[k], cfg.maxRange))))
    {
      var self := idx + nr;
      if self < ranges.Length {
        var outOfRange := Beyond(ranges[self], cfg.maxRange);
        valid[self] := valid[self] || windowValid || outOfRange;
      }
      nr := nr + 1;
    }
  }

  /** update, on the copy of the input's ranges that becomes the output. */
  method Update(ranges: array<Reading>, cfg: Config) returns (ok: bool)
    requires cfg.window >= 1
    modifies ranges
    ensures ok == (ranges.Length > cfg.window + 1)
    ensures ranges[..] == if ok then Filtered(old(ranges[..]), cfg) else old(ranges[..])
  {
    var n := ranges.Length;
    if n <= cfg.window + 1 {
      return false;
    }
    ghost var s := ranges[..];
    var valid := new bool[n](_ => false);
    var idx := 0;
    while idx < n - cfg.window + 1
      invariant 0 <= idx <= n - cfg.window + 1
      invariant ranges[..] == s
      invariant forall k :: 0 <= k < n ==> valid[k] == Marked(s, k, idx, cfg)
    {
      var windowValid := CheckWindowValid(ranges, idx, cfg);
      MarkWindow(ranges, valid, idx, windowValid, cfg);
      forall k | 0 <= k < n ensures valid[k] == Marked(s, k, idx + 1, cfg) {
        MarkedStep(s, k, idx, cfg);
        assert ranges[k] == s[k];
      }
      idx := idx + 1;
    }
    assert forall k :: 0 <= k < n ==> valid[k] == Survives(s, k, cfg);
    for i := 0 to n
      invariant forall k :: 0 <= k < n ==> valid[k] == Survives(s, k, cfg)
      invariant forall k :: 0 <= k < i ==> ranges[k] == Filtered(s, cfg)[k]
      invariant forall k :: i <= k < n ==> ranges[k] == s[k]
    {
      if !valid[i] {
        ranges[i] := NaN;
      }
    }
    return true;
  }

  /** Every member of a valid window survives, so the window is still valid in the output. */
  lemma WindowStaysValid(s: seq<Reading>, i: nat, cfg: Config)
    requires cfg.window <= |s| && i < |s| - cfg.window + 1 && WindowValid(s, i, cfg) && cfg.window >= 1
    ensures WindowValid(Filtered(s, cfg), i, cfg)
  {
    var t := Filtered(s, cfg);
    forall k | i <= k < i + cfg.window ensures t[k] == s[k] {
      assert InValidWindow(s, k, |s| - cfg.window + 1, cfg);
    }
    forall k | i < k < i + cfg.window && k < |t| ensures Near(t, i, k, cfg.maxDifference) {
      assert Near(s, i, k, cfg.maxDifference);
    }
  }

  /** Filtering twice is filtering once. */
  lemma FilteredTwice(s: seq<Reading>, cfg: Config)
    requires 1 <= cfg.window <= |s|
    ensures Filtered(Filtered(s, cfg), cfg) == Filtered(s, cfg)
  {
    var t := Filtered(s, cfg);
    forall k | 0 <= k < |s| ensures Filtered(t, cfg)[k] == t[k] {
      if Survives(s, k, cfg) && !Beyond(s[k], cfg.maxRange) {
        var i :| 0 <= i < |s| - cfg.window + 1 && i <= k < i + cfg.window && WindowValid(s, i, cfg);
        WindowStaysValid(s, i, cfg);
        assert InValidWindow(t, k, |t| - cfg.window + 1, cfg);
      }
    }
  }

  /** What is a NaN in the output: what was one already, and every reading within the maximum range that
      lies in no valid window. */
  lemma RemovedExactly(s: seq<Reading>, k: nat, cfg: Config)
    requires 1 <= cfg.window <= |s| && k < |s|
    ensures Filtered(s, cfg)[k] == NaN <==>
      s[k].NaN? || (!Beyond(s[k], cfg.maxRange) &&
                    forall i :: 0 <= i <= |s| - cfg.window && i <= k < i + cfg.window ==> !WindowValid(s, i, cfg))
  {
    if i :| 0 <= i <= |s| - cfg.window && i <= k < i + cfg.window && WindowValid(s, i, cfg) {
      assert InValidWindow(s, k, |s| - cfg.window + 1, cfg);
    }
  }

  /** Among finite readings and NaNs a reading survives exactly when it is greater than the maximum range, or
      some window that fits around it starts at a number from which every further member, nearer or
      farther, differs by at most the maximum. */
  lemma SurvivesByValues(s: seq<Reading>, k: nat, cfg: Config)
    requires 1 <= cfg.window <= |s| && k < |s| && forall i :: 0 <= i < |s| ==> s[i].Val? || s[i].NaN?
    ensures Filtered(s, cfg)[k] == s[k] != NaN <==>
      s[k].Val? &&
      (s[k].r > cfg.maxRange ||
       exists i :: 0 <= i <= |s| - cfg.window && i <= k < i + cfg.window && CloseToFirst(s, i, cfg.window, cfg.maxDifference))
  {
    forall i | 0 <= i <= |s| - cfg.window ensures WindowValid(s, i, cfg) == CloseToFirst(s, i, cfg.window, cfg.maxDifference) {
      WindowByValues(s, i, cfg);
    }
    RemovedExactly(s, k, cfg);
    if i :| 0 <= i <= |s| - cfg.window && i <= k < i + cfg.window && WindowValid(s, i, cfg) {
      assert CloseToFirst(s, i, cfg.window, cfg.maxDifference);
    }
  }

  predicate CloseToFirst(s: seq<Reading>, i: nat, window: nat, d: real)
    requires i + window <= |s| && window >= 1
  {
    s[i].Val? && forall j :: i < j < i + window ==> s[j].Val? && s[j].r - s[i].r <= d && s[i].r - s[j].r <= d
  }

  lemma WindowByValues(s: seq<Reading>, i: nat, cfg: Config)
    requires 1 <= cfg.window && i + cfg.window <= |s| && forall i :: 0 <= i < |s| ==> s[i].Val? || s[i].NaN?
    ensures WindowValid(s, i, cfg) == CloseToFirst(s, i, cfg.window, cfg.maxDifference)
  {
    if WindowValid(s, i, cfg) {
      forall j | i < j < i + cfg.window
        ensures s[j].Val? && s[j].r - s[i].r <= cfg.maxDifference && s[i].r - s[j].r <= cfg.maxDifference
      {
        assert Near(s, i, j, cfg.maxDifference);
      }
    }
  }
}
