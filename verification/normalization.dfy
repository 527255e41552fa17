/**
 * The statistical post-processing of a raw total: z-score rescaling from the
 * session's statistics onto the department's, and the GATE score, a linear
 * map that sends the passing cutoff to 350 and the department's toppers to
 * 1000. The database aggregates (`Avg`, `StdDev`, `count`, the top-n query)
 * are parameters: each arrives as Django hands it over, `None` for an empty
 * or all-null group.
 */
module Normalization {
  import opened Base

  /** `Avg(...)` and `StdDev(...)` of a group of scores. */
  datatype Stats = Stats(mean: Option<real>, std: Option<real>)

  /** `v or 0`: a missing aggregate counts as zero. */
  function OrZero(v: Option<real>): (r: real)
    ensures v.Some? && v.value != 0.0 ==> r == v.value
    ensures v.None? ==> r == 0.0
  {
    match v
    case None => 0.0
    case Some(x) => x
  }

  /** `v or 1` followed by the zero guard: a missing or zero deviation counts as one. */
  function StdOrOne(v: Option<real>): (r: real)
    ensures r != 0.0
    ensures v.Some? && v.value != 0.0 ==> r == v.value
    ensures v.None? || v == Some(0.0) ==> r == 1.0
  {
    match v
    case None => 1.0
    case Some(x) => if x == 0.0 then 1.0 else x
  }

  /** The departments that sit the exam in several sessions and so are normalized. */
  predicate MultiSession(department: string) {
    department == "CE" || department == "CSIT"
  }

  /** `calculate_normalized_marks`: the session z-score of `raw` rescaled to the department's mean and deviation. */
  function NormalizedMarks(department: string, raw: real, session: Stats, dept: Stats): real {
    if MultiSession(department) then
      (raw - OrZero(session.mean)) / StdOrOne(session.std) * StdOrOne(dept.std) + OrZero(dept.mean)
    else raw
  }

  /** The inverse map: from a normalized mark back to the session's raw scale. */
  function RawOf(normalized: real, session: Stats, dept: Stats): real {
    (normalized - OrZero(dept.mean)) / StdOrOne(dept.std) * StdOrOne(session.std) + OrZero(session.mean)
  }

  /** Departments with a single session keep the raw marks. */
  lemma NormalizeIdentity(department: string, raw: real, session: Stats, dept: Stats)
    requires !MultiSession(department)
    ensures NormalizedMarks(department, raw, session, dept) == raw
  {
  }

  /** A candidate exactly at the session's mean gets exactly the department's mean. */
  lemma NormalizeAtMean(department: string, session: Stats, dept: Stats)
    requires MultiSession(department)
    ensures NormalizedMarks(department, OrZero(session.mean), session, dept) == OrZero(dept.mean)
  {
    var ss := StdOrOne(session.std);
    assert 0.0 / ss == 0.0;
  }

  /** A zero deviation is treated exactly like a missing one. */
  lemma NormalizeZeroStd(department: string, raw: real, session: Stats, dept: Stats)
    ensures NormalizedMarks(department, raw, session.(std := Some(0.0)), dept)
         == NormalizedMarks(department, raw, session.(std := None), dept)
    ensures NormalizedMarks(department, raw, session, dept.(std := Some(0.0)))
         == NormalizedMarks(department, raw, session, dept.(std := None))
  {
  }

  lemma DivLess(a: real, b: real, d: real)
    requires a < b && d > 0.0
    ensures a / d < b / d
  {
    assert b / d - a / d == (b - a) / d;
  }

  lemma MulLess(a: real, b: real, m: real)
    requires a < b && m > 0.0
    ensures a * m < b * m
  {
    assert b * m - a * m == (b - a) * m;
  }

  /** With non-negative deviations, a higher raw mark always gives a strictly higher normalized mark. */
  lemma NormalizeMonotone(department: string, raw1: real, raw2: real, session: Stats, dept: Stats)
    requires raw1 < raw2
    requires session.std.Some? ==> session.std.value >= 0.0
    requires dept.std.Some? ==> dept.std.value >= 0.0
    ensures NormalizedMarks(department, raw1, session, dept) < NormalizedMarks(department, raw2, session, dept)
  {
    if MultiSession(department) {
      var sm, ss := OrZero(session.mean), StdOrOne(session.std);
      var dm, ds := OrZero(dept.mean), StdOrOne(dept.std);
      DivLess(raw1 - sm, raw2 - sm, ss);
      MulLess((raw1 - sm) / ss, (raw2 - sm) / ss, ds);
    }
  }

  lemma ScaleBack(x: real, s: real, d: real)
    requires s != 0.0 && d != 0.0
    ensures x / s * d / d * s == x
  {
    var z := x / s;
    assert z * d / d == z;
    assert z * s == x;
  }

  /** Rescaling can be undone: the session's raw mark is recovered from the normalized one. */
  lemma NormalizeRoundTrip(department: string, raw: real, session: Stats, dept: Stats)
    requires MultiSession(department)
    ensures RawOf(NormalizedMarks(department, raw, session, dept), session, dept) == raw
  {
    var sm, ss := OrZero(session.mean), StdOrOne(session.std);
    var dm, ds := OrZero(dept.mean), StdOrOne(dept.std);
    var n := (raw - sm) / ss * ds + dm;
    assert n - dm == (raw - sm) / ss * ds;
    ScaleBack(raw - sm, ss, ds);
  }

  /* ---------------- the topper reference ---------------- */

  /** `max(1, total // 1000)`: how many of the department's best normalized marks make up the topper group. */
  function TopperCount(total: nat): (n: nat)
    ensures n >= 1
    ensures total < 2000 ==> n == 1
    ensures total >= 1000 ==> n * 1000 <= total < n * 1000 + 1000
  {
    if total / 1000 < 1 then 1 else total / 1000
  }

  /** The non-null values of a column, in order: what `Avg` averages over. Every
   * non-null mark is counted as often as it occurs, and only the nulls are dropped. */
  function Present(xs: seq<Option<real>>): (vs: seq<real>)
    ensures |vs| <= |xs|
    ensures forall v :: v in vs ==> Some(v) in xs
    ensures (exists x :: x in xs && x.Some?) ==> |vs| > 0
    ensures forall v :: multiset(vs)[v] == multiset(xs)[Some(v)]
    ensures |vs| == |xs| - multiset(xs)[None]
    decreases |xs|
  {
    if |xs| == 0 then []
    else
      var init := xs[..|xs| - 1];
      var last := xs[|xs| - 1];
      assert xs == init + [last];
      Present(init) + (if last.Some? then [last.value] else [])
  }

  function Sum(vs: seq<real>): real
    decreases |vs|
  {
    if |vs| == 0 then 0.0 else Sum(vs[..|vs| - 1]) + vs[|vs| - 1]
  }

  /** The average of some values. */
  function Mean(vs: seq<real>): real
    requires |vs| > 0
  {
    Sum(vs) / |vs| as real
  }

  /** The topper group: the first `TopperCount(total)` rows of the department in the database's descending order, or all of them if fewer. */
  function TopGroup(desc: seq<Option<real>>, total: nat): (top: seq<Option<real>>)
    ensures |top| <= TopperCount(total) && top <= desc
    ensures |top| == TopperCount(total) || top == desc
  {
    var n := TopperCount(total);
    desc[..if n < |desc| then n else |desc|]
  }

  /** `Avg(normalized_marks) or 0` over the topper group: nulls are ignored, and an empty or all-null group gives 0. */
  function TopperMarks(desc: seq<Option<real>>, total: nat): (r: real)
    ensures Present(TopGroup(desc, total)) == [] ==> r == 0.0
  {
    var vs := Present(TopGroup(desc, total));
    if |vs| == 0 then 0.0 else Mean(vs)
  }

  lemma {:induction false} SumBounds(vs: seq<real>, lo: real, hi: real)
    requires forall k :: 0 <= k < |vs| ==> lo <= vs[k] <= hi
    ensures |vs| as real * lo <= Sum(vs) <= |vs| as real * hi
    decreases |vs|
  {
    if |vs| > 0 {
      var n := |vs| as real;
      var init, x := vs[..|vs| - 1], vs[|vs| - 1];
      assert forall k :: 0 <= k < |init| ==> init[k] == vs[k];
      SumBounds(init, lo, hi);
      assert |init| as real == n - 1.0;
      assert Sum(vs) == Sum(init) + x;
      assert lo <= x <= hi;
      assert (n - 1.0) * lo + lo == n * lo && (n - 1.0) * hi + hi == n * hi;
    }
  }

  lemma DivAtMost(a: real, b: real, d: real)
    requires a <= b && d > 0.0
    ensures a / d <= b / d
  {
    if a < b {
      DivLess(a, b, d);
    }
  }

  /** An average lies between any lower and upper bound of the values averaged. */
  lemma MeanBounds(vs: seq<real>, lo: real, hi: real)
    requires |vs| > 0
    requires forall k :: 0 <= k < |vs| ==> lo <= vs[k] <= hi
    ensures lo <= Mean(vs) <= hi
  {
    SumBounds(vs, lo, hi);
    var n := |vs| as real;
    DivAtMost(n * lo, Sum(vs), n);
    DivAtMost(Sum(vs), n * hi, n);
    assert n * lo / n == lo && n * hi / n == hi;
  }

  /**
   * The topper reference lies between the lowest and the highest non-null
   * mark of the topper group: it is their average.
   */
  lemma TopperBounds(desc: seq<Option<real>>, total: nat, lo: real, hi: real)
    requires forall k :: 0 <= k < |desc| && k < TopperCount(total) && desc[k].Some? ==> lo <= desc[k].value <= hi
    requires exists k :: 0 <= k < |desc| && k < TopperCount(total) && desc[k].Some?
    ensures lo <= TopperMarks(desc, total) <= hi
  {
    var n := TopperCount(total);
    var top := TopGroup(desc, total);
    var k :| 0 <= k < |desc| && k < n && desc[k].Some?;
    assert top[k] in top;
    var vs := Present(top);
    forall j | 0 <= j < |vs| ensures lo <= vs[j] <= hi {
      assert vs[j] in vs;
      assert Some(vs[j]) in top;
    }
    MeanBounds(vs, lo, hi);
  }

  /** With fewer than 2000 candidates the topper reference is the single best row's mark. */
  lemma TopperOfSmallCohort(desc: seq<Option<real>>, total: nat)
    requires total < 2000 && |desc| > 0 && desc[0].Some?
    ensures TopperMarks(desc, total) == desc[0].value
  {
    var top := TopGroup(desc, total);
    assert top == [desc[0]];
    PresentSingle(desc[0]);
    MeanSingle(desc[0].value);
  }

  lemma PresentSingle(x: Option<real>)
    requires x.Some?
    ensures Present([x]) == [x.value]
  {
    assert [x][..0] == [];
  }

  lemma MeanSingle(v: real)
    ensures Mean([v]) == v
  {
    assert [v][..0] == [];
    assert Sum([v]) == v;
  }

  /* ---------------- GATE score ---------------- */

  /**
   * `calculate_gate_score`: 0 below the cutoff (`passing_marks_general or 0`),
   * when the topper reference is 0 or equals the cutoff; otherwise the linear
   * map through (cutoff, 350) and (topper, 1000), not clamped.
   */
  function GateScore(c: real, passing: Option<real>, topper: real): real {
    var cut := OrZero(passing);
    if topper == 0.0 || c <= cut then 0.0
    else if topper == cut then 0.0
    else 350.0 + 650.0 * (c - cut) / (topper - cut)
  }

  /** The regime in which the score is the linear map. */
  predicate Scaled(c: real, passing: Option<real>, topper: real) {
    topper != 0.0 && c > OrZero(passing) && topper != OrZero(passing)
  }

  /** The score is 0 exactly outside the linear regime, when the toppers are above the cutoff. */
  lemma GateZero(c: real, passing: Option<real>, topper: real)
    ensures !Scaled(c, passing, topper) ==> GateScore(c, passing, topper) == 0.0
    ensures Scaled(c, passing, topper) && topper > OrZero(passing) ==> GateScore(c, passing, topper) > 350.0
  {
    var cut := OrZero(passing);
    if Scaled(c, passing, topper) && topper > cut {
      DivLess(0.0, 650.0 * (c - cut), topper - cut);
    }
  }

  /** A candidate at the topper reference scores exactly 1000. */
  lemma GateAtTopper(c: real, passing: Option<real>)
    requires c != 0.0 && c > OrZero(passing)
    ensures GateScore(c, passing, c) == 1000.0
  {
    var d := c - OrZero(passing);
    assert 650.0 * d / d == 650.0;
  }

  /** Above the topper reference the score exceeds 1000: there is no upper clamp. */
  lemma GateAboveTopper(c: real, passing: Option<real>, topper: real)
    requires topper != 0.0 && c > topper > OrZero(passing)
    ensures GateScore(c, passing, topper) > 1000.0
  {
    var cut := OrZero(passing);
    DivLess(650.0 * (topper - cut), 650.0 * (c - cut), topper - cut);
    assert 650.0 * (topper - cut) / (topper - cut) == 650.0;
  }

  /** Strictly between the cutoff and the topper reference the score is strictly between 350 and 1000. */
  lemma GateBetween(c: real, passing: Option<real>, topper: real)
    requires topper != 0.0 && OrZero(passing) < c < topper
    ensures 350.0 < GateScore(c, passing, topper) < 1000.0
  {
    var cut := OrZero(passing);
    DivLess(0.0, 650.0 * (c - cut), topper - cut);
    DivLess(650.0 * (c - cut), 650.0 * (topper - cut), topper - cut);
    assert 650.0 * (topper - cut) / (topper - cut) == 650.0;
  }

  /** Above the cutoff, with the toppers above it too, a higher normalized mark gives a strictly higher score. */
  lemma GateMonotone(c1: real, c2: real, passing: Option<real>, topper: real)
    requires topper != 0.0 && topper > OrZero(passing) && OrZero(passing) < c1 < c2
    ensures GateScore(c1, passing, topper) < GateScore(c2, passing, topper)
  {
    var cut := OrZero(passing);
    DivLess(650.0 * (c1 - cut), 650.0 * (c2 - cut), topper - cut);
  }

  /** When the toppers sit below the cutoff, a candidate above the cutoff scores below 350. */
  lemma GateInvertedReference(c: real, passing: Option<real>, topper: real)
    requires topper != 0.0 && topper < OrZero(passing) < c
    ensures GateScore(c, passing, topper) < 350.0
  {
    var cut := OrZero(passing);
    var num, den := 650.0 * (c - cut), topper - cut;
    assert num > 0.0 && den < 0.0;
    DivLess(0.0, num, -den);
    assert num / den == -(num / -den);
  }

  /** The normalized mark a score in the linear regime came from. */
  function MarkOfScore(g: real, passing: Option<real>, topper: real): real
    requires topper != OrZero(passing)
  {
    OrZero(passing) + (g - 350.0) * (topper - OrZero(passing)) / 650.0
  }

  /** In the linear regime the score determines the normalized mark. */
  lemma GateRoundTrip(c: real, passing: Option<real>, topper: real)
    requires Scaled(c, passing, topper)
    ensures MarkOfScore(GateScore(c, passing, topper), passing, topper) == c
  {
    var cut := OrZero(passing);
    var d := topper - cut;
    var q := 650.0 * (c - cut) / d;
    assert q * d == 650.0 * (c - cut);
    assert GateScore(c, passing, topper) - 350.0 == q;
  }
}
