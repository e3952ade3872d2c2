/**
 * The meal-plan builder (`get_meal_plan`): a saved plan is looked up by
 * recipe name; otherwise the selected seed recipes are grown, one recipe per
 * step, by the candidate with the highest randomly weighted overlap score,
 * until the plan has the requested size, and the plan is then sorted.
 *
 * The recipe table is given by its recipe names (row order is the recipe id)
 * and its count vectors, one `seq<nat>` per row over the vocabulary. The
 * random draws are a parameter: `weights[k][i]` is the draw for row `i` in
 * growth step `k`.
 */
module Plan {
  import opened Parse

  datatype Option<T> = None | Some(value: T)

  /** `RANDOMIZATION_STRENGTH`: draws lie in [1 - r, 1 + r). */
  const RandomizationStrength: real := 0.5

  predicate StrictlyAscending(s: seq<nat>) {
    forall i, j :: 0 <= i < j < |s| ==> s[i] < s[j]
  }

  predicate Ascending(s: seq<nat>) {
    forall i, j :: 0 <= i < j < |s| ==> s[i] <= s[j]
  }

  // ---------------------------------------------------------------------------
  // Resolving recipe ids
  // ---------------------------------------------------------------------------

  /** `initial_recipes`: the ids of the ticked recipes, in table order. */
  function Seeds(selected: seq<bool>): (r: seq<nat>)
    ensures StrictlyAscending(r)
    ensures forall k :: 0 <= k < |r| ==> r[k] < |selected|
    ensures forall i: nat :: i in r <==> i < |selected| && selected[i]
  {
    if selected == [] then []
    else
      var n := |selected| - 1;
      var rest := Seeds(selected[..n]);
      assert forall i :: 0 <= i < n ==> selected[..n][i] == selected[i];
      assert forall k :: 0 <= k < |rest| ==> rest[k] < n;
      rest + (if selected[n] then [n] else [])
  }

  /** The ids of the rows whose name is one of the saved names, in table order; saved names the table lacks are dropped. */
  function SavedIds(names: seq<string>, saved: seq<string>): (r: seq<nat>)
    ensures StrictlyAscending(r)
    ensures forall k :: 0 <= k < |r| ==> r[k] < |names|
    ensures forall i: nat :: i in r <==> i < |names| && names[i] in saved
  {
    if names == [] then []
    else
      var n := |names| - 1;
      var rest := SavedIds(names[..n], saved);
      assert forall i :: 0 <= i < n ==> names[..n][i] == names[i];
      assert forall k :: 0 <= k < |rest| ==> rest[k] < n;
      rest + (if names[n] in saved then [n] else [])
  }

  /** `current_meal_plan`: the names of the plan's rows, in table order. */
  function PlanNames(names: seq<string>, ids: seq<nat>): (r: seq<string>)
    ensures forall x :: x in r <==> exists i :: 0 <= i < |names| && i in ids && names[i] == x
  {
    if names == [] then []
    else
      var n := |names| - 1;
      var rest := PlanNames(names[..n], ids);
      assert forall i :: 0 <= i < n ==> names[..n][i] == names[i];
      rest + (if n in ids then [names[n]] else [])
  }

  /** Two strictly ascending sequences with the same elements are equal. */
  lemma {:induction false} AscendingByElements(a: seq<nat>, b: seq<nat>)
    requires StrictlyAscending(a) && StrictlyAscending(b)
    requires forall x :: x in a <==> x in b
    ensures a == b
  {
    if a != [] {
      assert a[0] in b;
    }
    if b != [] {
      assert b[0] in a;
    }
    if a != [] && b != [] {
      assert a[0] == b[0];
      forall x ensures x in a[1..] <==> x in b[1..] {
        if x in a[1..] { assert x > a[0]; assert x in b; }
        if x in b[1..] { assert x > b[0]; assert x in a; }
      }
      AscendingByElements(a[1..], b[1..]);
      assert a == [a[0]] + a[1..] && b == [b[0]] + b[1..];
    }
  }

  /**
   * Saving the plan's names and loading them back as a saved plan gives the
   * same ids, provided recipe names are unique.
   */
  lemma SavedPlanRoundTrip(names: seq<string>, ids: seq<nat>)
    requires Distinct(names)
    requires StrictlyAscending(ids)
    requires forall k :: 0 <= k < |ids| ==> ids[k] < |names|
    ensures SavedIds(names, PlanNames(names, ids)) == ids
  {
    var r := SavedIds(names, PlanNames(names, ids));
    forall x ensures x in r <==> x in ids {
      if x in r {
        var i :| 0 <= i < |names| && i in ids && names[i] == names[x];
        assert i == x;
      }
    }
    AscendingByElements(r, ids);
  }

  // ---------------------------------------------------------------------------
  // Scoring a candidate
  // ---------------------------------------------------------------------------

  /** `union_weights`: the total ingredient count of a recipe. */
  function RowSum(row: seq<nat>): nat
  {
    if row == [] then 0 else RowSum(row[..|row| - 1]) + row[|row| - 1]
  }

  /** The union weight is zero exactly for a recipe without ingredients. */
  lemma {:induction false} RowSumZero(row: seq<nat>)
    ensures RowSum(row) == 0 <==> forall c :: 0 <= c < |row| ==> row[c] == 0
  {
    if row != [] {
      var m := |row| - 1;
      RowSumZero(row[..m]);
      assert forall c :: 0 <= c < m ==> row[..m][c] == row[c];
    }
  }

  function Entry(counts: seq<seq<nat>>, i: nat, c: nat): nat
  {
    if i < |counts| && c < |counts[i]| then counts[i][c] else 0
  }

  /** The plan's total count in column `c`. */
  function ColumnTotal(counts: seq<seq<nat>>, plan: seq<nat>, c: nat): nat
  {
    if plan == [] then 0
    else ColumnTotal(counts, plan[..|plan| - 1], c) + Entry(counts, plan[|plan| - 1], c)
  }

  /** The ingredient of column `c` is already in the plan: its total there is at least one. */
  predicate InSupport(counts: seq<seq<nat>>, plan: seq<nat>, c: nat) {
    ColumnTotal(counts, plan, c) >= 1
  }

  /** An ingredient is in the support exactly when some planned recipe uses it. */
  lemma {:induction false} SupportIsSharedIngredient(counts: seq<seq<nat>>, plan: seq<nat>, c: nat)
    ensures InSupport(counts, plan, c) <==> exists k :: 0 <= k < |plan| && Entry(counts, plan[k], c) > 0
  {
    if plan != [] {
      var n := |plan| - 1;
      SupportIsSharedIngredient(counts, plan[..n], c);
      assert forall k :: 0 <= k < n ==> plan[..n][k] == plan[k];
    }
  }

  /**
   * `intersection_weights`: the candidate's counts in the support columns. It
   * never exceeds the union weight.
   */
  function Overlap(row: seq<nat>, counts: seq<seq<nat>>, plan: seq<nat>): (n: nat)
    ensures n <= RowSum(row)
  {
    if row == [] then 0
    else
      var m := |row| - 1;
      Overlap(row[..m], counts, plan) + (if InSupport(counts, plan, m) then row[m] else 0)
  }

  /**
   * The intersection weight equals the union weight when every ingredient of
   * the candidate is in the support, and is zero when none is.
   */
  lemma {:induction false} OverlapExtremes(row: seq<nat>, counts: seq<seq<nat>>, plan: seq<nat>)
    ensures (forall c :: 0 <= c < |row| && row[c] > 0 ==> InSupport(counts, plan, c))
      ==> Overlap(row, counts, plan) == RowSum(row)
    ensures (forall c :: 0 <= c < |row| && row[c] > 0 ==> !InSupport(counts, plan, c))
      ==> Overlap(row, counts, plan) == 0
  {
    if row != [] {
      var m := |row| - 1;
      OverlapExtremes(row[..m], counts, plan);
      assert forall c :: 0 <= c < m ==> row[..m][c] == row[c];
    }
  }

  /** The unperturbed score `intersection_weight / union_weight` of a recipe with some ingredient. */
  function Ratio(counts: seq<seq<nat>>, plan: seq<nat>, i: nat): (q: real)
    requires i < |counts| && RowSum(counts[i]) > 0
    ensures 0.0 <= q <= 1.0
  {
    var o, t := Overlap(counts[i], counts, plan) as real, RowSum(counts[i]) as real;
    QuotientWithinUnit(o, t);
    o / t
  }

  lemma QuotientWithinUnit(a: real, b: real)
    requires 0.0 <= a <= b && 0.0 < b
    ensures 0.0 <= a / b <= 1.0
  {
    assert a / b * b == a;
  }

  /**
   * `potential_meal_plans` at row `i`: no score for plan members (they are not
   * candidates) and for recipes without ingredients (0 / 0 is NaN, which the
   * descending sort puts last); the weighted ratio otherwise, which lies
   * between zero and the draw.
   */
  function Score(counts: seq<seq<nat>>, plan: seq<nat>, w: seq<real>, i: nat): (r: Option<real>)
    requires i < |counts| && |w| == |counts|
    ensures r.None? <==> i in plan || RowSum(counts[i]) == 0
    ensures r.Some? && 0.0 <= w[i] ==> 0.0 <= r.value <= w[i]
  {
    if i in plan || RowSum(counts[i]) == 0 then None
    else
      WeightedWithinDraw(counts, plan, w, i);
      Some(Weighted(counts, plan, w, i))
  }

  lemma WeightedWithinDraw(counts: seq<seq<nat>>, plan: seq<nat>, w: seq<real>, i: nat)
    requires i < |counts| && |w| == |counts| && RowSum(counts[i]) > 0
    ensures 0.0 <= w[i] ==> 0.0 <= Weighted(counts, plan, w, i) <= w[i]
  {
    if 0.0 <= w[i] {
      ProductWithin(Ratio(counts, plan, i), w[i]);
    }
  }

  lemma ProductWithin(q: real, d: real)
    requires 0.0 <= q <= 1.0 && 0.0 <= d
    ensures 0.0 <= q * d <= d
  {
    ScaleMonotone(d, 0.0, q);
    ScaleMonotone(d, q, 1.0);
    assert q * d == d * q;
  }

  /** A candidate's ratio times its random draw. */
  function Weighted(counts: seq<seq<nat>>, plan: seq<nat>, w: seq<real>, i: nat): real
    requires i < |counts| && |w| == |counts| && RowSum(counts[i]) > 0
  {
    Ratio(counts, plan, i) * w[i]
  }

  function Scores(counts: seq<seq<nat>>, plan: seq<nat>, w: seq<real>): (s: seq<Option<real>>)
    requires |w| == |counts|
    ensures |s| == |counts|
  {
    seq(|counts|, i requires 0 <= i < |counts| => Score(counts, plan, w, i))
  }

  /**
   * The first row of the descending sort, among the scored rows: a row with
   * the highest score; of several, the first (the sort's order among ties is
   * not specified). None when no row has a score.
   */
  function FirstMax(s: seq<Option<real>>): (k: Option<nat>)
    ensures k.Some? ==> k.value < |s| && s[k.value].Some?
  {
    if s == [] then None
    else
      var n := |s| - 1;
      var k := FirstMax(s[..n]);
      assert k.Some? ==> s[..n][k.value] == s[k.value];
      if s[n].None? then k
      else if k.None? || s[n].value > s[k.value].value then Some(n)
      else k
  }

  /**
   * FirstMax finds nothing exactly when no row is scored; otherwise its row
   * scores at least as much as every scored row and more than every scored
   * row before it.
   */
  lemma {:induction false} FirstMaxIsFirstMaximum(s: seq<Option<real>>)
    ensures FirstMax(s).None? <==> forall j :: 0 <= j < |s| ==> s[j].None?
    ensures FirstMax(s).Some? ==> forall j :: 0 <= j < |s| && s[j].Some? ==> s[j].value <= s[FirstMax(s).value].value
    ensures FirstMax(s).Some? ==> forall j :: 0 <= j < FirstMax(s).value && s[j].Some? ==> s[j].value < s[FirstMax(s).value].value
  {
    if s != [] {
      var n := |s| - 1;
      FirstMaxIsFirstMaximum(s[..n]);
      assert forall j :: 0 <= j < n ==> s[..n][j] == s[j];
    }
  }

  /** The ids a plan holds, as a set. */
  function Elements(p: seq<nat>): (r: set<nat>)
    ensures forall x :: x in r <==> x in p
  {
    if p == [] then {}
    else
      var n := |p| - 1;
      assert p == p[..n] + [p[n]];
      Elements(p[..n]) + {p[n]}
  }

  lemma {:induction false} ElementsAtMostLength(p: seq<nat>)
    ensures |Elements(p)| <= |p|
  {
    if p != [] {
      ElementsAtMostLength(p[..|p| - 1]);
    }
  }

  /** The ids `0 .. n - 1`. */
  function Range(n: nat): (r: set<nat>)
    ensures forall x: nat :: x in r <==> x < n
    ensures |r| == n
  {
    if n == 0 then {}
    else
      var r := Range(n - 1);
      assert n - 1 !in r;
      r + {n - 1}
  }

  lemma {:induction false} SubsetAtMost(a: set<nat>, b: set<nat>)
    requires a <= b
    ensures |a| <= |b|
    decreases |a|
  {
    if a != {} {
      var x :| x in a;
      SubsetAtMost(a - {x}, b - {x});
    }
  }

  /** A plan of distinct ids smaller than the table leaves some row out. */
  lemma CandidateLeft(counts: seq<seq<nat>>, plan: seq<nat>)
    requires ValidIds(counts, plan) && |plan| < |counts|
    ensures exists i :: 0 <= i < |counts| && i !in plan
  {
    var inPlan := Elements(plan);
    ElementsAtMostLength(plan);
    assert !(Range(|counts|) <= inPlan) by {
      if Range(|counts|) <= inPlan {
        SubsetAtMost(Range(|counts|), inPlan);
      }
    }
    var i :| i in Range(|counts|) && i !in inPlan;
  }

  /** The first row from `i` on, in table order, that is not in the plan. */
  function FirstOutside(plan: seq<nat>, n: nat, i: nat): (r: nat)
    requires i <= n && exists j :: i <= j < n && j !in plan
    ensures i <= r < n && r !in plan
    decreases n - i
  {
    if i !in plan then i else FirstOutside(plan, n, i + 1)
  }

  /** Every row FirstOutside passes over is in the plan. */
  lemma {:induction false} FirstOutsideIsFirst(plan: seq<nat>, n: nat, i: nat)
    requires i <= n && exists j :: i <= j < n && j !in plan
    ensures forall j :: i <= j < FirstOutside(plan, n, i) ==> j in plan
    decreases n - i
  {
    if i in plan {
      FirstOutsideIsFirst(plan, n, i + 1);
    }
  }

  /**
   * `result`: the first row of the descending sort of the candidates' scores.
   * While some candidate has ingredients, that is the first of the highest
   * scores. Once only recipes without ingredients are left, every score is
   * NaN, the sort keeps the candidates in table order and the first one is
   * taken.
   */
  function Pick(counts: seq<seq<nat>>, plan: seq<nat>, w: seq<real>): (r: nat)
    requires |w| == |counts|
    requires ValidIds(counts, plan) && |plan| < |counts|
    ensures r < |counts| && r !in plan
  {
    CandidateLeft(counts, plan);
    var best := FirstMax(Scores(counts, plan, w));
    if best.Some? then best.value else FirstOutside(plan, |counts|, 0)
  }

  /** A recipe without ingredients is picked only when every candidate is one. */
  lemma PickEmptyOnlyWhenAllEmpty(counts: seq<seq<nat>>, plan: seq<nat>, w: seq<real>)
    requires |w| == |counts|
    requires ValidIds(counts, plan) && |plan| < |counts|
    ensures RowSum(counts[Pick(counts, plan, w)]) == 0 ==>
      forall i :: 0 <= i < |counts| && i !in plan ==> RowSum(counts[i]) == 0
  {
    var s := Scores(counts, plan, w);
    var best := FirstMax(s);
    if best.Some? {
      assert s[best.value] == Score(counts, plan, w, best.value);
    } else {
      FirstMaxIsFirstMaximum(s);
      forall i | 0 <= i < |counts| && i !in plan
        ensures RowSum(counts[i]) == 0
      {
        assert s[i] == Score(counts, plan, w, i);
      }
    }
  }

  /** Once no candidate has ingredients, the pick is the first candidate in table order. */
  lemma PickWhenOnlyEmptyRowsLeft(counts: seq<seq<nat>>, plan: seq<nat>, w: seq<real>)
    requires |w| == |counts|
    requires ValidIds(counts, plan) && |plan| < |counts|
    requires forall i :: 0 <= i < |counts| && i !in plan ==> RowSum(counts[i]) == 0
    ensures forall j :: 0 <= j < Pick(counts, plan, w) ==> j in plan
  {
    var s := Scores(counts, plan, w);
    FirstMaxIsFirstMaximum(s);
    assert s[Pick(counts, plan, w)].None?;
    assert FirstMax(s).None?;
    CandidateLeft(counts, plan);
    FirstOutsideIsFirst(plan, |counts|, 0);
  }

  /**
   * The added recipe beats every other candidate with ingredients (a zero-ingredient
   * recipe is never taken while one with ingredients is left), and beats strictly
   * every candidate before it in table order.
   */
  lemma PickMaximisesScore(counts: seq<seq<nat>>, plan: seq<nat>, w: seq<real>, i: nat)
    requires |w| == |counts|
    requires ValidIds(counts, plan) && |plan| < |counts|
    requires i < |counts| && i !in plan && RowSum(counts[i]) > 0
    ensures var r := Pick(counts, plan, w);
      && RowSum(counts[r]) > 0
      && Weighted(counts, plan, w, i) <= Weighted(counts, plan, w, r)
      && (i < r ==> Weighted(counts, plan, w, i) < Weighted(counts, plan, w, r))
  {
    var s := Scores(counts, plan, w);
    FirstMaxIsFirstMaximum(s);
    assert s[i] == Score(counts, plan, w, i);
    var r := FirstMax(s).value;
    assert r == Pick(counts, plan, w);
    assert s[r] == Score(counts, plan, w, r);
    CandidateScore(counts, plan, w, i);
    CandidateScore(counts, plan, w, r);
  }

  lemma CandidateScore(counts: seq<seq<nat>>, plan: seq<nat>, w: seq<real>, i: nat)
    requires |w| == |counts|
    requires i < |counts| && i !in plan && RowSum(counts[i]) > 0
    ensures Scores(counts, plan, w)[i] == Some(Weighted(counts, plan, w, i))
  {
  }

  /** Two draws within the randomisation range differ by at most the factor (1 + r) / (1 - r). */
  lemma DrawFactor(qi: real, wi: real, qr: real, wr: real)
    requires 0.0 <= qi && 0.0 <= qr
    requires 1.0 - RandomizationStrength <= wi && wr < 1.0 + RandomizationStrength
    requires qi * wi <= qr * wr
    ensures qi * (1.0 - RandomizationStrength) <= qr * (1.0 + RandomizationStrength)
  {
    ScaleMonotone(qi, 1.0 - RandomizationStrength, wi);
    ScaleMonotone(qr, wr, 1.0 + RandomizationStrength);
  }

  lemma ScaleMonotone(a: real, b: real, c: real)
    requires 0.0 <= a && b <= c
    ensures a * b <= a * c
  {
    var d := c - b;
    assert a * c == a * b + a * d;
    assert a * d >= 0.0;
  }

  /**
   * With draws in [1 - r, 1 + r), the added recipe's unperturbed score is at
   * least (1 - r) / (1 + r) times that of any other candidate with ingredients.
   */
  lemma PickWithinRandomisationFactor(counts: seq<seq<nat>>, plan: seq<nat>, w: seq<real>, i: nat)
    requires |w| == |counts|
    requires forall j :: 0 <= j < |w| ==> 1.0 - RandomizationStrength <= w[j] < 1.0 + RandomizationStrength
    requires ValidIds(counts, plan) && |plan| < |counts|
    requires i < |counts| && i !in plan && RowSum(counts[i]) > 0
    ensures RowSum(counts[Pick(counts, plan, w)]) > 0
    ensures Ratio(counts, plan, i) * (1.0 - RandomizationStrength)
      <= Ratio(counts, plan, Pick(counts, plan, w)) * (1.0 + RandomizationStrength)
  {
    var r := Pick(counts, plan, w);
    PickMaximisesScore(counts, plan, w, i);
    WeightedFactor(counts, plan, w, i, r);
  }

  lemma WeightedFactor(counts: seq<seq<nat>>, plan: seq<nat>, w: seq<real>, i: nat, r: nat)
    requires |w| == |counts| && i < |counts| && r < |counts|
    requires 1.0 - RandomizationStrength <= w[i] && w[r] < 1.0 + RandomizationStrength
    requires RowSum(counts[i]) > 0 && RowSum(counts[r]) > 0
    requires Weighted(counts, plan, w, i) <= Weighted(counts, plan, w, r)
    ensures Ratio(counts, plan, i) * (1.0 - RandomizationStrength)
      <= Ratio(counts, plan, r) * (1.0 + RandomizationStrength)
  {
    DrawFactor(Ratio(counts, plan, i), w[i], Ratio(counts, plan, r), w[r]);
  }

  /** Recipes A = {eggs, milk}, B = {milk, flour}, C = {eggs, flour, sugar} over the vocabulary [eggs, flour, milk, sugar]. */
  function ExampleCounts(): seq<seq<nat>>
  {
    [[1, 0, 1, 0], [0, 1, 1, 0], [1, 1, 0, 1]]
  }

  lemma ExampleRowSums()
    ensures RowSum(ExampleCounts()[0]) == 2
    ensures RowSum(ExampleCounts()[1]) == 2
    ensures RowSum(ExampleCounts()[2]) == 3
  {
    assert [1, 0, 1, 0][..3] == [1, 0, 1] && [1, 0, 1][..2] == [1, 0] && [1, 0][..1] == [1] && [1][..0] == [];
    assert [0, 1, 1, 0][..3] == [0, 1, 1] && [0, 1, 1][..2] == [0, 1] && [0, 1][..1] == [0] && [0][..0] == [];
    assert [1, 1, 0, 1][..3] == [1, 1, 0] && [1, 1, 0][..2] == [1, 1] && [1, 1][..1] == [1];
    assert RowSum([1, 0, 1]) == 2 && RowSum([0, 1, 1]) == 2 && RowSum([1, 1, 0]) == 2;
  }

  lemma ExampleOverlaps()
    ensures Overlap(ExampleCounts()[1], ExampleCounts(), [0]) == 1
    ensures Overlap(ExampleCounts()[2], ExampleCounts(), [0]) == 1
  {
    var counts := ExampleCounts();
    assert [0][..0] == [];
    assert InSupport(counts, [0], 0) && !InSupport(counts, [0], 1);
    assert InSupport(counts, [0], 2) && !InSupport(counts, [0], 3);
    assert [0, 1, 1, 0][..3] == [0, 1, 1] && [0, 1, 1][..2] == [0, 1] && [0, 1][..1] == [0];
    assert [1, 1, 0, 1][..3] == [1, 1, 0] && [1, 1, 0][..2] == [1, 1] && [1, 1][..1] == [1] && [1][..0] == [];
    assert Overlap([0], counts, [0]) == 0 && Overlap([0, 1], counts, [0]) == 0;
    assert Overlap([1], counts, [0]) == 1 && Overlap([1, 1], counts, [0]) == 1;
  }

  /**
   * Three recipes A = {eggs, milk}, B = {milk, flour}, C = {eggs, flour, sugar}
   * over the vocabulary [eggs, flour, milk, sugar]: from the plan [A] with equal
   * draws, B (score 1/2) is added rather than C (score 1/3).
   */
  lemma EqualDrawsPickBestOverlap(c: real)
    requires c > 0.0
    ensures Pick(ExampleCounts(), [0], [c, c, c]) == 1
  {
    var counts := ExampleCounts();
    ExampleRowSums();
    ExampleOverlaps();
    var s := Scores(counts, [0], [c, c, c]);
    assert s[0] == None;
    assert Ratio(counts, [0], 1) == 1.0 / 2.0;
    assert Weighted(counts, [0], [c, c, c], 1) == c / 2.0;
    assert s[1] == Score(counts, [0], [c, c, c], 1);
    assert s[1] == Some(c / 2.0);
    assert s[2] == Some(c / 3.0);
    FirstMaxIsFirstMaximum(s);
  }

  // ---------------------------------------------------------------------------
  // Growing the plan
  // ---------------------------------------------------------------------------

  predicate ValidIds(counts: seq<seq<nat>>, ids: seq<nat>) {
    Distinct(ids) && forall k :: 0 <= k < |ids| ==> ids[k] < |counts|
  }

  /** One draw per row for each step. */
  predicate DrawShape(counts: seq<seq<nat>>, weights: seq<seq<real>>) {
    forall k :: 0 <= k < |weights| ==> |weights[k]| == |counts|
  }

  /** The seeds after `k` growth steps. */
  function Grown(counts: seq<seq<nat>>, seeds: seq<nat>, weights: seq<seq<real>>, k: nat): (p: seq<nat>)
    requires ValidIds(counts, seeds)
    requires |seeds| + k <= |counts|
    requires k <= |weights| && DrawShape(counts, weights)
    ensures |p| == |seeds| + k
    ensures p[..|seeds|] == seeds
    ensures ValidIds(counts, p)
  {
    if k == 0 then seeds
    else
      var q := Grown(counts, seeds, weights, k - 1);
      var r := Pick(counts, q, weights[k - 1]);
      assert (q + [r])[..|seeds|] == q[..|seeds|];
      q + [r]
  }

  function Insert(x: nat, s: seq<nat>): seq<nat>
  {
    if s == [] then [x]
    else if x <= s[0] then [x] + s
    else [s[0]] + Insert(x, s[1..])
  }

  /** Python's `sorted` on the plan, as an insertion sort: an ascending permutation of its input. */
  function SortAsc(s: seq<nat>): (r: seq<nat>)
    ensures Ascending(r)
    ensures multiset(r) == multiset(s)
  {
    if s == [] then []
    else
      var t := SortAsc(s[1..]);
      SortStep(s, t);
      Insert(s[0], t)
  }

  /** Inserting the head into the sorted tail sorts the whole. */
  lemma SortStep(s: seq<nat>, t: seq<nat>)
    requires s != [] && Ascending(t) && multiset(t) == multiset(s[1..])
    ensures Ascending(Insert(s[0], t)) && multiset(Insert(s[0], t)) == multiset(s)
  {
    InsertIntoAscending(s[0], t);
    InsertPermutes(s[0], t);
    assert s == [s[0]] + s[1..];
  }

  /** Sorting a plan that is already in ascending order leaves it as it is. */
  lemma {:induction false} SortAscKeepsAscending(s: seq<nat>)
    requires Ascending(s)
    ensures SortAsc(s) == s
  {
    if s != [] {
      AscendingTail(s);
      SortAscKeepsAscending(s[1..]);
      assert s == [s[0]] + s[1..];
    }
  }

  /** The tail of an ascending plan is ascending, and the head goes in front of it. */
  lemma AscendingTail(s: seq<nat>)
    requires Ascending(s) && s != []
    ensures Ascending(s[1..])
    ensures Insert(s[0], s[1..]) == [s[0]] + s[1..]
  {
    assert forall k :: 0 <= k < |s| - 1 ==> s[1..][k] == s[k + 1];
  }

  lemma {:induction false} InsertPermutes(x: nat, s: seq<nat>)
    ensures multiset(Insert(x, s)) == multiset(s) + multiset{x}
  {
    if s != [] && x > s[0] {
      InsertPermutes(x, s[1..]);
      assert s == [s[0]] + s[1..];
    }
  }

  lemma {:induction false} InsertIntoAscending(x: nat, s: seq<nat>)
    requires Ascending(s)
    ensures Ascending(Insert(x, s))
  {
    if s != [] && x > s[0] {
      AscendingTail(s);
      InsertIntoAscending(x, s[1..]);
      HeadBelowInsert(x, s);
      ConsAscending(s[0], Insert(x, s[1..]));
    }
  }

  /** The head of an ascending plan is at most everything inserting a larger id into its tail gives. */
  lemma HeadBelowInsert(x: nat, s: seq<nat>)
    requires Ascending(s) && s != [] && x > s[0]
    ensures forall k :: 0 <= k < |Insert(x, s[1..])| ==> s[0] <= Insert(x, s[1..])[k]
  {
    var t := Insert(x, s[1..]);
    InsertPermutes(x, s[1..]);
    forall k | 0 <= k < |t| ensures s[0] <= t[k] {
      assert t[k] in multiset(t);
      if t[k] != x {
        assert t[k] in s[1..];
      }
    }
  }

  lemma ConsAscending(h: nat, t: seq<nat>)
    requires Ascending(t) && forall k :: 0 <= k < |t| ==> h <= t[k]
    ensures Ascending([h] + t)
  {
    var r := [h] + t;
    forall i, j | 0 <= i < j < |r| ensures r[i] <= r[j] {
      assert r[j] == t[j - 1];
      if i > 0 {
        assert r[i] == t[i - 1];
      }
    }
  }

  lemma {:induction false} DistinctMultiplicity(s: seq<nat>, v: nat)
    requires Distinct(s)
    ensures multiset(s)[v] <= 1
  {
    if s != [] {
      assert s == [s[0]] + s[1..];
      DistinctMultiplicity(s[1..], v);
      if s[0] == v {
        assert v !in s[1..];
      }
    }
  }

  lemma RepeatMultiplicity(s: seq<nat>, i: nat, j: nat)
    requires i < j < |s| && s[i] == s[j]
    ensures multiset(s)[s[i]] >= 2
  {
    assert s == s[..j] + s[j..];
    assert s[i] in s[..j];
    assert s[j] in s[j..];
  }

  /** Sorting ids without repetition gives a strictly ascending permutation of them. */
  lemma SortDistinct(s: seq<nat>)
    requires Distinct(s)
    ensures StrictlyAscending(SortAsc(s))
  {
    var r := SortAsc(s);
    forall i, j | 0 <= i < j < |r| ensures r[i] < r[j] {
      if r[i] == r[j] {
        RepeatMultiplicity(r, i, j);
        DistinctMultiplicity(s, r[i]);
        assert false;
      }
    }
  }

  /** Sorting a grown plan keeps its size, its ids and its seeds, and orders it strictly. */
  lemma SortedPlan(counts: seq<seq<nat>>, seeds: seq<nat>, p: seq<nat>)
    requires ValidIds(counts, p)
    requires |seeds| <= |p| && p[..|seeds|] == seeds
    ensures |SortAsc(p)| == |p|
    ensures StrictlyAscending(SortAsc(p))
    ensures forall k :: 0 <= k < |SortAsc(p)| ==> SortAsc(p)[k] < |counts|
    ensures forall x :: x in seeds ==> x in SortAsc(p)
  {
    var r := SortAsc(p);
    SortDistinct(p);
    assert |r| == |multiset(r)| == |multiset(p)| == |p|;
    forall x | x in seeds ensures x in r {
      assert x in p[..|seeds|];
      assert x in multiset(r);
    }
    forall k | 0 <= k < |r| ensures r[k] < |counts| {
      assert r[k] in multiset(p);
    }
  }

  /** One step of growth appends the pick for the plan so far. */
  lemma GrownStep(counts: seq<seq<nat>>, seeds: seq<nat>, weights: seq<seq<real>>, k: nat)
    requires ValidIds(counts, seeds)
    requires |seeds| + k < |counts| && k < |weights| && DrawShape(counts, weights)
    ensures Grown(counts, seeds, weights, k + 1)
      == Grown(counts, seeds, weights, k) + [Pick(counts, Grown(counts, seeds, weights, k), weights[k])]
  {
  }

  /**
   * The growth loop: one pick per missing recipe, each appended to the plan,
   * until the plan holds `target` recipes. The loop's queue never holds more
   * than one plan, so it is a single variable here.
   */
  method ExtendPlan(counts: seq<seq<nat>>, seeds: seq<nat>, target: nat, weights: seq<seq<real>>)
    returns (current: seq<nat>)
    requires ValidIds(counts, seeds)
    requires |seeds| < target <= |counts|
    requires target - |seeds| <= |weights| && DrawShape(counts, weights)
    ensures current == Grown(counts, seeds, weights, target - |seeds|)
  {
    current := seeds;
    for step := 0 to target - |seeds|
      invariant current == Grown(counts, seeds, weights, step)
    {
      GrownStep(counts, seeds, weights, step);
      var result := Pick(counts, current, weights[step]);
      current := current + [result];
    }
  }

  /**
   * Growing the plan and then sorting it: the loop's plan, sorted, is exactly
   * the target size, strictly ascending, inside the table and holds every seed.
   */
  method GrowPlan(counts: seq<seq<nat>>, seeds: seq<nat>, target: nat, weights: seq<seq<real>>)
    returns (plan: seq<nat>)
    requires ValidIds(counts, seeds)
    requires |seeds| < target <= |counts|
    requires target - |seeds| <= |weights| && DrawShape(counts, weights)
    ensures plan == SortAsc(Grown(counts, seeds, weights, target - |seeds|))
    ensures |plan| == target
    ensures StrictlyAscending(plan)
    ensures forall k :: 0 <= k < |plan| ==> plan[k] < |counts|
    ensures forall x :: x in seeds ==> x in plan
  {
    var current := ExtendPlan(counts, seeds, target, weights);
    plan := SortAsc(current);
    SortedPlan(counts, seeds, current);
  }

  /** With the draws equal in the one step, the example's seed A grows to the plan [A, B]. */
  lemma ThreeRecipeExamplePlan(c: real)
    requires c > 0.0
    ensures SortAsc(Grown(ExampleCounts(), [0], [[c, c, c]], 1)) == [0, 1]
  {
    var counts := ExampleCounts();
    EqualDrawsPickBestOverlap(c);
    assert Grown(counts, [0], [[c, c, c]], 0) == [0];
    assert Grown(counts, [0], [[c, c, c]], 1) == [0, 1];
    assert [0, 1][1..] == [1] && [1][1..] == [];
    assert SortAsc([1]) == [1];
  }

  /** Recipes Z = {}, P = {pepper}, Q = {pepper} over the vocabulary [pepper]. */
  function BareSeedCounts(): seq<seq<nat>>
  {
    [[0], [1], [1]]
  }

  /**
   * From the seed Z, which has no ingredients, both P and Q score zero and the
   * first of them, P, is added; P's support then covers Q, and the plan of
   * three is [Z, P, Q]. Seeds without ingredients do not stop the plan from
   * growing.
   */
  lemma BareSeedExamplePlan(c: real)
    requires c > 0.0
    ensures SortAsc(Grown(BareSeedCounts(), [0], [[c, c, c], [c, c, c]], 2)) == [0, 1, 2]
  {
    BareSeedGrown(c);
    SortAscKeepsAscending([0, 1, 2]);
  }

  lemma BareSeedGrown(c: real)
    requires c > 0.0
    ensures Grown(BareSeedCounts(), [0], [[c, c, c], [c, c, c]], 2) == [0, 1, 2]
  {
    var counts := BareSeedCounts();
    var ws := [[c, c, c], [c, c, c]];
    BareSeedFirstPick(c);
    BareSeedSecondPick(c);
    assert Grown(counts, [0], ws, 0) == [0];
    assert Grown(counts, [0], ws, 1) == [0, 1];
  }

  lemma BareSeedFirstPick(c: real)
    requires c > 0.0
    ensures Pick(BareSeedCounts(), [0], [c, c, c]) == 1
  {
    var counts := BareSeedCounts();
    var w := [c, c, c];
    assert [1][..0] == [] && [0][..0] == [];
    assert RowSum([1]) == 1 && RowSum([0]) == 0;
    assert !InSupport(counts, [0], 0);
    assert Overlap([1], counts, [0]) == 0;
    var s := Scores(counts, [0], w);
    assert s[0] == None;
    assert s[1] == Score(counts, [0], w, 1) && Weighted(counts, [0], w, 1) == 0.0;
    assert s[2] == Score(counts, [0], w, 2) && Weighted(counts, [0], w, 2) == 0.0;
    FirstMaxIsFirstMaximum(s);
  }

  lemma BareSeedSecondPick(c: real)
    requires c > 0.0
    ensures Pick(BareSeedCounts(), [0, 1], [c, c, c]) == 2
  {
    var counts := BareSeedCounts();
    var w := [c, c, c];
    assert [1][..0] == [];
    assert RowSum([1]) == 1;
    var t := Scores(counts, [0, 1], w);
    assert t[0] == None && t[1] == None;
    assert t[2] == Score(counts, [0, 1], w, 2);
    FirstMaxIsFirstMaximum(t);
  }

  // ---------------------------------------------------------------------------
  // The builder and its session state
  // ---------------------------------------------------------------------------

  datatype PlanOutcome =
    | NoSelection             // "Select a Recipe or Ingredient to See a Meal Plan"
    | NoCandidateLeft         // the IndexError of taking the first row of an empty sort
    | Planned(ids: seq<nat>)

  /** The random draws growth consumes: one per row for each of the missing recipes. */
  predicate CanGrow(counts: seq<seq<nat>>, seedCount: nat, target: nat, weights: seq<seq<real>>) {
    target - seedCount <= |weights| && DrawShape(counts, weights)
  }

  /**
   * What `get_meal_plan` settles on: the saved plan when there is one;
   * otherwise nothing without a seed, the seeds when they already fill the
   * plan, the IndexError when the table runs out of candidates first, and the
   * sorted grown plan in every other case.
   */
  function MealPlan(
    target: nat,
    names: seq<string>,
    counts: seq<seq<nat>>,
    selected: seq<bool>,
    saved: seq<string>,
    weights: seq<seq<real>>): PlanOutcome
    requires |counts| == |names| && |selected| == |names|
    requires saved == [] && 0 < |Seeds(selected)| < target ==> CanGrow(counts, |Seeds(selected)|, target, weights)
  {
    var initial := Seeds(selected);
    if saved != [] then Planned(SavedIds(names, saved))
    else if initial == [] then NoSelection
    else if |initial| >= target then Planned(initial)
    else if target > |counts| then NoCandidateLeft
    else
      assert ValidIds(counts, initial);
      Planned(SortAsc(Grown(counts, initial, weights, target - |initial|)))
  }

  /**
   * The four paths of the builder: a saved plan gives its ids; no seed gives
   * no plan; seeds that fill the plan are the plan as they are; otherwise the
   * plan is grown to exactly the target size, strictly ascending and holding
   * every seed, unless the table has fewer rows than the target.
   */
  lemma MealPlanPaths(
    target: nat,
    names: seq<string>,
    counts: seq<seq<nat>>,
    selected: seq<bool>,
    saved: seq<string>,
    weights: seq<seq<real>>)
    requires |counts| == |names| && |selected| == |names|
    requires saved == [] && 0 < |Seeds(selected)| < target ==> CanGrow(counts, |Seeds(selected)|, target, weights)
    ensures var outcome := MealPlan(target, names, counts, selected, saved, weights);
      && (saved != [] ==> outcome == Planned(SavedIds(names, saved)))
      && (saved == [] && Seeds(selected) == [] ==> outcome == NoSelection)
      && (saved == [] && Seeds(selected) != [] && |Seeds(selected)| >= target ==> outcome == Planned(Seeds(selected)))
      && (saved == [] && 0 < |Seeds(selected)| < target && target > |counts| ==> outcome == NoCandidateLeft)
      && (saved == [] && 0 < |Seeds(selected)| < target <= |counts| ==>
            && outcome.Planned?
            && |outcome.ids| == target
            && StrictlyAscending(outcome.ids)
            && (forall k :: 0 <= k < |outcome.ids| ==> outcome.ids[k] < |counts|)
            && (forall x :: x in Seeds(selected) ==> x in outcome.ids))
  {
    var initial := Seeds(selected);
    if saved == [] && 0 < |initial| < target <= |counts| {
      assert ValidIds(counts, initial);
      var grown := Grown(counts, initial, weights, target - |initial|);
      SortedPlan(counts, initial, grown);
    }
  }

  /** The state `get_meal_plan` keeps between calls (the global `current_meal_plan`). */
  class Session {
    var currentMealPlan: seq<string>

    constructor ()
      ensures currentMealPlan == []
    {
      currentMealPlan := [];
    }

    /**
     * `get_meal_plan` without its chart: it returns `MealPlan` (whose paths
     * `MealPlanPaths` states), and a plan becomes the current one by its
     * recipe names; the early return and the IndexError leave the current
     * plan as it was.
     */
    method GetMealPlan(
      target: nat,
      names: seq<string>,
      counts: seq<seq<nat>>,
      selected: seq<bool>,
      saved: seq<string>,
      weights: seq<seq<real>>)
      returns (outcome: PlanOutcome)
      requires |counts| == |names| && |selected| == |names|
      requires saved == [] && 0 < |Seeds(selected)| < target ==>
        CanGrow(counts, |Seeds(selected)|, target, weights)
      modifies this
      ensures outcome == MealPlan(target, names, counts, selected, saved, weights)
      ensures outcome.Planned? ==> currentMealPlan == PlanNames(names, outcome.ids)
      ensures !outcome.Planned? ==> currentMealPlan == old(currentMealPlan)
    {
      var newMealPlan: seq<nat>;
      if saved != [] {
        newMealPlan := SavedIds(names, saved);
      } else {
        var initial := Seeds(selected);
        if initial == [] {
          return NoSelection;
        }
        if |initial| >= target {
          newMealPlan := initial;
        } else if target > |counts| {
          // every row joins the plan before it is complete; the next step sorts no candidate
          return NoCandidateLeft;
        } else {
          assert ValidIds(counts, initial);
          newMealPlan := GrowPlan(counts, initial, target, weights);
        }
      }
      currentMealPlan := PlanNames(names, newMealPlan);
      outcome := Planned(newMealPlan);
    }
  }
}
