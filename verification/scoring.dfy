/** Scoring a partition: team strengths, tier tallies and the combined
    balance score (lower is better). Python's float divisions are kept
    exact as `real`. */
module Scoring {
  import opened Roster
  import opened Arith

  // ---------------------------------------------------------------------
  // `calculate_team_metrics`
  // ---------------------------------------------------------------------

  /** Total strength of a team and how many of its members carry each tier. */
  datatype TeamMetrics = TeamMetrics(strength: int, tierCounts: map<string, nat>)

  /** The tier dictionary, each tier counted once per player of that tier. */
  function TierTally(team: Team): map<string, nat>
    decreases |team|
  {
    if team == [] then map[]
    else
      var m := TierTally(team[..|team| - 1]);
      var tier := team[|team| - 1].tier;
      m[tier := (if tier in m then m[tier] else 0) + 1]
  }

  /** A tier is a key of the tally exactly when some member carries it,
      and its entry is the number of members that do. */
  lemma {:induction false} TierTallyCounts(team: Team)
    ensures forall t :: t in TierTally(team) <==> Count(team, t) > 0
    ensures forall t :: t in TierTally(team) ==> TierTally(team)[t] == Count(team, t)
    decreases |team|
  {
    if team != [] {
      var rest := team[..|team| - 1];
      TierTallyCounts(rest);
      TallyStep(rest, team[|team| - 1]);
      assert rest + [team[|team| - 1]] == team;
    }
  }

  lemma TallyStep(rest: Team, p: Player)
    ensures forall t :: Count(rest + [p], t) == Count(rest, t) + (if p.tier == t then 1 else 0)
  {
    forall t {
      CountAppend(rest, p, t);
    }
    assert (rest + [p])[..|rest + [p]| - 1] == rest;
  }

  function TeamMetricsOf(team: Team): TeamMetrics
  {
    TeamMetrics(Strength(team), TierTally(team))
  }

  /** A team's count of one tier, zero where the tier is absent. */
  function Lookup(m: TeamMetrics, tier: string): nat
  {
    if tier in m.tierCounts then m.tierCounts[tier] else 0
  }

  /** The metrics report the team's strength and, for every tier, its count. */
  lemma TeamMetricsCounts(team: Team, tier: string)
    ensures TeamMetricsOf(team).strength == SumBy(team, ScoreOf)
    ensures Lookup(TeamMetricsOf(team), tier) == Count(team, tier)
  {
    TierTallyCounts(team);
  }

  /** Reordering a team's members does not change its metrics. */
  lemma TeamMetricsPermutation(a: Team, b: Team)
    requires multiset(a) == multiset(b)
    ensures TeamMetricsOf(a) == TeamMetricsOf(b)
  {
    StrengthPermutation(a, b);
    TallyPermutation(a, b);
  }

  lemma TallyPermutation(a: Team, b: Team)
    requires multiset(a) == multiset(b)
    ensures TierTally(a) == TierTally(b)
  {
    var ma, mb := TierTally(a), TierTally(b);
    TierTallyCounts(a);
    TierTallyCounts(b);
    forall t ensures (t in ma <==> t in mb) && (t in ma ==> ma[t] == mb[t]) {
      CountPermutation(a, b, t);
    }
  }

  // ---------------------------------------------------------------------
  // Sums, means and squared deviations over lists of integers
  // ---------------------------------------------------------------------

  function Sum(xs: seq<int>): int
  {
    if xs == [] then 0 else Sum(xs[..|xs| - 1]) + xs[|xs| - 1]
  }

  function SumSq(xs: seq<int>): int
  {
    if xs == [] then 0 else SumSq(xs[..|xs| - 1]) + xs[|xs| - 1] * xs[|xs| - 1]
  }

  /** The arithmetic mean of `xs`. */
  function Mean(xs: seq<int>): real
    requires |xs| >= 1
  {
    Sum(xs) as real / |xs| as real
  }

  /** The sum of squared deviations of `xs` from `m`. */
  function SqDev(xs: seq<int>, m: real): (r: real)
    ensures r >= 0.0
  {
    if xs == [] then 0.0 else SqDev(xs[..|xs| - 1], m) + Sq(xs[|xs| - 1] as real - m)
  }

  /** The sum of squared deviations expanded around any centre `m`. */
  lemma {:induction false} SqDevExpand(xs: seq<int>, m: real)
    ensures Expanded(SqDev(xs, m), SumSq(xs) as real, Sum(xs) as real, |xs| as real, m)
    decreases |xs|
  {
    if xs != [] {
      SqDevExpand(xs[..|xs| - 1], m);
      SqDevExpandStep(xs, m, SqDev(xs, m), SumSq(xs) as real, Sum(xs) as real, |xs| as real);
    } else {
      ExpandBase(SqDev(xs, m), SumSq(xs) as real, Sum(xs) as real, |xs| as real, m);
    }
  }

  lemma SqDevExpandStep(xs: seq<int>, m: real, a: real, q: real, s: real, k: real)
    requires xs != []
    requires a == SqDev(xs, m) && q == SumSq(xs) as real && s == Sum(xs) as real && k == |xs| as real
    requires var rest := xs[..|xs| - 1];
             Expanded(SqDev(rest, m), SumSq(rest) as real, Sum(rest) as real, |rest| as real, m)
    ensures Expanded(a, q, s, k, m)
  {
    var rest, v := xs[..|xs| - 1], xs[|xs| - 1];
    CastMul(v, v);
    ExpandStep(SqDev(rest, m), SumSq(rest) as real, Sum(rest) as real, |rest| as real, v as real, m, a, q, s, k);
  }

  /** Around the mean: `n * sum((x - mean)^2) == n * sum(x^2) - sum(x)^2`. */
  lemma SqDevClosedForm(xs: seq<int>)
    requires |xs| >= 1
    ensures CentredForm(|xs|, SqDev(xs, Mean(xs)), SumSq(xs), Sum(xs))
  {
    SqDevExpand(xs, Mean(xs));
    AtMean(SqDev(xs, Mean(xs)), SumSq(xs), Sum(xs), |xs|, Mean(xs));
  }

  /** Every term is zero exactly when every value sits on the centre. */
  lemma {:induction false} SqDevZero(xs: seq<int>, m: real)
    ensures SqDev(xs, m) == 0.0 <==> forall i :: 0 <= i < |xs| ==> xs[i] as real == m
    decreases |xs|
  {
    if xs != [] {
      var rest, x := xs[..|xs| - 1], xs[|xs| - 1] as real;
      SqDevZero(rest, m);
      assert forall i :: 0 <= i < |rest| ==> rest[i] == xs[i];
      if x != m {
        SquarePositive(x - m);
      }
    }
  }

  lemma {:induction false} SumConst(xs: seq<int>, v: int)
    requires forall i :: 0 <= i < |xs| ==> xs[i] == v
    ensures Sum(xs) == |xs| * v
    decreases |xs|
  {
    if xs != [] {
      SumConst(xs[..|xs| - 1], v);
    }
  }

  /** A list's squared deviation about its own mean is zero exactly when all
      its values are equal. */
  lemma SqDevMeanZero(xs: seq<int>)
    requires |xs| >= 1
    ensures SqDev(xs, Mean(xs)) == 0.0 <==> AllEqual(xs)
  {
    SqDevZero(xs, Mean(xs));
    if AllEqual(xs) {
      SumConst(xs, xs[0]);
      assert Mean(xs) == xs[0] as real;
    }
  }

  predicate AllEqual(xs: seq<int>)
  {
    forall i, j :: 0 <= i < |xs| && 0 <= j < |xs| ==> xs[i] == xs[j]
  }

  /** The population variance: squared deviations from the mean, averaged. */
  function Variance(xs: seq<int>): (r: real)
    requires |xs| >= 1
    ensures r >= 0.0 && (r == 0.0 <==> SqDev(xs, Mean(xs)) == 0.0)
  {
    DivSign(SqDev(xs, Mean(xs)), |xs| as real);
    SqDev(xs, Mean(xs)) / |xs| as real
  }

  /** `n^2 * variance == n * sum(x^2) - sum(x)^2`. */
  lemma VarianceClosedForm(xs: seq<int>)
    requires |xs| >= 1
    ensures ScaledVariance(|xs|, Variance(xs), SumSq(xs), Sum(xs))
  {
    SqDevClosedForm(xs);
    CentredVariance(|xs|, SqDev(xs, Mean(xs)), SumSq(xs), Sum(xs), Variance(xs));
  }

  /** `max(xs)` */
  function MaxOf(xs: seq<int>): int
    requires |xs| >= 1
  {
    if |xs| == 1 then xs[0]
    else
      var m := MaxOf(xs[..|xs| - 1]);
      if xs[|xs| - 1] > m then xs[|xs| - 1] else m
  }

  /** `max(xs)` is one of the values and no value exceeds it. */
  lemma {:induction false} MaxOfIsMax(xs: seq<int>)
    requires |xs| >= 1
    ensures MaxOf(xs) in xs && forall i :: 0 <= i < |xs| ==> xs[i] <= MaxOf(xs)
  {
    if |xs| > 1 {
      MaxOfIsMax(xs[..|xs| - 1]);
      assert forall i :: 0 <= i < |xs| - 1 ==> xs[..|xs| - 1][i] == xs[i];
    }
  }

  /** `min(xs)` */
  function MinOf(xs: seq<int>): int
    requires |xs| >= 1
  {
    if |xs| == 1 then xs[0]
    else
      var m := MinOf(xs[..|xs| - 1]);
      if xs[|xs| - 1] < m then xs[|xs| - 1] else m
  }

  /** `min(xs)` is one of the values and no value is below it. */
  lemma {:induction false} MinOfIsMin(xs: seq<int>)
    requires |xs| >= 1
    ensures MinOf(xs) in xs && forall i :: 0 <= i < |xs| ==> MinOf(xs) <= xs[i]
  {
    if |xs| > 1 {
      MinOfIsMin(xs[..|xs| - 1]);
      assert forall i :: 0 <= i < |xs| - 1 ==> xs[..|xs| - 1][i] == xs[i];
    }
  }

  /** The spread `max - min` is zero exactly when all values are equal. */
  lemma SpreadZero(xs: seq<int>)
    requires |xs| >= 1
    ensures MaxOf(xs) - MinOf(xs) >= 0
    ensures MaxOf(xs) == MinOf(xs) <==> AllEqual(xs)
  {
    var hi, lo := MaxOf(xs), MinOf(xs);
    MaxOfIsMax(xs);
    MinOfIsMin(xs);
    var i :| 0 <= i < |xs| && xs[i] == hi;
    var j :| 0 <= j < |xs| && xs[j] == lo;
    if AllEqual(xs) {
      assert xs[i] == xs[j];
    }
  }

  // ---------------------------------------------------------------------
  // `evaluate_teams`
  // ---------------------------------------------------------------------

  /** The metrics dictionary `evaluate_teams` returns. */
  datatype Evaluation = Evaluation(strengthVariance: real, strengthDiff: int, tierImbalance: real, score: real)

  /** `set('SABCDEFG')`: only these one-letter tiers enter the tier term. */
  const TierLetters: string := "SABCDEFG"

  /** The total score of every team. */
  function Strengths(teams: Partition): (r: seq<int>)
    ensures |r| == |teams|
  {
    seq(|teams|, k requires 0 <= k < |teams| => TeamMetricsOf(teams[k]).strength)
  }

  /** Every team's count of one tier, zero where the tier is absent. */
  function TierCounts(teams: Partition, tier: string): (r: seq<int>)
    ensures |r| == |teams|
  {
    seq(|teams|, k requires 0 <= k < |teams| => Lookup(TeamMetricsOf(teams[k]), tier))
  }

  /** The contribution of one tier letter: the sum of squared deviations of
      its per-team counts, taken only when some team has that tier. */
  function TierTerm(teams: Partition, letter: char): (r: real)
    requires |teams| >= 1
    ensures r >= 0.0
  {
    var counts := TierCounts(teams, [letter]);
    if exists k :: 0 <= k < |counts| && counts[k] != 0 then SqDev(counts, Mean(counts)) else 0.0
  }

  /** `tier_imbalance` summed over `letters`. */
  function TierSum(teams: Partition, letters: string): (r: real)
    requires |teams| >= 1
    ensures r >= 0.0
  {
    if letters == [] then 0.0
    else TierSum(teams, letters[..|letters| - 1]) + TierTerm(teams, letters[|letters| - 1])
  }

  /** `evaluate_teams`. Python's `max([])` raises, so at least one team is
      needed. The tier letters are summed in a fixed order; with exact
      arithmetic the order of a set's iteration does not matter. */
  function Evaluate(teams: Partition): (r: Evaluation)
    requires |teams| >= 1
    ensures r.strengthDiff >= 0 && r.strengthVariance >= 0.0 && r.tierImbalance >= 0.0
    ensures r.score >= 0.0
  {
    var s := Strengths(teams);
    SpreadZero(s);
    var variance := Variance(s);
    var diff := MaxOf(s) - MinOf(s);
    var imbalance := TierSum(teams, TierLetters);
    Evaluation(variance, diff, imbalance, variance * 2.0 + imbalance + diff as real * 10.0)
  }

  // ---------------------------------------------------------------------
  // Properties of the score
  // ---------------------------------------------------------------------

  /** The strengths are the team strengths and the tier counts are the
      per-team counts of that tier. */
  lemma StrengthsAndCounts(teams: Partition, tier: string)
    ensures forall k :: 0 <= k < |teams| ==> Strengths(teams)[k] == Strength(teams[k])
    ensures forall k :: 0 <= k < |teams| ==> TierCounts(teams, tier)[k] == Count(teams[k], tier)
  {
    forall k | 0 <= k < |teams| ensures TierCounts(teams, tier)[k] == Count(teams[k], tier) {
      TeamMetricsCounts(teams[k], tier);
    }
  }

  /** The `any(tier_counts)` guard never changes the value: with all counts
      zero the squared deviations are zero anyway. */
  lemma TierTermUnguarded(teams: Partition, letter: char)
    requires |teams| >= 1
    ensures TierTerm(teams, letter) == SqDev(TierCounts(teams, [letter]), Mean(TierCounts(teams, [letter])))
  {
    var counts := TierCounts(teams, [letter]);
    if !exists k :: 0 <= k < |counts| && counts[k] != 0 {
      assert forall i, j :: 0 <= i < |counts| && 0 <= j < |counts| ==> counts[i] == counts[j] by {
        forall i, j | 0 <= i < |counts| && 0 <= j < |counts| ensures counts[i] == counts[j] {
          assert counts[i] == 0 && counts[j] == 0;
        }
      }
      SqDevMeanZero(counts);
    }
  }

  /** The integer-scaled forms of the two float quantities:
      `n^2 * variance == n * sum(s^2) - sum(s)^2` over the team strengths, and
      `n * term == n * sum(c^2) - sum(c)^2` over one tier's per-team counts. */
  lemma EvaluateClosedForms(teams: Partition, letter: char)
    requires |teams| >= 1
    ensures var s := Strengths(teams);
            ScaledVariance(|teams|, Evaluate(teams).strengthVariance, SumSq(s), Sum(s))
    ensures var c := TierCounts(teams, [letter]);
            CentredForm(|teams|, TierTerm(teams, letter), SumSq(c), Sum(c))
  {
    var s := Strengths(teams);
    assert Evaluate(teams).strengthVariance == Variance(s);
    VarianceClosedForm(s);
    TierTermUnguarded(teams, letter);
    SqDevClosedForm(TierCounts(teams, [letter]));
  }

  /** Cauchy–Schwarz for the strengths, as a consequence: the squared total
      never exceeds `n` times the sum of squares. */
  lemma StrengthSquares(teams: Partition)
    requires |teams| >= 1
    ensures var s := Strengths(teams); Sum(s) * Sum(s) <= |teams| * SumSq(s)
  {
    var s := Strengths(teams);
    SqDevClosedForm(s);
    CentredBound(|teams|, SqDev(s, Mean(s)), SumSq(s), Sum(s));
  }

  /** The score is the weighted sum of its three parts, and it is zero
      exactly when every team has the same strength and, for every tier
      letter, every team has the same number of players of that tier. */
  lemma ScoreZero(teams: Partition)
    requires |teams| >= 1
    ensures var e := Evaluate(teams);
            e.score == 2.0 * e.strengthVariance + e.tierImbalance + 10.0 * e.strengthDiff as real
    ensures Evaluate(teams).score == 0.0 <==>
              (forall k, l :: 0 <= k < |teams| && 0 <= l < |teams| ==> Strength(teams[k]) == Strength(teams[l])) &&
              (forall c, k, l :: c in TierLetters && 0 <= k < |teams| && 0 <= l < |teams| ==>
                 Count(teams[k], [c]) == Count(teams[l], [c]))
  {
    var s := Strengths(teams);
    StrengthsAndCounts(teams, "");
    SpreadZero(s);
    SqDevMeanZero(s);
    assert AllEqual(s) <==> forall k, l :: 0 <= k < |teams| && 0 <= l < |teams| ==> Strength(teams[k]) == Strength(teams[l]);
    TierSumZero(teams, TierLetters);
  }

  /** The tier imbalance over `letters` is zero exactly when each of those
      letters is spread evenly (the same count on every team). */
  lemma {:induction false} TierSumZero(teams: Partition, letters: string)
    requires |teams| >= 1
    ensures TierSum(teams, letters) == 0.0 <==>
              forall c, k, l :: c in letters && 0 <= k < |teams| && 0 <= l < |teams| ==>
                Count(teams[k], [c]) == Count(teams[l], [c])
    decreases |letters|
  {
    if letters != [] {
      var rest, c := letters[..|letters| - 1], letters[|letters| - 1];
      TierSumZero(teams, rest);
      TierTermZero(teams, c);
      assert letters == rest + [c];
      assert forall d :: d in letters <==> d in rest || d == c;
    }
  }

  lemma TierTermZero(teams: Partition, c: char)
    requires |teams| >= 1
    ensures TierTerm(teams, c) == 0.0 <==>
              forall k, l :: 0 <= k < |teams| && 0 <= l < |teams| ==> Count(teams[k], [c]) == Count(teams[l], [c])
  {
    var counts := TierCounts(teams, [c]);
    StrengthsAndCounts(teams, [c]);
    TierTermUnguarded(teams, c);
    SqDevMeanZero(counts);
  }

  /** The score sees a team only through its strength and its counts of the
      one-letter tiers `S, A, B, C, D, E, F, G`: any other tier (`S+`, `S/A`,
      `A/B`, ...) contributes nothing. */
  lemma EvaluateDependsOnly(a: Partition, b: Partition)
    requires |a| == |b| >= 1
    requires forall k :: 0 <= k < |a| ==> Strength(a[k]) == Strength(b[k])
    requires forall c, k :: c in TierLetters && 0 <= k < |a| ==> Count(a[k], [c]) == Count(b[k], [c])
    ensures Evaluate(a) == Evaluate(b)
  {
    assert Strengths(a) == Strengths(b);
    TierSumSame(a, b, TierLetters);
  }

  lemma {:induction false} TierSumSame(a: Partition, b: Partition, letters: string)
    requires |a| == |b| >= 1
    requires forall c, k :: c in letters && 0 <= k < |a| ==> Count(a[k], [c]) == Count(b[k], [c])
    ensures TierSum(a, letters) == TierSum(b, letters)
    decreases |letters|
  {
    if letters != [] {
      var rest, c := letters[..|letters| - 1], letters[|letters| - 1];
      assert forall d :: d in rest ==> d in letters;
      TierSumSame(a, b, rest);
      StrengthsAndCounts(a, [c]);
      StrengthsAndCounts(b, [c]);
      assert TierCounts(a, [c]) == TierCounts(b, [c]);
    }
  }

  /** Reordering the members inside each team leaves every metric unchanged. */
  lemma EvaluateReorder(a: Partition, b: Partition)
    requires |a| == |b| >= 1
    requires forall k :: 0 <= k < |a| ==> multiset(a[k]) == multiset(b[k])
    ensures Evaluate(a) == Evaluate(b)
  {
    forall k | 0 <= k < |a| ensures Strength(a[k]) == Strength(b[k]) {
      StrengthPermutation(a[k], b[k]);
    }
    forall c, k | c in TierLetters && 0 <= k < |a| ensures Count(a[k], [c]) == Count(b[k], [c]) {
      CountPermutation(a[k], b[k], [c]);
    }
    EvaluateDependsOnly(a, b);
  }

  /** Two one-player teams whose tiers are `S+` and `S/A` and whose scores are
      equal: the tier counts differ, yet the score is zero. */
  function CompoundTierTeams(): (r: Partition)
    ensures |r| == 2
  {
    [[Player("p1", "S+", 9)], [Player("p2", "S/A", 9)]]
  }

  lemma CompoundTiersIgnored()
    ensures Count(CompoundTierTeams()[0], "S+") != Count(CompoundTierTeams()[1], "S+")
    ensures Evaluate(CompoundTierTeams()).score == 0.0
  {
    var teams := CompoundTierTeams();
    forall k | 0 <= k < 2 ensures Strength(teams[k]) == 9 && Count(teams[k], "S+") == 1 - k {
      OneMember(teams[k][0]);
    }
    forall c, k | c in TierLetters && 0 <= k < 2 ensures Count(teams[k], [c]) == 0 {
      OneMember(teams[k][0]);
    }
    ScoreZero(teams);
  }

  /** A one-player team's strength is that player's score, and it counts one
      for that player's tier only. */
  lemma OneMember(p: Player)
    ensures Strength([p]) == p.score
    ensures forall t :: Count([p], t) == if p.tier == t then 1 else 0
  {
    assert [p][..0] == [] && [] + [p] == [p];
    assert SumBy([], ScoreOf) == 0;
    assert SumBy([p], ScoreOf) == SumBy([], ScoreOf) + ScoreOf(p);
    forall t ensures Count([p], t) == if p.tier == t then 1 else 0 {
      CountAppend([], p, t);
    }
  }
}
