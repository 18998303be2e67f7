/** The hill-climbing optimizer: player swaps between two teams, accepted
    as soon as one lowers the score, within fixed iteration and
    no-improvement budgets. Every trial works on a copy, which here is
    simply a new value. */
module Optimizer {
  import opened Roster
  import opened Scoring

  const MaxIterations: nat := 1000
  const NoImprovementLimit: nat := 100

  // ---------------------------------------------------------------------
  // Swaps
  // ---------------------------------------------------------------------

  /** `test_teams[i][p1], test_teams[j][p2] = test_teams[j][p2], test_teams[i][p1]`
      for two different teams: the two players trade places and nothing
      else moves. */
  function SwapPlayers(teams: Partition, i: nat, p1: nat, j: nat, p2: nat): (r: Partition)
    requires i < j < |teams| && p1 < |teams[i]| && p2 < |teams[j]|
    ensures |r| == |teams| && forall k :: 0 <= k < |teams| ==> |r[k]| == |teams[k]|
    ensures r[i][p1] == teams[j][p2] && r[j][p2] == teams[i][p1]
    ensures forall q :: 0 <= q < |teams[i]| && q != p1 ==> r[i][q] == teams[i][q]
    ensures forall q :: 0 <= q < |teams[j]| && q != p2 ==> r[j][q] == teams[j][q]
    ensures forall k :: 0 <= k < |teams| && k != i && k != j ==> r[k] == teams[k]
  {
    var a, b := teams[i][p1], teams[j][p2];
    teams[i := teams[i][p1 := b]][j := teams[j][p2 := a]]
  }

  /** A swap keeps the players and the team sizes. */
  lemma SwapRearranges(teams: Partition, i: nat, p1: nat, j: nat, p2: nat)
    requires i < j < |teams| && p1 < |teams[i]| && p2 < |teams[j]|
    ensures Rearranges(teams, SwapPlayers(teams, i, p1, j, p2))
  {
    var a, b := teams[i][p1], teams[j][p2];
    var ti, tj := teams[i][p1 := b], teams[j][p2 := a];
    var mid := teams[i := ti];
    ReplaceOne(teams[i], p1, b);
    ReplaceOne(teams[j], p2, a);
    FlattenUpdate(teams, i, ti);
    FlattenUpdate(mid, j, tj);
    assert mid[j] == teams[j];
    Trade(multiset(Flatten(teams)), multiset(Flatten(mid)), multiset(Flatten(mid[j := tj])),
          multiset(teams[i]), multiset(teams[j]), multiset(ti), multiset(tj), multiset{a}, multiset{b});
  }

  /** Two teams trading one player each leave the pool as it was. */
  lemma Trade(f0: multiset<Player>, f1: multiset<Player>, f2: multiset<Player>,
              ti: multiset<Player>, tj: multiset<Player>, ui: multiset<Player>, uj: multiset<Player>,
              a: multiset<Player>, b: multiset<Player>)
    requires f1 + ti == f0 + ui && ui + a == ti + b
    requires f2 + tj == f1 + uj && uj + b == tj + a
    ensures f2 == f0
  {
    forall y ensures f2[y] == f0[y] {
      assert (f1 + ti)[y] == (f0 + ui)[y] && (ui + a)[y] == (ti + b)[y];
      assert (f2 + tj)[y] == (f1 + uj)[y] && (uj + b)[y] == (tj + a)[y];
    }
  }

  /** Overwriting one position trades the old member for the new one. */
  lemma ReplaceOne(t: Team, p: nat, x: Player)
    requires p < |t|
    ensures multiset(t[p := x]) + multiset{t[p]} == multiset(t) + multiset{x}
  {
    assert t == t[..p] + [t[p]] + t[p + 1..];
    assert t[p := x] == t[..p] + [x] + t[p + 1..];
  }

  /** Swapping the same two positions again restores the teams. */
  lemma SwapTwice(teams: Partition, i: nat, p1: nat, j: nat, p2: nat)
    requires i < j < |teams| && p1 < |teams[i]| && p2 < |teams[j]|
    ensures SwapPlayers(SwapPlayers(teams, i, p1, j, p2), i, p1, j, p2) == teams
  {
    var once := SwapPlayers(teams, i, p1, j, p2);
    var twice := SwapPlayers(once, i, p1, j, p2);
    assert twice[i] == teams[i];
    assert twice[j] == teams[j];
  }

  lemma RearrangesTrans(a: Partition, b: Partition, c: Partition)
    requires Rearranges(a, b) && Rearranges(b, c)
    ensures Rearranges(a, c)
  {
  }

  // ---------------------------------------------------------------------
  // The trial moves, in the order the nested loops try them
  // ---------------------------------------------------------------------

  /** One trial: a single swap, or the two-pair swap of the multi-player pass. */
  datatype Move =
    | Single(i: nat, j: nat, p1: nat, p2: nat)
    | Double(i: nat, j: nat, p1: nat, p2: nat, p3: nat, p4: nat)

  predicate ValidMove(m: Move, teams: Partition)
  {
    match m
    case Single(i, j, p1, p2) => i < j < |teams| && p1 < |teams[i]| && p2 < |teams[j]|
    case Double(i, j, p1, p2, p3, p4) => i < j < |teams| && p1 < p2 < |teams[i]| && p3 < p4 < |teams[j]|
  }

  /** The teams after the move, built on a copy. */
  function Apply(teams: Partition, m: Move): Partition
    requires ValidMove(m, teams)
  {
    match m
    case Single(i, j, p1, p2) => SwapPlayers(teams, i, p1, j, p2)
    case Double(i, j, p1, p2, p3, p4) => SwapPlayers(SwapPlayers(teams, i, p1, j, p3), i, p2, j, p4)
  }

  /** Every move keeps the players and the team sizes. */
  lemma ApplyRearranges(teams: Partition, m: Move)
    requires ValidMove(m, teams)
    ensures Rearranges(teams, Apply(teams, m))
  {
    if m.Single? {
      SwapRearranges(teams, m.i, m.p1, m.j, m.p2);
    } else {
      var first := SwapPlayers(teams, m.i, m.p1, m.j, m.p3);
      SwapRearranges(teams, m.i, m.p1, m.j, m.p3);
      SwapRearranges(first, m.i, m.p2, m.j, m.p4);
      RearrangesTrans(teams, first, SwapPlayers(first, m.i, m.p2, m.j, m.p4));
    }
  }

  /** Moves are valid on every partition with the same team sizes. */
  lemma ValidMoveSizes(m: Move, a: Partition, b: Partition)
    requires ValidMove(m, a) && |a| == |b| && forall k :: 0 <= k < |a| ==> |a[k]| == |b[k]|
    ensures ValidMove(m, b)
  {
  }

  /** Concatenation of a list of lists. */
  function Join(ss: seq<seq<Move>>): (r: seq<Move>)
    ensures forall x :: x in r <==> exists k :: 0 <= k < |ss| && x in ss[k]
  {
    if ss == [] then []
    else
      var r := ss[0] + Join(ss[1..]);
      assert forall k :: 0 < k < |ss| ==> ss[k] == ss[1..][k - 1];
      r
  }

  /** The index pairs `a < b < n` whose first element is at least `i`, in lexicographic order. */
  function PairsFrom(i: nat, n: nat): (r: seq<(nat, nat)>)
    ensures forall a: nat, b: nat :: (a, b) in r <==> i <= a < b < n
    decreases n - i
  {
    if i >= n then []
    else
      var row := seq(n - i - 1, k requires 0 <= k < n - i - 1 => (i, i + 1 + k));
      assert forall b: nat :: i < b < n ==> row[b - i - 1] == (i, b);
      row + PairsFrom(i + 1, n)
  }

  /** Every index pair `a < b < n`, in lexicographic order (the pairs of teams the search visits). */
  function Pairs(n: nat): (r: seq<(nat, nat)>)
    ensures forall a: nat, b: nat :: (a, b) in r <==> a < b < n
  {
    PairsFrom(0, n)
  }

  /** The single swaps between teams `i` and `j`: `p1` outer, `p2` inner. */
  function SinglesFor(teams: Partition, i: nat, j: nat): (r: seq<Move>)
    requires i < j < |teams|
    ensures forall p1: nat, p2: nat :: Single(i, j, p1, p2) in r <==> p1 < |teams[i]| && p2 < |teams[j]|
    ensures forall m :: m in r ==> m.Single? && m.i == i && m.j == j
  {
    var rows := seq(|teams[i]|, p1 requires 0 <= p1 < |teams[i]| =>
                  seq(|teams[j]|, p2 requires 0 <= p2 < |teams[j]| => Single(i, j, p1, p2)));
    forall p1: nat, p2: nat | p1 < |teams[i]| && p2 < |teams[j]| ensures Single(i, j, p1, p2) in Join(rows) {
      assert rows[p1][p2] == Single(i, j, p1, p2);
    }
    Join(rows)
  }

  /** The two-pair swaps between teams `i` and `j`: `(p1, p2)` outer,
      `(p3, p4)` inner, each from `combinations(range(size), 2)`. */
  function DoublesFor(teams: Partition, i: nat, j: nat): seq<Move>
    requires i < j < |teams|
  {
    Join(DoubleRows(Pairs(|teams[i]|), Pairs(|teams[j]|), i, j))
  }

  /** The nested rows `DoublesFor` joins. */
  function DoubleRows(pi: seq<(nat, nat)>, pj: seq<(nat, nat)>, i: nat, j: nat): seq<seq<Move>>
  {
    seq(|pi|, a requires 0 <= a < |pi| =>
      seq(|pj|, b requires 0 <= b < |pj| => Double(i, j, pi[a].0, pi[a].1, pj[b].0, pj[b].1)))
  }

  /** Every two-pair swap `DoublesFor` lists is a valid one between `i` and `j`. */
  lemma DoublesForSound(teams: Partition, i: nat, j: nat, m: Move)
    requires i < j < |teams| && m in DoublesFor(teams, i, j)
    ensures m.Double? && m.i == i && m.j == j && ValidMove(m, teams)
  {
    var pi, pj := Pairs(|teams[i]|), Pairs(|teams[j]|);
    var rows := DoubleRows(pi, pj, i, j);
    assert m in Join(rows);
    var a :| 0 <= a < |rows| && m in rows[a];
    var b :| 0 <= b < |pj| && rows[a][b] == m;
    assert pi[a] in pi && pj[b] in pj;
  }

  /** Every valid two-pair swap between `i` and `j` is listed. */
  lemma DoublesForComplete(teams: Partition, i: nat, j: nat, m: Move)
    requires i < j < |teams| && m.Double? && m.i == i && m.j == j && ValidMove(m, teams)
    ensures m in DoublesFor(teams, i, j)
  {
    var pi, pj := Pairs(|teams[i]|), Pairs(|teams[j]|);
    var rows := DoubleRows(pi, pj, i, j);
    assert (m.p1, m.p2) in pi && (m.p3, m.p4) in pj;
    var a :| 0 <= a < |pi| && pi[a] == (m.p1, m.p2);
    var b :| 0 <= b < |pj| && pj[b] == (m.p3, m.p4);
    assert rows[a][b] == m;
    assert m in Join(rows);
  }

  /** The single swaps of the pass, one row per pair of teams. */
  function SinglePass(teams: Partition): seq<seq<Move>>
  {
    var ps := Pairs(|teams|);
    seq(|ps|, q requires 0 <= q < |ps| => if ps[q].1 < |teams| then SinglesFor(teams, ps[q].0, ps[q].1) else [])
  }

  /** Every trial of the single-swap pass, in order. */
  function SingleMoves(teams: Partition): seq<Move>
  {
    Join(SinglePass(teams))
  }

  /** Every single swap the pass tries is valid. */
  lemma SingleMoveSound(teams: Partition, m: Move)
    requires m in SingleMoves(teams)
    ensures m.Single? && ValidMove(m, teams)
  {
    var ps, rows := Pairs(|teams|), SinglePass(teams);
    var q :| 0 <= q < |rows| && m in rows[q];
    assert ps[q] in ps;
  }

  /** Every valid single swap is tried. */
  lemma SingleMoveComplete(teams: Partition, m: Move)
    requires m.Single? && ValidMove(m, teams)
    ensures m in SingleMoves(teams)
  {
    var ps, rows := Pairs(|teams|), SinglePass(teams);
    assert (m.i, m.j) in ps;
    var q :| 0 <= q < |ps| && ps[q] == (m.i, m.j);
    assert rows[q] == SinglesFor(teams, m.i, m.j);
    assert m == Single(m.i, m.j, m.p1, m.p2);
    assert m in rows[q];
  }

  /** The single-swap pass tries exactly the valid single swaps. */
  lemma SingleMovesExact(teams: Partition)
    ensures forall m :: m in SingleMoves(teams) <==> m.Single? && ValidMove(m, teams)
  {
    forall m ensures m in SingleMoves(teams) <==> m.Single? && ValidMove(m, teams) {
      if m in SingleMoves(teams) {
        SingleMoveSound(teams, m);
      }
      if m.Single? && ValidMove(m, teams) {
        SingleMoveComplete(teams, m);
      }
    }
  }

  /** The two-pair swaps of the pass, one row per pair of teams. */
  function DoublePass(teams: Partition): seq<seq<Move>>
  {
    var ps := Pairs(|teams|);
    seq(|ps|, q requires 0 <= q < |ps| => if ps[q].1 < |teams| then DoublesFor(teams, ps[q].0, ps[q].1) else [])
  }

  /** Every trial of the multi-player pass, in order. */
  function DoubleMoves(teams: Partition): seq<Move>
  {
    Join(DoublePass(teams))
  }

  /** Every two-pair swap the pass tries is valid. */
  lemma DoubleMoveSound(teams: Partition, m: Move)
    requires m in DoubleMoves(teams)
    ensures m.Double? && ValidMove(m, teams)
  {
    var ps, rows := Pairs(|teams|), DoublePass(teams);
    var q :| 0 <= q < |rows| && m in rows[q];
    assert ps[q] in ps;
    DoublesForSound(teams, ps[q].0, ps[q].1, m);
  }

  /** Every valid two-pair swap is tried. */
  lemma DoubleMoveComplete(teams: Partition, m: Move)
    requires m.Double? && ValidMove(m, teams)
    ensures m in DoubleMoves(teams)
  {
    var ps, rows := Pairs(|teams|), DoublePass(teams);
    assert (m.i, m.j) in ps;
    var q :| 0 <= q < |ps| && ps[q] == (m.i, m.j);
    DoublesForComplete(teams, m.i, m.j, m);
    assert rows[q] == DoublesFor(teams, m.i, m.j);
    assert m in rows[q];
  }

  /** The multi-player pass tries exactly the valid two-pair swaps. */
  lemma DoubleMovesExact(teams: Partition)
    ensures forall m :: m in DoubleMoves(teams) <==> m.Double? && ValidMove(m, teams)
  {
    forall m ensures m in DoubleMoves(teams) <==> m.Double? && ValidMove(m, teams) {
      if m in DoubleMoves(teams) {
        DoubleMoveSound(teams, m);
      }
      if m.Double? && ValidMove(m, teams) {
        DoubleMoveComplete(teams, m);
      }
    }
  }

  // ---------------------------------------------------------------------
  // `optimize_teams`
  // ---------------------------------------------------------------------

  /** The score `optimize_teams` minimises: that of `evaluate_teams`. */
  function TeamsScore(teams: Partition): real
  {
    if |teams| == 0 then 0.0 else Evaluate(teams).score
  }

  /** No single or double swap lowers the score of `teams`: the search
      stops at such a partition. */
  ghost predicate NoImprovingMove(teams: Partition)
  {
    forall m :: ValidMove(m, teams) ==> TeamsScore(Apply(teams, m)) >= TeamsScore(teams)
  }

  /** The state the search keeps, for a score function `f`: `best` holds the
      original players in the original team sizes, `score` is its score,
      and `best` differs from the original only if it scores strictly lower
      than `start`, the original's score. */
  predicate Tracks(teams: Partition, start: real, best: Partition, score: real, f: Partition -> real)
  {
    Rearranges(teams, best) && score == f(best) && score <= start && (best == teams || score < start)
  }

  /** Trying `m` on `best` does not lower the score below `score`. */
  predicate NoGain(best: Partition, m: Move, score: real, f: Partition -> real)
  {
    ValidMove(m, best) && f(Apply(best, m)) >= score
  }

  /** None of the first `k` moves lowers the score of `best` below `score`. */
  predicate NoneGain(best: Partition, moves: seq<Move>, k: nat, score: real, f: Partition -> real)
    requires k <= |moves|
  {
    k == 0 || (NoneGain(best, moves, k - 1, score, f) && NoGain(best, moves[k - 1], score, f))
  }

  lemma {:induction false} NoneGainEach(best: Partition, moves: seq<Move>, k: nat, score: real, f: Partition -> real)
    requires k <= |moves| && NoneGain(best, moves, k, score, f)
    ensures forall q :: 0 <= q < k ==> NoGain(best, moves[q], score, f)
  {
    if k > 0 {
      NoneGainEach(best, moves, k - 1, score, f);
    }
  }

  /** One trial: the move is applied to a copy of the current best; a lower
      score replaces it and resets the no-improvement counter, anything
      else counts one more non-improvement. */
  method TryMove(teams: Partition, ghost start: real, best: Partition, score: real, count: nat, m: Move, f: Partition -> real)
    returns (best': Partition, score': real, count': nat)
    requires Tracks(teams, start, best, score, f)
    requires ValidMove(m, teams)
    ensures Tracks(teams, start, best', score', f)
    ensures score' < score ==> best' == Apply(best, m) && count' == 0
    ensures score' >= score ==> best' == best && score' == score && count' == count + 1 && NoGain(best, m, score, f)
  {
    ValidMoveSizes(m, teams, best);
    var trial := Apply(best, m);
    ApplyRearranges(best, m);
    RearrangesTrans(teams, best, trial);
    var trialScore := f(trial);
    if trialScore < score {
      best', score', count' := trial, trialScore, 0;
    } else {
      best', score', count' := best, score, count + 1;
    }
  }

  /** One pass of trials with first-improvement acceptance, each move tried
      on the best teams found so far; a score of zero ends the search
      (`perfect`). A pass that improves nothing has shown that no move in
      it helps. */
  method TryMoves(teams: Partition, ghost start: real, moves: seq<Move>, best: Partition, score: real, count: nat,
                  f: Partition -> real)
    returns (best': Partition, score': real, count': nat, perfect: bool)
    requires Tracks(teams, start, best, score, f) && score != 0.0
    requires forall m :: m in moves ==> ValidMove(m, teams)
    ensures Tracks(teams, start, best', score', f)
    ensures perfect <==> score' == 0.0
    ensures score' <= score
    ensures score' == score ==> best' == best && count' == count + |moves|
    ensures score' == score ==> forall m :: m in moves ==> NoGain(best, m, score, f)
  {
    best', score', count' := best, score, count;
    var k := 0;
    while k < |moves| && score' != 0.0
      invariant 0 <= k <= |moves|
      invariant Tracks(teams, start, best', score', f) && score' <= score
      invariant score' == score ==> best' == best && count' == count + k
      invariant score' == score ==> NoneGain(best, moves, k, score, f)
    {
      best', score', count' := TryMove(teams, start, best', score', count', moves[k], f);
      k := k + 1;
    }
    perfect := score' == 0.0;
    if score' == score {
      NoneGainEach(best, moves, k, score, f);
    }
  }

  /** `optimize_teams`. The result holds the same players in the same team
      sizes, never scores worse, and is the input itself unless it scores
      strictly better; an input that already scores zero comes back as it is,
      and an input that comes back unchanged admits no improving swap. */
  method OptimizeTeams(teams: Partition) returns (best: Partition)
    requires |teams| >= 1
    ensures Rearranges(teams, best)
    ensures Evaluate(best).score <= Evaluate(teams).score
    ensures best != teams ==> Evaluate(best).score < Evaluate(teams).score
    ensures Evaluate(teams).score == 0.0 ==> best == teams
    ensures best == teams ==> NoImprovingMove(teams)
  {
    best := teams;
    var score := TeamsScore(teams);
    if score == 0.0 {
      forall m | ValidMove(m, teams)
        ensures TeamsScore(Apply(teams, m)) >= TeamsScore(teams)
      {
        ApplyRearranges(teams, m);
      }
      return;
    }
    ghost var start := score;
    var noImprovement: nat := 0;
    var iteration := 0;
    var singles, doubles := SingleMoves(teams), DoubleMoves(teams);
    SingleMovesExact(teams);
    DoubleMovesExact(teams);
    while iteration < MaxIterations
      invariant Tracks(teams, start, best, score, TeamsScore) && score != 0.0
      invariant iteration == 0 ==> noImprovement == 0 && best == teams
      invariant iteration > 0 && best == teams ==> NoImprovingMove(teams)
    {
      if noImprovement >= NoImprovementLimit {
        break;
      }
      var perfect;
      best, score, noImprovement, perfect := TryMoves(teams, start, singles, best, score, noImprovement, TeamsScore);
      if perfect {
        return;
      }
      if iteration % 10 == 0 {
        best, score, noImprovement, perfect := TryMoves(teams, start, doubles, best, score, noImprovement, TeamsScore);
        if perfect {
          return;
        }
      }
      if iteration == 0 && best == teams {
        forall m | ValidMove(m, teams)
          ensures TeamsScore(Apply(teams, m)) >= TeamsScore(teams)
        {
          assert m in singles || m in doubles;
          assert NoGain(teams, m, start, TeamsScore);
        }
      }
      iteration := iteration + 1;
    }
  }
}
