/** `create_team_distribution`: look a strategy up by name, build the
    initial teams with it, hill-climb them (except for the pure snake
    draft), and report the result with its metrics. */
module Distribution {
  import opened Roster
  import opened Scoring
  import opened Optimizer
  import opened SnakeDraft
  import opened RoundRobin
  import opened RandomDraft

  datatype Strategy = RoundRobinDraft | TierRandom | Cluster | Snake

  /** The key the strategy table is indexed by. */
  function Key(s: Strategy): string
  {
    match s
    case RoundRobinDraft => "round_robin"
    case TierRandom => "random"
    case Cluster => "cluster"
    case Snake => "snake"
  }

  /** The strategy's display `name`. */
  function StrategyName(s: Strategy): string
  {
    match s
    case RoundRobinDraft => "Round-Robin Distribution"
    case TierRandom => "Tier-Based Random Distribution"
    case Cluster => "Cluster-Based Distribution"
    case Snake => "Pure Snake Draft"
  }

  /** The strategy's `description`. */
  function StrategyDescription(s: Strategy): string
  {
    match s
    case RoundRobinDraft => "Distributes players in a snake draft pattern, ensuring top players are spread across teams."
    case TierRandom => "Distributes players randomly while maintaining tier balance across teams."
    case Cluster => "Groups similar-strength players together, then distributes groups to maximize diversity within teams."
    case Snake => "Simple snake draft pattern where teams pick players in alternating order without optimization."
  }

  /** `strategy_name in strategies`: exactly the four keys are known, and a
      known name maps to the strategy with that key. */
  function ParseStrategy(name: string): (r: Option<Strategy>)
    ensures r.Some? <==> name in {"round_robin", "random", "cluster", "snake"}
    ensures r.Some? ==> Key(r.value) == name
  {
    if name == "round_robin" then Some(RoundRobinDraft)
    else if name == "random" then Some(TierRandom)
    else if name == "cluster" then Some(Cluster)
    else if name == "snake" then Some(Snake)
    else None
  }

  /** Every strategy is found under its own key, so the keys are distinct. */
  lemma ParseKey(s: Strategy)
    ensures ParseStrategy(Key(s)) == Some(s)
  {
  }

  /** The `TeamDistribution` record. Its `name` and `description` are the
      strategy's, so the record keeps the strategy they come from. */
  datatype TeamDistribution = TeamDistribution(
    strategy: Strategy,
    teams: Partition,
    strengthVariance: real,
    strengthDiff: int,
    tierImbalance: real,
    score: real)
  {
    function Name(): string { StrategyName(strategy) }
    function Description(): string { StrategyDescription(strategy) }
  }

  /** The record's metrics are those of its teams. */
  predicate Reports(d: TeamDistribution)
  {
    |d.teams| >= 1 &&
    var e := Evaluate(d.teams);
    d.strengthVariance == e.strengthVariance && d.strengthDiff == e.strengthDiff &&
    d.tierImbalance == e.tierImbalance && d.score == e.score
  }

  /** The teams a strategy builds before any optimisation. */
  method Initial(s: Strategy, players: seq<Player>, n: nat, size: int,
                 tierDraws: (nat, nat) -> nat, teamDraws: (nat, nat) -> nat)
    returns (r: Result<Partition, BalanceError>)
    requires n >= 1
    ensures r.Ok? ==> AllSized(r.value, n, size) && multiset(Flatten(r.value)) <= multiset(players)
    ensures s == Snake || s == Cluster ==>
              (r.Ok? <==> AllSized(SnakeDealt(SortDesc(players), n), n, size)) &&
              (r.Ok? ==> r.value == SnakeDealt(SortDesc(players), n))
    ensures s == RoundRobinDraft && r.Ok? ==> |players| >= n
    ensures s == RoundRobinDraft && |players| >= n ==>
              (r.Ok? <==> AllSized(RoundRobinDealt(SortDesc(players), n, size), n, size)) &&
              (r.Ok? ==> r.value == RoundRobinDealt(SortDesc(players), n, size))
    ensures s == TierRandom && |players| == n * size && (forall t :: Count(players, t) % n == 0) ==>
              r == Ok(RandomTeams(players, n, tierDraws, teamDraws)) &&
              forall k, t :: 0 <= k < n ==> Count(r.value[k], t) == Share(Count(players, t), n, k)
    ensures s == TierRandom && !(|players| == n * size && forall t :: Count(players, t) % n == 0) ==>
              (|players| < n ==> r == Err(IndexOutOfRange)) &&
              (|players| >= n ==>
                 (r.Ok? <==> AllSized(RoundRobinDealt(SortDesc(Pooled(players, n, tierDraws, teamDraws)), n, size), n, size)) &&
                 (r.Ok? ==> r.value == RoundRobinDealt(SortDesc(Pooled(players, n, tierDraws, teamDraws)), n, size)))
    ensures r.Err? ==> r.error.IndexOutOfRange? || r.error.UnevenTeams?
    ensures size >= 1 && |players| == n * size ==> r.Ok? && multiset(Flatten(r.value)) == multiset(players)
  {
    match s
    case RoundRobinDraft =>
      r := DistributeRoundRobin(players, n, size);
    case TierRandom =>
      ghost var fellBack;
      r, fellBack := DistributeRandom(players, n, size, tierDraws, teamDraws);
    case Cluster =>
      r := DistributeCluster(players, n, size);
    case Snake =>
      r := DistributeSnake(players, n, size);
  }

  /** Hill-climbs the initial teams unless the strategy is the pure snake
      draft, then records the name, the description and the metrics. */
  method Finish(s: Strategy, start: Partition, n: nat, size: int) returns (d: TeamDistribution)
    requires n >= 1 && AllSized(start, n, size)
    ensures d.strategy == s
    ensures Reports(d) && AllSized(d.teams, n, size) && multiset(Flatten(d.teams)) == multiset(Flatten(start))
    ensures Rearranges(start, d.teams) && d.score <= Evaluate(start).score
    ensures s == Snake ==> d.teams == start
    ensures s != Snake && d.teams != start ==> d.score < Evaluate(start).score
    ensures s != Snake && Evaluate(start).score == 0.0 ==> d.teams == start
    ensures s != Snake && d.teams == start ==> NoImprovingMove(start)
  {
    var teams;
    if s == Snake {
      teams := start;
    } else {
      teams := OptimizeTeams(start);
    }
    SizedRearranged(start, teams, n, size);
    var e := Evaluate(teams);
    d := TeamDistribution(s, teams,
                          e.strengthVariance, e.strengthDiff, e.tierImbalance, e.score);
  }

  /** `create_team_distribution`. An unknown name fails before anything is
      built; a strategy's error is passed on; the snake draft's teams are
      kept as dealt and every other strategy's are hill-climbed; the
      record carries the name, the description and the final teams'
      metrics. */
  method CreateTeamDistribution(strategyName: string, players: seq<Player>, numTeams: nat, size: int,
                                tierDraws: (nat, nat) -> nat, teamDraws: (nat, nat) -> nat)
    returns (r: Result<TeamDistribution, BalanceError>, ghost initial: Partition)
    requires numTeams >= 1
    ensures ParseStrategy(strategyName).None? ==> r == Err(UnknownStrategy(strategyName))
    ensures r.Err? && ParseStrategy(strategyName).Some? ==> r.error.IndexOutOfRange? || r.error.UnevenTeams?
    ensures r.Ok? ==> ParseStrategy(strategyName) == Some(r.value.strategy)
    ensures r.Ok? ==> Reports(r.value) && AllSized(r.value.teams, numTeams, size) &&
                      multiset(Flatten(r.value.teams)) <= multiset(players)
    ensures r.Ok? ==> |initial| >= 1 && Rearranges(initial, r.value.teams) && r.value.score <= Evaluate(initial).score
    ensures r.Ok? && r.value.teams != initial ==> r.value.score < Evaluate(initial).score
    ensures r.Ok? && strategyName != "snake" && r.value.teams == initial ==> NoImprovingMove(initial)
    ensures r.Ok? && strategyName == "snake" ==> r.value.teams == initial == SnakeDealt(SortDesc(players), numTeams)
    ensures r.Ok? && strategyName == "cluster" ==> initial == SnakeDealt(SortDesc(players), numTeams)
    ensures r.Ok? && strategyName == "round_robin" ==>
              |players| >= numTeams && initial == RoundRobinDealt(SortDesc(players), numTeams, size)
    ensures r.Ok? && strategyName == "random" && |players| == numTeams * size &&
            (forall t :: Count(players, t) % numTeams == 0) ==>
              initial == RandomTeams(players, numTeams, tierDraws, teamDraws)
    ensures ParseStrategy(strategyName).Some? && size >= 1 && |players| == numTeams * size ==>
              r.Ok? && multiset(Flatten(r.value.teams)) == multiset(players)
  {
    var strategy := ParseStrategy(strategyName);
    if strategy.None? {
      return Err(UnknownStrategy(strategyName)), [];
    }
    var built := Initial(strategy.value, players, numTeams, size, tierDraws, teamDraws);
    if built.Err? {
      return Err(built.error), [];
    }
    initial := built.value;
    var d := Finish(strategy.value, built.value, numTeams, size);
    r := Ok(d);
  }

  /** Reordering players between teams of unchanged sizes keeps every team
      at the required size and keeps the pool. */
  lemma SizedRearranged(a: Partition, b: Partition, n: nat, size: int)
    requires AllSized(a, n, size) && Rearranges(a, b)
    ensures AllSized(b, n, size) && multiset(Flatten(b)) == multiset(Flatten(a))
  {
  }
}
