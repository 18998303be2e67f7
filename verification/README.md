# Team balancer, modelled in Dafny

This project models the partitioning engine of `team_balancer.py`. The engine takes a roster of
`(name, tier, score)` players and splits it into a requested number of teams of equal size. It
offers four strategies:

- **round robin**: a stable sort by descending score, then passes that alternate direction;
- **snake**: an index formula over the sorted roster;
- **cluster**: chunks of `num_teams` players, dealt in alternating direction;
- **tier-based random**: deals each tier in turn, with a round-robin fallback.

A hill-climbing optimizer then swaps players between teams while the balance score drops. A
dispatcher picks the strategy by name and records the final teams with their metrics. The row
filter of `load_players` turns already-split CSV rows into players.

The modules follow the program:

| file | module | models |
|---|---|---|
| `roster.dfy` | `Roster` | players, teams, error kinds, flattening, the stable descending sort, sums and tier counts |
| `arith.dfy` | `Arith` | arithmetic facts used by the proofs (no source counterpart) |
| `validation.dfy` | `Validation` | `validate_player_count` |
| `round_robin.dfy` | `RoundRobin` | `distribute_teams_round_robin` |
| `snake.dfy` | `SnakeDraft` | `distribute_teams_snake` and `distribute_teams_cluster` |
| `random.dfy` | `RandomDraft` | `distribute_teams_random` |
| `scoring.dfy` | `Scoring` | `calculate_team_metrics` and `evaluate_teams` |
| `optimizer.dfy` | `Optimizer` | `optimize_teams` |
| `distribution.dfy` | `Distribution` | `TeamDistribution` and `create_team_distribution` |
| `loading.dfy` | `Loading` | the row loop of `load_players` |

Code that changes state step by step becomes methods with loops. Each method is proved equal to a
specification function, or to carry a stated invariant. The properties of the specification
functions are proved as lemmas.

- **Strategies.** Appending players to teams is modelled with local `seq` variables that the
  methods reassign.
- **Scoring.** Scoring is pure, and Python's float divisions are kept exact as `real`. The
  integer forms are also proved:
  - `n²·variance = n·Σs² − (Σs)²`;
  - `n·(tier term) = n·Σc² − (Σc)²`.
- **Randomness.** Each `random.shuffle` is a Fisher–Yates shuffle driven by a draw function passed
  in as a parameter. Every permutation Python's shuffle can produce is therefore one of the
  modelled outcomes.

## Model

| member | source | states |
|---|---|---|
| Validation.ValidatePlayerCount | team_balancer.py:84-100 | succeeds exactly when there are at least 2 teams, at least one player per team and an exact division; the result `ppt` is ≥ 1 with `ppt * num_teams == len(players)`; each failing check gives its own error, in the source's order |
| Roster.SortDesc | team_balancer.py:116 | `sorted(..., key=score, reverse=True)`: the result is a permutation of the input, ordered by non-increasing score |
| Roster.InsertDescSorted | team_balancer.py:116 | inserting into a descending list keeps it descending |
| Roster.SortDescStable | team_balancer.py:116 | the sort is stable: the players of any one score keep their input order |
| Roster.CheckTeamSizes | team_balancer.py:142-146 | the final size check passes exactly when every team has `players_per_team` members; otherwise it reports the first team that does not, with its size |
| Roster.FlattenUpdate | team_balancer.py:137 | replacing one team's list changes the pool of players by exactly that team's old and new members |
| Roster.FlattenAppend | team_balancer.py:123 | appending a player to one team adds exactly that player to the pool |
| Roster.SumByPermutation | team_balancer.py:158 | a sum over a team's members does not depend on their order |
| Roster.CountPermutation | team_balancer.py:160-161 | a tier count does not depend on the order of the members |
| Roster.StrengthPermutation | team_balancer.py:158 | team strength does not depend on the order of the members |
| RoundRobin.PickOrder | team_balancer.py:131 | the team on turn `x` of any pass is a valid team index |
| RoundRobin.Pick | team_balancer.py:134-137 | a turn takes the first remaining player exactly when players remain and the team has room; otherwise nothing changes |
| RoundRobin.PassFrom | team_balancer.py:133-137 | a pass never grows the pool, and takes a player whenever the first turn can |
| RoundRobin.RoundRobinLayout | team_balancer.py:121-139 | the layout of an exactly divisible roster fills every team to `players_per_team` |
| RoundRobin.RoundRobinDealtExact | team_balancer.py:121-146 | with `len(players) == num_teams * ppt` and `ppt ≥ 1`, the draft leaves no player behind and equals the layout: member `q` of team `k` is sorted position `n·q + k` on the first pass and on odd passes, and `n·q + n−1−k` on even passes |
| RoundRobin.RoundRobinFirstPasses | team_balancer.py:121-131 | on an exact roster, team `k` opens with sorted player `k` and then takes sorted player `n + k`: the second pass also runs forward, because `round_num` starts at 1 |
| RoundRobin.RoundsFromExact | team_balancer.py:129-139 | every remaining pass of an exact roster completes one more round of the layout and leaves the pool empty |
| RoundRobin.TakePick | team_balancer.py:134-137 | one turn, done by `pop(0)` and `append`, equals `Pick` and keeps the multiset of players |
| RoundRobin.DraftPass | team_balancer.py:133-137 | the `for team_idx` loop equals `PassFrom` and keeps the multiset of players |
| RoundRobin.DraftRounds | team_balancer.py:127-139 | the `while` loop equals `RoundsFrom` and keeps the multiset of players |
| RoundRobin.OpeningPass | team_balancer.py:119-123 | the first pass succeeds exactly when there are at least `num_teams` players (otherwise `IndexError`), giving team `k` sorted player `k` |
| RoundRobin.DistributeRoundRobin | team_balancer.py:101-146 | fewer players than teams raises the index error; otherwise it succeeds exactly when the draft fills every team, and returns the draft of the sorted roster; output players come from the input; the exact case returns the layout, a permutation of the input |
| SnakeDraft.SnakeTeam | team_balancer.py:367-371 | sorted position `i` goes to a valid team index |
| SnakeDraft.SnakeDealtShape | team_balancer.py:366-372 | after dealing `c·n + j` players, each team's size is the number of picks it got, and member `q` of team `k` is the sorted player at its snake position |
| SnakeDraft.SnakeDealtExact | team_balancer.py:366-379 | on an exact roster, the snake deal equals the layout, so every team has `ppt` players |
| SnakeDraft.SnakeDealtPlayers | team_balancer.py:366-372 | the snake deal is a permutation of its input |
| SnakeDraft.DealSnake | team_balancer.py:363-372 | the `append` loop builds exactly the snake deal |
| SnakeDraft.DistributeSnake | team_balancer.py:342-379 | succeeds exactly when the snake deal of the sorted roster has `players_per_team` in every team; the result is that deal and a permutation of the input; the only error is the uneven-teams error; the exact case returns the layout |
| SnakeDraft.Chunks | team_balancer.py:402 | the clusters concatenate back to the sorted roster; each holds 1 to `num_teams` players, all but the last exactly `num_teams` |
| SnakeDraft.ClusterStep | team_balancer.py:408-416 | dealing member `j` of cluster `c`, forward on even clusters and backward on odd ones, is the snake deal's next pick |
| SnakeDraft.DealCluster | team_balancer.py:408-416 | dealing one cluster extends the snake deal by that cluster |
| SnakeDraft.DealClusters | team_balancer.py:399-416 | dealing the clusters of the sorted roster one after the other builds exactly the snake deal of that roster |
| SnakeDraft.DistributeCluster | team_balancer.py:381-424 | builds exactly the same teams as the pure snake draft on the same roster, with the same success condition and error |
| RandomDraft.StrLtTotal | team_balancer.py:320 | Python's string order used by `sorted(players_by_tier.items())` is total |
| RandomDraft.StrLtTrans | team_balancer.py:320 | that order is transitive |
| RandomDraft.SortStringsAscending | team_balancer.py:320 | sorting distinct tier names yields them in strictly ascending order |
| RandomDraft.TierKeysSpec | team_balancer.py:309-314 | the dictionary's keys in insertion order are distinct, and are exactly the tiers present |
| RandomDraft.WithTier | team_balancer.py:312-314 | a tier's group holds exactly the players of that tier, as many as its count |
| RandomDraft.GroupMapSpec | team_balancer.py:309-314 | the dictionary built player by player has exactly the keys of `TierKeys`, each mapped to its tier's players in roster order |
| RandomDraft.GroupByTier | team_balancer.py:309-314 | the grouping loop builds exactly those keys, each mapped to its tier's players in roster order |
| RandomDraft.TierOrder | team_balancer.py:320 | the tiers are visited in ascending order, each present tier exactly once |
| RandomDraft.Shuffled | team_balancer.py:322 | a shuffle is a permutation of its list |
| RandomDraft.ShuffleTeams | team_balancer.py:330-331 | shuffling each team keeps every team's members and size |
| RandomDraft.DealRRCount | team_balancer.py:325-327 | dealing one tier's group by `i % num_teams` gives team `k` exactly `Share` more players, all of that tier |
| RandomDraft.ShareClosed | team_balancer.py:326 | team `k` receives `len / n` players of a group, plus one when `k < len % n` |
| RandomDraft.ShareSpread | team_balancer.py:326 | two teams' shares of a group differ by at most one |
| RandomDraft.DealRRPlayers | team_balancer.py:325-327 | dealing a group adds exactly its players to the pool |
| RandomDraft.DealTier | team_balancer.py:325-327 | the dealing loop builds exactly `DealRR` |
| RandomDraft.TiersDealtCount | team_balancer.py:320-327 | after the first `m` tiers, team `k` holds `Share` of each dealt tier and none of the others |
| RandomDraft.RandomDealtPlayers | team_balancer.py:320-327 | dealing every tier is a permutation of the roster |
| RandomDraft.RandomDealtTierCounts | team_balancer.py:320-327 | each team holds its `Share` of every tier |
| RandomDraft.RandomTeamsCounts | team_balancer.py:329-331 | the final per-team shuffle changes neither team sizes nor tier counts |
| RandomDraft.RandomTeamsBalanced | team_balancer.py:320-331 | without the fallback, each tier's counts on any two teams differ by at most one, before and after the shuffles |
| RandomDraft.RandomDealtSizedIff | team_balancer.py:333-336 | the dealt teams all have `players_per_team` exactly when the roster has `n·ppt` players and every tier count divides by `n` |
| RandomDraft.UnevenTier | team_balancer.py:333-338 | a tier whose count `n` does not divide leaves some team off size, so the fallback runs |
| RandomDraft.FallbackFires | team_balancer.py:333-338 | with 2 teams and tiers S, A, B, B the sizes come out uneven, so the round-robin fallback runs |
| RandomDraft.RandomTeamsFacts | team_balancer.py:329-337 | the pooled list the fallback rebuilds is the flattening of the shuffled teams; the size condition and per-tier counts |
| RandomDraft.Pooled | team_balancer.py:337 | the pooled list is a permutation of the roster |
| RandomDraft.BuildTeams | team_balancer.py:309-331 | grouping, dealing and shuffling build exactly `RandomTeams` |
| RandomDraft.DistributeRandom | team_balancer.py:291-340 | the fallback runs exactly when the size condition fails; without it the result is the shuffled deal, a permutation with every tier split evenly; with it, the result is the round-robin draft of the pooled teams; on an exact roster it always succeeds with teams of `ppt` that are a permutation of the input |
| Scoring.TierTallyCounts | team_balancer.py:159-161 | a tier is a key of the tally exactly when some member carries it, and its entry is that member count |
| Scoring.TeamMetricsCounts | team_balancer.py:148-162 | the metrics are the team's total score and, by `.get(tier, 0)`, its tier counts |
| Scoring.TeamMetricsPermutation | team_balancer.py:148-162 | the metrics do not depend on the order of the members |
| Scoring.SqDevZero | team_balancer.py:192 | the sum of squared deviations is zero exactly when every value equals the mean |
| Scoring.SqDevClosedForm | team_balancer.py:191-192 | `n · Σ(s − mean)² = n·Σs² − (Σs)²` |
| Scoring.Variance | team_balancer.py:191-192 | the population variance is non-negative, and zero exactly when the squared deviations are |
| Scoring.VarianceClosedForm | team_balancer.py:191-192 | `n² · variance = n·Σs² − (Σs)²` |
| Scoring.MaxOfIsMax | team_balancer.py:190 | `max` returns a member that no member exceeds |
| Scoring.MinOfIsMin | team_balancer.py:190 | `min` returns a member that exceeds no member |
| Scoring.SpreadZero | team_balancer.py:190 | `max − min ≥ 0`, and it is zero exactly when all strengths are equal |
| Scoring.TierTermUnguarded | team_balancer.py:199-200 | the `any(tier_counts)` guard changes nothing: an absent tier's term would be zero anyway |
| Scoring.TierSumZero | team_balancer.py:195-201 | the tier imbalance is zero exactly when every single-letter tier is counted equally on all teams |
| Scoring.Evaluate | team_balancer.py:174-211 | `strength_diff ≥ 0`, `strength_variance ≥ 0`, `tier_imbalance ≥ 0` and `score ≥ 0` |
| Scoring.ScoreZero | team_balancer.py:204 | `score = 2·variance + tier_imbalance + 10·diff`, and it is zero exactly when all strengths are equal and every tier letter is spread equally |
| Scoring.EvaluateClosedForms | team_balancer.py:191-200 | the integer forms `n²·variance = n·Σs² − (Σs)²` and `n·(tier term) = n·Σc² − (Σc)²` |
| Scoring.StrengthSquares | team_balancer.py:192 | `(Σs)² ≤ n·Σs²`, so the scaled variance is a non-negative integer |
| Scoring.EvaluateDependsOnly | team_balancer.py:186-204 | the evaluation depends only on each team's strength and its counts of the letters in `SABCDEFG` |
| Scoring.EvaluateReorder | team_balancer.py:186-204 | reordering the members within teams leaves every value unchanged |
| Scoring.CompoundTiersIgnored | team_balancer.py:196-201 | `S+` is unevenly spread in the example, yet it adds nothing: only single-letter tiers count |
| Optimizer.SwapPlayers | team_balancer.py:247 | the swap exchanges `teams[i][p1]` and `teams[j][p2]`, keeps every size and changes nothing else |
| Optimizer.SwapRearranges | team_balancer.py:247 | a swap keeps the multiset of players and every team's size |
| Optimizer.SwapTwice | team_balancer.py:247 | repeating a swap restores the teams |
| Optimizer.ApplyRearranges | team_balancer.py:247-274 | single and double swaps keep the players and the team sizes |
| Optimizer.Pairs | team_balancer.py:240 | `combinations(range(n), 2)` lists exactly the pairs `a < b < n` |
| Optimizer.SinglesFor | team_balancer.py:241-242 | the single swaps between teams `i` and `j` are exactly every `p1` of team `i` with every `p2` of team `j` |
| Optimizer.DoublesForSound | team_balancer.py:268-269 | every listed double swap pairs `p1 < p2` of team `i` with `p3 < p4` of team `j` |
| Optimizer.DoublesForComplete | team_balancer.py:268-269 | every such double swap is listed |
| Optimizer.SingleMovesExact | team_balancer.py:240-242 | the single-swap pass tries exactly the valid single swaps |
| Optimizer.DoubleMovesExact | team_balancer.py:266-269 | the multi-player pass tries exactly the valid double swaps |
| Optimizer.NoneGainEach | team_balancer.py:253-262 | a run of trials without improvement means no one of them scored lower |
| Optimizer.TryMove | team_balancer.py:244-262 | one trial on a copy: a strictly lower score adopts the swapped teams and resets the counter; otherwise the best teams stay and the counter grows by one |
| Optimizer.TryMoves | team_balancer.py:240-287 | a pass keeps the best teams a rearrangement of the input, never raises the score, and stops exactly at score 0; if nothing improved, the counter grew by the number of trials and no trial scored lower |
| Optimizer.OptimizeTeams | team_balancer.py:213-289 | the result holds the same players in the same team sizes and never scores higher; it differs from the input only if it scores strictly lower; an input already at score 0 is returned unchanged; an input returned unchanged admits no improving single or double swap, since the first iteration tries every one |
| Distribution.ParseStrategy | team_balancer.py:443-468 | exactly the names `round_robin`, `random`, `cluster` and `snake` are known, each to the strategy with that key |
| Distribution.ParseKey | team_balancer.py:443-464 | each strategy is found under its own key |
| Distribution.Initial | team_balancer.py:470-473 | calls the named strategy. For snake, cluster and round robin, its success condition and result are those of that strategy's deal. For random, a roster of exactly `n * size` players whose tier counts all divide by `n` gives the shuffled tier deal with each tier shared out evenly. Any other roster gives the round-robin deal of the pooled players, or `IndexOutOfRange` when there are fewer players than teams. Errors are only the strategies' |
| Distribution.Finish | team_balancer.py:476-490 | only the snake draft skips the optimizer. Otherwise the teams come back changed only with a strictly lower score, an input at score 0 comes back unchanged, and unchanged teams admit no improving swap. The record holds the strategy's name and description, the final teams, and exactly `evaluate_teams` of them |
| Distribution.CreateTeamDistribution | team_balancer.py:426-490 | an unknown name fails before anything is built; otherwise the strategy's errors pass through; the record's metrics are `evaluate_teams` of its teams; the result rearranges the initial teams, and changes them only with a strictly lower score; unoptimised non-snake teams admit no improving swap; the snake's teams are kept as dealt; each strategy's initial teams are its deal; on an exact roster it always succeeds with a permutation of the input |
| Loading.TrimStartSpec | team_balancer.py:48 | the left half of `strip()` drops exactly the leading white space |
| Loading.TrimEndSpec | team_balancer.py:48 | the right half of `strip()` drops exactly the trailing white space |
| Loading.StripSpec | team_balancer.py:48-49 | `strip()` yields the middle of the field, with only white space around it and none at its ends |
| Loading.StripEmpty | team_balancer.py:43 | a field strips to empty exactly when it is all white space |
| Loading.StripIdempotent | team_balancer.py:48-49 | stripping twice strips nothing more |
| Loading.UpperSpec | team_balancer.py:49 | `upper()` keeps the length, maps each ASCII lower-case letter to its capital, leaves other characters alone, and is idempotent |
| Loading.RowPlayer | team_balancer.py:61 | a kept row gives the stripped name, the normalised tier and that tier's table entry |
| Loading.FilterRows | team_balancer.py:40-62 | the row loop, with its checks in the source's order, returns exactly `Kept` of the rows after the header |
| Loading.LoadPlayers | team_balancer.py:24-62 | picks the custom table when one is given and non-empty; the output names are pairwise distinct, and every tier is a key of the table and scored by its entry |
| Loading.KeptDistinct | team_balancer.py:52-62 | no two kept players share a name |
| Loading.KeptScored | team_balancer.py:56-61 | every kept tier is a key of the table, and its score is the table entry |
| Loading.KeptExactly | team_balancer.py:40-62 | a player is kept exactly when it is what the first usable row of its name gives |
| Loading.KeptComplete | team_balancer.py:52-62 | the first usable row of a name is kept even if rows with that name and an unknown tier come before it: a name is marked seen only once its row is kept |
| Loading.FirstWins | team_balancer.py:52-54 | later rows with an already kept name are dropped: the kept player is the first usable row's |

## Left out

- **Not modelled.**
  - File opening, `csv.reader`, the exception re-wrapping in `load_players`, the warnings printed to stderr, `print_teams`, `print_distribution_summary` and `main` (argument parsing and process exit). These are console and file I/O.
  - The parsing of a custom-weights string. The model takes the weight table as a map.
- **Randomness and arithmetic.**
  - The generator behind `random.shuffle`. Each shuffle is a Fisher–Yates pass whose draws are a function parameter.
  - Float rounding in the score and in the `new_score < best_score` and `best_score == 0` comparisons. The model computes every score exactly as `real`.
- **Preconditions.**
  - The team count is a `nat`, and the strategies and the dispatcher `requires n >= 1`. Negative counts and zero are left out. In the source, `main` calls `create_team_distribution` only after `validate_player_count` has rejected fewer than 2 teams (team_balancer.py:87-88, 563, 577-578). On such counts the source does the following:
    - round robin never terminates on a non-empty roster, because `all` over no teams is true;
    - snake and random raise `ZeroDivisionError` for 0 teams on a non-empty roster (team_balancer.py:367, 326);
    - snake and random raise `IndexError` for a negative count, because `i % num_teams` indexes an empty team list (team_balancer.py:369, 326-327);
    - cluster raises `ValueError` for 0 teams, because `range` gets a step of 0 (team_balancer.py:402);
    - cluster returns `[]` for a negative count, because the range is empty and no team is checked.
  - Scoring.Evaluate requires at least one team, because `max([])` raises in the source. Optimizer.OptimizeTeams inherits this requirement.
- **Simplifications in the model.**
  - Iteration order of `set('SABCDEFG')`. Each tier term is non-negative and they are summed, so the model visits the letters in a fixed order.
  - Loading.UpperSpec: `upper()` is modelled on ASCII letters only. Python also upper-cases other scripts, sometimes changing the length (`ß` → `SS`).
  - Distribution.CreateTeamDistribution: the record stores the strategy, and its `Name()` and `Description()` members return the exact strings. It does not store the two strings as fields.
  - Copies (`team.copy()`) are values in the model, so aliasing between `best_teams`, `test_teams` and the caller's teams cannot arise. That the argument is never mutated holds by construction.
- **Contracts stated more weakly than the source's behaviour.**
  - Optimizer.OptimizeTeams: the search is proved for any score function passed to `TryMoves` and then used with `evaluate_teams`. When the input changes, its ensures does not state which improved partition is reached, how many iterations run, or that a score of 0 ends the search at once.
  - Optimizer.TryMoves: the no-improvement counter is stated exactly only for a pass in which nothing improved.
