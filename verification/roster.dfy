/** Shared vocabulary of the team balancer: players, teams, partitions,
    the error kinds the engine raises, and facts about sums and
    flattening that every strategy relies on. */
module Roster {

  /** The `(name, tier, score)` tuple every part of the balancer passes around. */
  datatype Player = Player(name: string, tier: string, score: int)

  /** A team is an ordered list of players; a partition is the list of teams. */
  type Team = seq<Player>
  type Partition = seq<Team>

  datatype Option<T> = None | Some(value: T)

  datatype Result<T, E> = Ok(value: T) | Err(error: E)

  /** The `ValueError`s (and the one `IndexError`) the engine can raise. */
  datatype BalanceError =
    | TooFewTeams(numTeams: int)
    | NotEnoughPlayers(total: nat, numTeams: int)
    | NotDivisible(total: nat, numTeams: int)
    | IndexOutOfRange
    | UnevenTeams(size: nat, expected: int)
    | UnknownStrategy(name: string)

  /** All players of all teams, team after team. */
  function Flatten(teams: Partition): seq<Player>
  {
    if teams == [] then [] else teams[0] + Flatten(teams[1..])
  }

  /** `n` empty teams. */
  function EmptyTeams(n: nat): (r: Partition)
    ensures |r| == n && forall k :: 0 <= k < n ==> r[k] == []
  {
    seq(n, _ => [])
  }

  /** Team `k` with `p` appended at its end, as a value. */
  function AppendTo(teams: Partition, k: nat, p: Player): (r: Partition)
    requires k < |teams|
    ensures |r| == |teams| && r[k] == teams[k] + [p]
    ensures forall l :: 0 <= l < |teams| && l != k ==> r[l] == teams[l]
  {
    teams[k := teams[k] + [p]]
  }

  /** Every team of `teams` holds exactly `size` players, and there are `n` teams. */
  predicate AllSized(teams: Partition, n: nat, size: int)
  {
    |teams| == n && forall k :: 0 <= k < |teams| ==> |teams[k]| == size
  }

  /** `b` holds the same players as `a`, with the same number of teams and
      the same size for every team. */
  predicate Rearranges(a: Partition, b: Partition)
  {
    |a| == |b| &&
    (forall k :: 0 <= k < |a| ==> |a[k]| == |b[k]|) &&
    multiset(Flatten(a)) == multiset(Flatten(b))
  }

  /** Replacing one team changes the pooled players by exactly that team. */
  lemma {:induction false} FlattenUpdate(teams: Partition, k: nat, t: Team)
    requires k < |teams|
    ensures multiset(Flatten(teams[k := t])) + multiset(teams[k])
         == multiset(Flatten(teams)) + multiset(t)
    decreases |teams|
  {
    if k == 0 {
      assert teams[k := t][1..] == teams[1..];
    } else {
      var u := teams[k := t];
      assert u[0] == teams[0] && u[1..] == teams[1..][k - 1 := t];
      assert teams[1..][k - 1] == teams[k];
      FlattenUpdate(teams[1..], k - 1, t);
      assert Flatten(u) == teams[0] + Flatten(u[1..]);
      assert multiset(Flatten(u)) == multiset(teams[0]) + multiset(Flatten(u[1..]));
      assert multiset(Flatten(teams)) == multiset(teams[0]) + multiset(Flatten(teams[1..]));
      var a, b, c, d, e := multiset(teams[0]), multiset(Flatten(u[1..])), multiset(teams[k]),
                           multiset(Flatten(teams[1..])), multiset(t);
      assert b + c == d + e;
      assert forall y :: (a + b + c)[y] == a[y] + (b + c)[y] == a[y] + (d + e)[y] == (a + d + e)[y];
    }
  }

  /** Appending a player to one team adds exactly that player to the pool. */
  lemma FlattenAppend(teams: Partition, k: nat, p: Player)
    requires k < |teams|
    ensures multiset(Flatten(AppendTo(teams, k, p))) == multiset(Flatten(teams)) + multiset{p}
  {
    FlattenUpdate(teams, k, teams[k] + [p]);
    assert multiset(teams[k] + [p]) == multiset(teams[k]) + multiset{p};
    assert AppendTo(teams, k, p) == teams[k := teams[k] + [p]];
    MultisetCancel(multiset(Flatten(AppendTo(teams, k, p))), multiset(Flatten(teams)) + multiset{p}, multiset(teams[k]));
  }

  lemma MultisetSplit<T>(s: seq<T>, i: nat)
    requires i <= |s|
    ensures multiset(s[..i]) + multiset(s[i..]) == multiset(s)
  {
    assert s == s[..i] + s[i..];
  }

  lemma MultisetPart<T>(a: multiset<T>, b: multiset<T>, c: multiset<T>)
    requires a + b == c
    ensures a <= c && (b == multiset{} ==> a == c)
  {
  }

  lemma MultisetCancel<T>(a: multiset<T>, b: multiset<T>, c: multiset<T>)
    requires a + c == b + c
    ensures a == b
  {
    assert forall y :: a[y] == (a + c)[y] - c[y];
    assert forall y :: b[y] == (b + c)[y] - c[y];
  }

  /** Reordering the members inside every team keeps the pool. */
  lemma {:induction false} FlattenPerTeam(a: Partition, b: Partition)
    requires |a| == |b| && forall k :: 0 <= k < |a| ==> multiset(a[k]) == multiset(b[k])
    ensures multiset(Flatten(a)) == multiset(Flatten(b))
    decreases |a|
  {
    if a != [] {
      assert multiset(a[0]) == multiset(b[0]);
      FlattenPerTeam(a[1..], b[1..]);
    }
  }

  /** Flattening a list of teams extended by one team. */
  lemma {:induction false} FlattenSnoc(teams: Partition, t: Team)
    ensures Flatten(teams + [t]) == Flatten(teams) + t
    decreases |teams|
  {
    if teams == [] {
      assert [t][1..] == [];
    } else {
      assert (teams + [t])[1..] == teams[1..] + [t];
      FlattenSnoc(teams[1..], t);
    }
  }

  /** Flattening `n` empty teams gives no player. */
  lemma {:induction false} FlattenEmpty(n: nat)
    ensures Flatten(EmptyTeams(n)) == []
  {
    if n > 0 {
      assert EmptyTeams(n)[1..] == EmptyTeams(n - 1);
      FlattenEmpty(n - 1);
    }
  }

  // ---------------------------------------------------------------------
  // Sums of a per-player value over a list of players
  // ---------------------------------------------------------------------

  function SumBy(s: seq<Player>, f: Player -> int): (r: int)
    ensures (forall p :: f(p) >= 0) ==> r >= 0
  {
    if s == [] then 0 else SumBy(s[..|s| - 1], f) + f(s[|s| - 1])
  }

  lemma {:induction false} SumByConcat(a: seq<Player>, b: seq<Player>, f: Player -> int)
    ensures SumBy(a + b, f) == SumBy(a, f) + SumBy(b, f)
    decreases |b|
  {
    if b == [] {
      assert a + b == a;
    } else {
      assert (a + b)[..|a + b| - 1] == a + b[..|b| - 1];
      SumByConcat(a, b[..|b| - 1], f);
    }
  }

  /** A sum over a team does not depend on the order of its members. */
  lemma {:induction false} SumByPermutation(a: seq<Player>, b: seq<Player>, f: Player -> int)
    requires multiset(a) == multiset(b)
    ensures SumBy(a, f) == SumBy(b, f)
    decreases |a|
  {
    if a == [] {
      assert |b| == |multiset(b)| == 0;
    } else {
      var x := a[|a| - 1];
      var a' := a[..|a| - 1];
      assert a == a' + [x];
      assert x in multiset(b);
      var j :| 0 <= j < |b| && b[j] == x;
      var b' := b[..j] + b[j + 1..];
      assert b == b[..j] + [x] + b[j + 1..];
      assert multiset(b) == multiset(b') + multiset{x};
      assert multiset(a) == multiset(a') + multiset{x};
      MultisetCancel(multiset(a'), multiset(b'), multiset{x});
      SumByPermutation(a', b', f);
      SumByConcat(b[..j] + [x], b[j + 1..], f);
      SumByConcat(b[..j], [x], f);
      SumByConcat(b[..j], b[j + 1..], f);
      assert SumBy([x], f) == f(x) by {
        assert [x][..0] == [];
      }
    }
  }

  function ScoreOf(p: Player): int { p.score }

  /** The sum of the players' scores. */
  function Strength(team: Team): int
  {
    SumBy(team, ScoreOf)
  }

  function TierIndicator(tier: string): Player -> int
  {
    (p: Player) => if p.tier == tier then 1 else 0
  }

  /** How many members of `team` have tier `tier`. */
  function Count(team: Team, tier: string): (r: int)
    ensures 0 <= r <= |team|
  {
    CountBound(team, tier);
    SumBy(team, TierIndicator(tier))
  }

  lemma {:induction false} CountBound(team: Team, tier: string)
    ensures 0 <= SumBy(team, TierIndicator(tier)) <= |team|
    decreases |team|
  {
    if team != [] {
      CountBound(team[..|team| - 1], tier);
    }
  }

  lemma CountAppend(team: Team, p: Player, tier: string)
    ensures Count(team + [p], tier) == Count(team, tier) + (if p.tier == tier then 1 else 0)
  {
    assert (team + [p])[..|team + [p]| - 1] == team;
  }

  lemma CountPermutation(a: Team, b: Team, tier: string)
    requires multiset(a) == multiset(b)
    ensures Count(a, tier) == Count(b, tier)
  {
    SumByPermutation(a, b, TierIndicator(tier));
  }

  lemma StrengthPermutation(a: Team, b: Team)
    requires multiset(a) == multiset(b)
    ensures Strength(a) == Strength(b)
  {
    SumByPermutation(a, b, ScoreOf);
  }

  // ---------------------------------------------------------------------
  // The stable sort by descending score
  // ---------------------------------------------------------------------

  predicate SortedDesc(s: seq<Player>)
  {
    forall i, j :: 0 <= i < j < |s| ==> s[i].score >= s[j].score
  }

  /** Inserts `x` in front of every player with a score not above its own,
      so that among equal scores earlier players stay first. */
  function InsertDesc(x: Player, s: seq<Player>): (r: seq<Player>)
    ensures multiset(r) == multiset(s) + multiset{x}
    ensures |r| == |s| + 1 && (r[0] == x || (s != [] && r[0] == s[0]))
  {
    if s == [] || x.score >= s[0].score then [x] + s
    else
      assert s == [s[0]] + s[1..];
      [s[0]] + InsertDesc(x, s[1..])
  }

  lemma {:induction false} InsertDescSorted(x: Player, s: seq<Player>)
    requires SortedDesc(s)
    ensures SortedDesc(InsertDesc(x, s))
    decreases |s|
  {
    if s != [] && x.score < s[0].score {
      var rest := InsertDesc(x, s[1..]);
      InsertDescSorted(x, s[1..]);
      assert rest[0].score <= s[0].score;
      var r := [s[0]] + rest;
      forall i, j | 0 <= i < j < |r| ensures r[i].score >= r[j].score {
        if i == 0 {
          assert r[j] == rest[j - 1];
          assert j - 1 > 0 ==> rest[0].score >= rest[j - 1].score;
        } else {
          assert r[i] == rest[i - 1] && r[j] == rest[j - 1];
        }
      }
    }
  }

  /** Python's `sorted` with `reverse=True` is stable. */
  function SortDesc(s: seq<Player>): (r: seq<Player>)
    ensures multiset(r) == multiset(s) && |r| == |s|
    ensures SortedDesc(r)
  {
    if s == [] then []
    else
      assert s == [s[0]] + s[1..];
      InsertDescSorted(s[0], SortDesc(s[1..]));
      InsertDesc(s[0], SortDesc(s[1..]))
  }

  /** The players of `s` with score `v`, in order. */
  function WithScore(s: seq<Player>, v: int): seq<Player>
  {
    if s == [] then [] else (if s[0].score == v then [s[0]] else []) + WithScore(s[1..], v)
  }

  lemma {:induction false} InsertDescStable(x: Player, s: seq<Player>, v: int)
    ensures WithScore(InsertDesc(x, s), v) == (if x.score == v then [x] else []) + WithScore(s, v)
    decreases |s|
  {
    if s == [] || x.score >= s[0].score {
      assert ([x] + s)[1..] == s;
    } else {
      var rest := InsertDesc(x, s[1..]);
      InsertDescStable(x, s[1..], v);
      assert ([s[0]] + rest)[1..] == rest;
      assert WithScore(InsertDesc(x, s), v)
          == (if s[0].score == v then [s[0]] else []) + WithScore(rest, v);
    }
  }

  /** Stability: players with equal scores keep their input order. */
  lemma {:induction false} SortDescStable(s: seq<Player>, v: int)
    ensures WithScore(SortDesc(s), v) == WithScore(s, v)
    decreases |s|
  {
    if s != [] {
      SortDescStable(s[1..], v);
      InsertDescStable(s[0], SortDesc(s[1..]), v);
    }
  }

  // ---------------------------------------------------------------------
  // The final size check every constructive strategy runs
  // ---------------------------------------------------------------------

  /** The final size check: every team must hold exactly `players_per_team` players. */
  method CheckTeamSizes(teams: Partition, size: int) returns (r: Result<Partition, BalanceError>)
    ensures r.Ok? <==> forall k :: 0 <= k < |teams| ==> |teams[k]| == size
    ensures r.Ok? ==> r.value == teams
    ensures r.Err? ==> exists k :: 0 <= k < |teams| && |teams[k]| != size &&
                         r.error == UnevenTeams(|teams[k]|, size) &&
                         forall l :: 0 <= l < k ==> |teams[l]| == size
  {
    var k := 0;
    while k < |teams|
      invariant 0 <= k <= |teams|
      invariant forall l :: 0 <= l < k ==> |teams[l]| == size
    {
      if |teams[k]| != size {
        return Err(UnevenTeams(|teams[k]|, size));
      }
      k := k + 1;
    }
    return Ok(teams);
  }
}
