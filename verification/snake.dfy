/** The pure snake draft (`distribute_teams_snake`) and the cluster-based
    distribution (`distribute_teams_cluster`), which deal the score-sorted
    roster in the same order. */
module SnakeDraft {
  import opened Roster
  import opened Arith

  /** The team that sorted position `i` joins: left to right in even rounds,
      right to left in odd rounds. */
  function SnakeTeam(i: nat, n: nat): (k: nat)
    requires n >= 1
    ensures k < n
  {
    var roundNum := i / n;
    if roundNum % 2 == 0 then i % n else n - 1 - i % n
  }

  /** The teams after dealing `s`, one player after the other, in snake order. */
  function SnakeDealt(s: seq<Player>, n: nat): (r: Partition)
    requires n >= 1
    ensures |r| == n
  {
    if s == [] then EmptyTeams(n)
    else AppendTo(SnakeDealt(s[..|s| - 1], n), SnakeTeam(|s| - 1, n), s[|s| - 1])
  }

  /** The sorted position that ends up as member `q` of team `k`. */
  function SnakePos(n: nat, k: nat, q: nat): nat
    requires k < n
  {
    n * q + (if q % 2 == 0 then k else n - 1 - k)
  }

  lemma SnakePosBound(n: nat, k: nat, q: nat, size: nat)
    requires k < n && q < size
    ensures SnakePos(n, k, q) < n * size
  {
    MulLe(n, q + 1, size);
  }

  /** The snake partition of an exactly divisible sorted roster, by formula. */
  function SnakeLayout(s: seq<Player>, n: nat, size: nat): (r: Partition)
    requires n >= 1 && |s| == n * size
    ensures AllSized(r, n, size)
  {
    seq(n, k requires 0 <= k < n =>
      seq(size, q requires 0 <= q < size =>
        SnakePosBound(n, k, q, size);
        s[SnakePos(n, k, q)]))
  }

  /** The team that takes pick `j` of round `c`. */
  function PickTeam(c: nat, j: nat, n: nat): nat
    requires j < n
  {
    if c % 2 == 0 then j else n - 1 - j
  }

  /** How many players team `k` holds after `c` full rounds and `j` more picks. */
  function CountAt(c: nat, j: nat, n: nat, k: nat): nat
  {
    c + (if c % 2 == 0 then (if k < j then 1 else 0) else (if k >= n - j then 1 else 0))
  }

  /** One more pick after `c` rounds and `j` picks goes to the team
      `PickTeam` names, and only that team's count grows. */
  lemma CountStep(c: nat, j: nat, n: nat, k: nat)
    requires j < n && k < n
    ensures j + 1 < n ==>
              CountAt(c, j + 1, n, k) == CountAt(c, j, n, k) + (if k == PickTeam(c, j, n) then 1 else 0)
    ensures j + 1 == n ==>
              CountAt(c + 1, 0, n, k) == CountAt(c, j, n, k) + (if k == PickTeam(c, j, n) then 1 else 0)
    ensures k == PickTeam(c, j, n) ==> CountAt(c, j, n, k) == c
  {
  }

  /** Sorted position `i`, pick `j` of round `c`, goes to `PickTeam(c, j, n)`
      as that team's member `c`. */
  lemma SnakePick(i: nat, n: nat, c: nat, j: nat)
    requires n >= 1 && j < n && i == c * n + j
    ensures SnakeTeam(i, n) == PickTeam(c, j, n)
    ensures SnakePos(n, PickTeam(c, j, n), c) == i
  {
    DivMod(i, n, c, j);
    assert n * c == c * n;
  }

  /** No picks at all means round 0, pick 0. */
  lemma NoRounds(n: nat, c: nat, j: nat)
    requires n >= 1 && c * n + j == 0
    ensures c == 0 && j == 0
  {
    if c > 0 {
      MulLe(n, 1, c);
    }
  }

  /** The pick before pick `j` of round `c`. */
  lemma PrevPick(n: nat, c: nat, j: nat) returns (c': nat, j': nat)
    requires n >= 1 && j < n && c * n + j >= 1
    ensures c' * n + j' == c * n + j - 1 && j' < n
    ensures j > 0 ==> c' == c && j' == j - 1
    ensures j == 0 ==> c' + 1 == c && j' + 1 == n
  {
    if j > 0 {
      c', j' := c, j - 1;
    } else {
      c', j' := c - 1, n - 1;
      assert c * n == (c - 1) * n + n;
    }
  }

  /** After dealing `c` rounds and `j` more picks, team `k` holds
      `CountAt(c, j, n, k)` players, and its member `q` is sorted position
      `SnakePos(n, k, q)`. */
  lemma {:induction false} SnakeDealtShape(s: seq<Player>, n: nat, c: nat, j: nat)
    requires n >= 1 && j < n && |s| == c * n + j
    ensures forall k :: 0 <= k < n ==>
              |SnakeDealt(s, n)[k]| == CountAt(c, j, n, k) &&
              forall q :: 0 <= q < |SnakeDealt(s, n)[k]| ==>
                SnakePos(n, k, q) < |s| && SnakeDealt(s, n)[k][q] == s[SnakePos(n, k, q)]
    decreases |s|
  {
    if s == [] {
      NoRounds(n, c, j);
    } else {
      var i := |s| - 1;
      var c', j' := PrevPick(n, c, j);
      SnakeDealtShape(s[..i], n, c', j');
      SnakePick(i, n, c', j');
      forall k | 0 <= k < n
        ensures |SnakeDealt(s, n)[k]| == CountAt(c, j, n, k)
        ensures forall q :: 0 <= q < |SnakeDealt(s, n)[k]| ==>
                  SnakePos(n, k, q) < |s| && SnakeDealt(s, n)[k][q] == s[SnakePos(n, k, q)]
      {
        CountStep(c', j', n, k);
      }
    }
  }

  /** With `n * size` players the snake deal is exactly the layout formula:
      every team gets `size` players, sorted position `i` going to team
      `i % n` in even rounds and to `n - 1 - i % n` in odd ones. */
  lemma SnakeDealtExact(s: seq<Player>, n: nat, size: nat)
    requires n >= 1 && |s| == n * size
    ensures SnakeDealt(s, n) == SnakeLayout(s, n, size)
  {
    SnakeDealtShape(s, n, size, 0);
    var d, l := SnakeDealt(s, n), SnakeLayout(s, n, size);
    forall k | 0 <= k < n ensures d[k] == l[k] {
      assert |d[k]| == size;
    }
  }

  /** The snake deal places every player of `s` exactly once. */
  lemma {:induction false} SnakeDealtPlayers(s: seq<Player>, n: nat)
    requires n >= 1
    ensures multiset(Flatten(SnakeDealt(s, n))) == multiset(s)
    decreases |s|
  {
    if s == [] {
      FlattenEmpty(n);
    } else {
      var i := |s| - 1;
      SnakeDealtPlayers(s[..i], n);
      FlattenAppend(SnakeDealt(s[..i], n), SnakeTeam(i, n), s[i]);
      assert s == s[..i] + [s[i]];
    }
  }

  lemma SnakeDealtNext(s: seq<Player>, i: nat, n: nat)
    requires n >= 1 && i < |s|
    ensures SnakeDealt(s[..i + 1], n) == AppendTo(SnakeDealt(s[..i], n), SnakeTeam(i, n), s[i])
  {
    assert s[..i + 1][..i] == s[..i];
  }

  /** The dealing loop of `distribute_teams_snake`: position `i` of the sorted
      roster goes to team `SnakeTeam(i, n)`. */
  method DealSnake(sorted: seq<Player>, n: nat) returns (teams: Partition)
    requires n >= 1
    ensures teams == SnakeDealt(sorted, n)
  {
    teams := EmptyTeams(n);
    var i := 0;
    while i < |sorted|
      invariant 0 <= i <= |sorted|
      invariant teams == SnakeDealt(sorted[..i], n)
    {
      var roundNum := i / n;
      var teamIdx := if roundNum % 2 == 0 then i % n else n - 1 - i % n;
      SnakeDealtNext(sorted, i, n);
      teams := AppendTo(teams, teamIdx, sorted[i]);
      i := i + 1;
    }
    assert sorted[..i] == sorted;
  }

  /** `distribute_teams_snake`: deals the stably sorted roster in snake order,
      then runs the final size check. */
  method DistributeSnake(players: seq<Player>, n: nat, size: int) returns (r: Result<Partition, BalanceError>)
    requires n >= 1
    ensures r.Ok? <==> AllSized(SnakeDealt(SortDesc(players), n), n, size)
    ensures r.Ok? ==> r.value == SnakeDealt(SortDesc(players), n)
    ensures r.Ok? ==> multiset(Flatten(r.value)) == multiset(players)
    ensures r.Err? ==> r.error.UnevenTeams?
    ensures size >= 0 && |players| == n * size ==> r == Ok(SnakeLayout(SortDesc(players), n, size))
  {
    var sorted := SortDesc(players);
    var teams := DealSnake(sorted, n);
    SnakeDealtPlayers(sorted, n);
    if size >= 0 && |players| == n * size {
      SnakeDealtExact(sorted, n, size);
    }
    r := CheckTeamSizes(teams, size);
  }

  /** Consecutive slices of `n` players, the last one possibly shorter. */
  function Chunks(s: seq<Player>, n: nat): (r: seq<seq<Player>>)
    requires n >= 1
    ensures Flatten(r) == s
    ensures forall c :: 0 <= c < |r| ==> 1 <= |r[c]| <= n
    ensures forall c :: 0 <= c < |r| - 1 ==> |r[c]| == n
    decreases |s|
  {
    if s == [] then []
    else if |s| <= n then
      assert [s][1..] == [];
      [s]
    else
      var rest := Chunks(s[n..], n);
      assert ([s[..n]] + rest)[1..] == rest;
      assert s == s[..n] + s[n..];
      [s[..n]] + rest
  }

  /** Dealing member `j` of cluster `c` is the snake deal's next step. */
  lemma ClusterStep(done: seq<Player>, cluster: seq<Player>, c: nat, j: nat, n: nat)
    requires n >= 1 && |done| == c * n && j < |cluster| <= n
    ensures SnakeDealt(done + cluster[..j + 1], n)
         == AppendTo(SnakeDealt(done + cluster[..j], n), if c % 2 == 0 then j else n - 1 - j, cluster[j])
  {
    var dealt := done + cluster[..j + 1];
    assert dealt[..|dealt| - 1] == done + cluster[..j] && dealt[|dealt| - 1] == cluster[j];
    DivMod(c * n + j, n, c, j);
  }

  /** The inner loop of `distribute_teams_cluster`: cluster `c` goes to teams
      `0..n-1` when `c` is even and to teams `n-1..0` when it is odd. */
  method DealCluster(teams: Partition, cluster: seq<Player>, c: nat, n: nat, ghost done: seq<Player>)
    returns (dealt: Partition)
    requires n >= 1 && |done| == c * n && |cluster| <= n
    requires teams == SnakeDealt(done, n)
    ensures dealt == SnakeDealt(done + cluster, n)
  {
    dealt := teams;
    var j := 0;
    assert done + cluster[..0] == done;
    while j < |cluster|
      invariant 0 <= j <= |cluster| && |dealt| == n
      invariant dealt == SnakeDealt(done + cluster[..j], n)
    {
      ClusterStep(done, cluster, c, j, n);
      if j < |dealt| {
        if c % 2 == 0 {
          dealt := AppendTo(dealt, j, cluster[j]);
        } else {
          dealt := AppendTo(dealt, |dealt| - 1 - j, cluster[j]);
        }
      }
      j := j + 1;
    }
    assert cluster[..j] == cluster;
  }

  /** Bookkeeping for the cluster loop: the clusters dealt so far are the
      next stretch of the sorted roster. */
  lemma ChunkProgress(clusters: seq<seq<Player>>, c: nat, n: nat)
    requires c < |clusters|
    requires forall d :: 0 <= d < |clusters| - 1 ==> |clusters[d]| == n
    requires |Flatten(clusters[..c])| == c * n
    ensures Flatten(clusters[..c + 1]) == Flatten(clusters[..c]) + clusters[c]
    ensures c + 1 < |clusters| ==> |Flatten(clusters[..c + 1])| == (c + 1) * n
  {
    FlattenSnoc(clusters[..c], clusters[c]);
    assert clusters[..c + 1] == clusters[..c] + [clusters[c]];
  }

  /** The outer loop of `distribute_teams_cluster`: the clusters of `n`
      sorted players, dealt one after the other. */
  method DealClusters(sorted: seq<Player>, n: nat) returns (teams: Partition)
    requires n >= 1
    ensures teams == SnakeDealt(sorted, n)
  {
    var clusters := Chunks(sorted, n);
    teams := EmptyTeams(n);
    var c := 0;
    assert clusters[..0] == [];
    while c < |clusters|
      invariant 0 <= c <= |clusters|
      invariant teams == SnakeDealt(Flatten(clusters[..c]), n)
      invariant c < |clusters| ==> |Flatten(clusters[..c])| == c * n
    {
      teams := DealCluster(teams, clusters[c], c, n, Flatten(clusters[..c]));
      ChunkProgress(clusters, c, n);
      c := c + 1;
    }
    assert clusters[..c] == clusters;
  }

  /** `distribute_teams_cluster`: deals consecutive clusters of `n` sorted
      players alternately forwards and backwards, then runs the size check.
      Its result is the snake draft's, for every roster. */
  method DistributeCluster(players: seq<Player>, n: nat, size: int) returns (r: Result<Partition, BalanceError>)
    requires n >= 1
    ensures r.Ok? <==> AllSized(SnakeDealt(SortDesc(players), n), n, size)
    ensures r.Ok? ==> r.value == SnakeDealt(SortDesc(players), n)
    ensures r.Ok? ==> multiset(Flatten(r.value)) == multiset(players)
    ensures r.Err? ==> r.error.UnevenTeams?
    ensures size >= 0 && |players| == n * size ==> r == Ok(SnakeLayout(SortDesc(players), n, size))
  {
    var sorted := SortDesc(players);
    var teams := DealClusters(sorted, n);
    SnakeDealtPlayers(sorted, n);
    if size >= 0 && |players| == n * size {
      SnakeDealtExact(sorted, n, size);
    }
    r := CheckTeamSizes(teams, size);
  }
}
