/** `distribute_teams_round_robin`: a first pass that gives every team one
    of the top players, then passes that alternate direction. The pass
    counter starts at 1 and odd passes run left to right, so the first two
    passes both run left to right. */
module RoundRobin {
  import opened Roster
  import opened Arith

  /** The team that takes the `x`-th pick of pass `roundNum`. */
  function PickOrder(roundNum: nat, n: nat, x: nat): (k: nat)
    requires x < n
    ensures k < n
  {
    if roundNum % 2 == 1 then x else n - 1 - x
  }

  // ---------------------------------------------------------------------
  // The draft as specification functions
  // ---------------------------------------------------------------------

  /** The teams after the first pass: team `k` holds sorted player `k`. */
  function Opening(s: seq<Player>, n: nat): (r: Partition)
    requires n <= |s|
    ensures |r| == n
  {
    seq(n, k requires 0 <= k < n => [s[k]])
  }

  /** One turn: team `t` takes the best remaining player, unless the pool is
      empty or the team is already full. */
  function Pick(teams: Partition, remaining: seq<Player>, t: nat, size: int): (r: (Partition, seq<Player>))
    requires t < |teams|
    ensures |r.0| == |teams|
    ensures remaining != [] && |teams[t]| < size ==> |r.1| == |remaining| - 1
    ensures !(remaining != [] && |teams[t]| < size) ==> r == (teams, remaining)
  {
    if remaining != [] && |teams[t]| < size then (AppendTo(teams, t, remaining[0]), remaining[1..])
    else (teams, remaining)
  }

  /** The teams and the pool once the turns `idx..n-1` of pass `roundNum` are
      taken; a team skips its turn when the pool is empty or it is full. */
  function PassFrom(teams: Partition, remaining: seq<Player>, roundNum: nat, n: nat, size: int, idx: nat)
    : (r: (Partition, seq<Player>))
    requires idx <= n && |teams| == n
    ensures |r.0| == n && |r.1| <= |remaining|
    ensures idx < n && remaining != [] && |teams[PickOrder(roundNum, n, idx)]| < size ==>
              |r.1| < |remaining|
    decreases n - idx
  {
    if idx == n then (teams, remaining)
    else
      var p := Pick(teams, remaining, PickOrder(roundNum, n, idx), size);
      PassFrom(p.0, p.1, roundNum, n, size, idx + 1)
  }

  /** The `while` loop: passes `roundNum`, `roundNum + 1`, ... run while
      players remain and every team has room. */
  function RoundsFrom(teams: Partition, remaining: seq<Player>, roundNum: nat, n: nat, size: int)
    : (r: (Partition, seq<Player>))
    requires n >= 1 && |teams| == n
    ensures |r.0| == n
    decreases |remaining|
  {
    if remaining != [] && forall k | 0 <= k < n :: |teams[k]| < size then
      var p := PassFrom(teams, remaining, roundNum, n, size, 0);
      RoundsFrom(p.0, p.1, roundNum + 1, n, size)
    else
      (teams, remaining)
  }

  /** The teams `distribute_teams_round_robin` builds from a sorted roster of
      at least `n` players, before its final size check. */
  function RoundRobinDealt(s: seq<Player>, n: nat, size: int): (r: Partition)
    requires 1 <= n <= |s|
    ensures |r| == n
  {
    RoundsFrom(Opening(s, n), s[n..], 1, n, size).0
  }

  // ---------------------------------------------------------------------
  // The layout of an exactly divisible roster
  // ---------------------------------------------------------------------

  /** The sorted position that member `q` of team `k` holds once every team
      is full: the first pass and every odd pass deal left to right, the
      even passes right to left. */
  function RoundRobinPos(n: nat, k: nat, q: nat): nat
    requires k < n
  {
    n * q + (if q == 0 then k else PickOrder(q, n, k))
  }

  lemma RoundRobinPosBound(n: nat, k: nat, q: nat, size: nat)
    requires k < n && q < size
    ensures RoundRobinPos(n, k, q) < n * size
  {
    MulLe(n, q + 1, size);
  }

  /** The round-robin partition of an exactly divisible sorted roster, by formula. */
  function RoundRobinLayout(s: seq<Player>, n: nat, size: nat): (r: Partition)
    requires n >= 1 && |s| == n * size
    ensures AllSized(r, n, size)
  {
    seq(n, k requires 0 <= k < n =>
      seq(size, q requires 0 <= q < size =>
        RoundRobinPosBound(n, k, q, size);
        s[RoundRobinPos(n, k, q)]))
  }

  /** Every team holds exactly its first `rounds` members of the layout. */
  ghost predicate RoundsDone(teams: Partition, s: seq<Player>, n: nat, rounds: nat)
  {
    |teams| == n &&
    forall k :: 0 <= k < n ==>
      |teams[k]| == rounds &&
      forall q :: 0 <= q < rounds ==>
        RoundRobinPos(n, k, q) < |s| && teams[k][q] == s[RoundRobinPos(n, k, q)]
  }

  lemma RoundsDoneLayout(teams: Partition, s: seq<Player>, n: nat, size: nat)
    requires n >= 1 && |s| == n * size && RoundsDone(teams, s, n, size)
    ensures teams == RoundRobinLayout(s, n, size)
  {
    var l := RoundRobinLayout(s, n, size);
    forall k | 0 <= k < n ensures teams[k] == l[k] {
    }
  }

  /** After the opening pass, team `k` holds sorted player `k`. */
  lemma FirstRound(s: seq<Player>, n: nat)
    requires n <= |s|
    ensures RoundsDone(Opening(s, n), s, n, 1) && n * 1 == n
  {
  }

  /** Part way through pass `roundNum` of an exact roster: the teams whose
      pick comes before `idx` have taken theirs, from sorted position `base` on. */
  ghost predicate PartialPass(before: Partition, after: Partition, rest: seq<Player>, s: seq<Player>,
                              n: nat, roundNum: nat, base: nat, idx: nat)
  {
    |before| == n && |after| == n && idx <= n && base + n <= |s| && rest == s[base + idx..] &&
    (forall k :: 0 <= k < n ==> |before[k]| == roundNum) &&
    (forall k :: 0 <= k < n ==>
       |after[k]| == roundNum + (if PickOrder(roundNum, n, k) < idx then 1 else 0)) &&
    (forall k, q :: 0 <= k < n && 0 <= q < roundNum ==> after[k][q] == before[k][q]) &&
    (forall k :: 0 <= k < n && PickOrder(roundNum, n, k) < idx ==>
       after[k][roundNum] == s[base + PickOrder(roundNum, n, k)])
  }

  /** The team picking `idx`-th in the pass can pick, and picking keeps the pass on track. */
  lemma PickStep(before: Partition, after: Partition, rest: seq<Player>, s: seq<Player>,
                 n: nat, roundNum: nat, base: nat, idx: nat, size: int, t: nat)
    requires PartialPass(before, after, rest, s, n, roundNum, base, idx)
    requires idx < n && t < n && PickOrder(roundNum, n, t) == idx && roundNum < size
    ensures rest != [] && |after[t]| < size
    ensures PartialPass(before, AppendTo(after, t, rest[0]), rest[1..], s, n, roundNum, base, idx + 1)
  {
    var after' := AppendTo(after, t, rest[0]);
    forall k | 0 <= k < n
      ensures |after'[k]| == roundNum + (if PickOrder(roundNum, n, k) < idx + 1 then 1 else 0)
    {
    }
  }

  /** On an exact roster the remaining turns of a pass all pick, in order. */
  lemma {:induction false} PassFromExact(before: Partition, after: Partition, rest: seq<Player>, s: seq<Player>,
                                         n: nat, roundNum: nat, base: nat, idx: nat, size: int)
    requires PartialPass(before, after, rest, s, n, roundNum, base, idx) && roundNum < size
    ensures PartialPass(before, PassFrom(after, rest, roundNum, n, size, idx).0,
                        PassFrom(after, rest, roundNum, n, size, idx).1, s, n, roundNum, base, n)
    decreases n - idx
  {
    if idx < n {
      var t := PickOrder(roundNum, n, idx);
      PickStep(before, after, rest, s, n, roundNum, base, idx, size, t);
      assert Pick(after, rest, t, size) == (AppendTo(after, t, rest[0]), rest[1..]);
      PassFromExact(before, AppendTo(after, t, rest[0]), rest[1..], s, n, roundNum, base, idx + 1, size);
    }
  }

  /** A finished pass on an exact roster completes round `roundNum + 1`. */
  lemma PassComplete(before: Partition, after: Partition, rest: seq<Player>, s: seq<Player>,
                     n: nat, roundNum: nat, size: nat)
    requires n >= 1 && |s| == n * size && 1 <= roundNum < size
    requires RoundsDone(before, s, n, roundNum)
    requires PartialPass(before, after, rest, s, n, roundNum, n * roundNum, n)
    ensures RoundsDone(after, s, n, roundNum + 1)
  {
    forall k | 0 <= k < n
      ensures |after[k]| == roundNum + 1
      ensures forall q :: 0 <= q < roundNum + 1 ==>
                RoundRobinPos(n, k, q) < |s| && after[k][q] == s[RoundRobinPos(n, k, q)]
    {
      assert RoundRobinPos(n, k, roundNum) == n * roundNum + PickOrder(roundNum, n, k);
      forall q | 0 <= q < roundNum + 1
        ensures RoundRobinPos(n, k, q) < |s| && after[k][q] == s[RoundRobinPos(n, k, q)]
      {
        RoundRobinPosBound(n, k, q, size);
        if q < roundNum {
          assert after[k][q] == before[k][q];
        }
      }
    }
  }

  lemma PassArith(n: nat, roundNum: nat, size: nat)
    requires roundNum < size
    ensures n * roundNum + n <= n * size
    ensures n * roundNum + n == n * (roundNum + 1)
    ensures n * roundNum <= n * size
  {
    MulLe(n, roundNum + 1, size);
  }

  /** While players remain on an exact roster, a pass is still to come. */
  lemma RoundsLeft(remaining: seq<Player>, s: seq<Player>, n: nat, size: nat, roundNum: nat)
    requires |s| == n * size && roundNum <= size && n * roundNum <= |s|
    requires remaining == s[n * roundNum..] && remaining != []
    ensures roundNum < size
  {
    if roundNum == size {
      assert false;
    }
  }

  /** When the `while` loop stops on an exact roster, every team is full. */
  lemma ExactExit(teams: Partition, remaining: seq<Player>, s: seq<Player>, n: nat, size: nat, roundNum: nat)
    requires n >= 1 && size >= 1 && |s| == n * size && roundNum <= size && n * roundNum <= |s|
    requires RoundsDone(teams, s, n, roundNum) && remaining == s[n * roundNum..]
    requires !(remaining != [] && forall k | 0 <= k < n :: |teams[k]| < size)
    ensures roundNum == size && remaining == []
  {
    if roundNum < size {
      PassArith(n, roundNum, size);
      assert false;
    }
  }

  /** One pass on an exact roster with players left deals round `roundNum + 1`. */
  lemma RoundAdvance(teams: Partition, remaining: seq<Player>, s: seq<Player>,
                     n: nat, size: nat, roundNum: nat)
    requires n >= 1 && |s| == n * size && 1 <= roundNum <= size && n * roundNum <= |s|
    requires RoundsDone(teams, s, n, roundNum) && remaining == s[n * roundNum..] && remaining != []
    ensures roundNum + 1 <= size && n * (roundNum + 1) <= |s|
    ensures RoundsDone(PassFrom(teams, remaining, roundNum, n, size, 0).0, s, n, roundNum + 1)
    ensures PassFrom(teams, remaining, roundNum, n, size, 0).1 == s[n * (roundNum + 1)..]
  {
    RoundsLeft(remaining, s, n, size, roundNum);
    PassArith(n, roundNum, size);
    var p := PassFrom(teams, remaining, roundNum, n, size, 0);
    assert PartialPass(teams, teams, remaining, s, n, roundNum, n * roundNum, 0);
    PassFromExact(teams, teams, remaining, s, n, roundNum, n * roundNum, 0, size);
    PassComplete(teams, p.0, p.1, s, n, roundNum, size);
  }

  /** From round `roundNum` of an exact roster on, the passes deal every
      remaining player and leave every team with its layout members. */
  lemma {:induction false} RoundsFromExact(teams: Partition, remaining: seq<Player>, s: seq<Player>,
                                           n: nat, size: nat, roundNum: nat)
    requires n >= 1 && size >= 1 && |s| == n * size && 1 <= roundNum <= size && n * roundNum <= |s|
    requires RoundsDone(teams, s, n, roundNum) && remaining == s[n * roundNum..]
    ensures RoundsDone(RoundsFrom(teams, remaining, roundNum, n, size).0, s, n, size)
    ensures RoundsFrom(teams, remaining, roundNum, n, size).1 == []
    decreases size - roundNum
  {
    if remaining != [] && forall k | 0 <= k < n :: |teams[k]| < size {
      var p := PassFrom(teams, remaining, roundNum, n, size, 0);
      RoundAdvance(teams, remaining, s, n, size, roundNum);
      RoundsFromExact(p.0, p.1, s, n, size, roundNum + 1);
    } else {
      ExactExit(teams, remaining, s, n, size, roundNum);
    }
  }

  /** With `n * size` players (`size >= 1`) the draft is the layout formula:
      team `k` opens with sorted player `k`, the second pass again runs left
      to right, and later passes alternate direction; no player is left over. */
  lemma RoundRobinDealtExact(s: seq<Player>, n: nat, size: nat)
    requires n >= 1 && size >= 1 && |s| == n * size
    ensures n <= |s| && RoundRobinDealt(s, n, size) == RoundRobinLayout(s, n, size)
    ensures RoundsFrom(Opening(s, n), s[n..], 1, n, size).1 == []
  {
    MulLe(n, 1, size);
    FirstRound(s, n);
    RoundsFromExact(Opening(s, n), s[n..], s, n, size, 1);
    RoundsDoneLayout(RoundRobinDealt(s, n, size), s, n, size);
  }

  // ---------------------------------------------------------------------
  // The imperative draft
  // ---------------------------------------------------------------------

  /** On an exactly divisible roster with at least two players per team,
      team `k` opens with sorted player `k` and takes sorted player
      `n + k` next: the second pass also runs left to right. */
  lemma RoundRobinFirstPasses(s: seq<Player>, n: nat, size: nat, k: nat)
    requires n >= 1 && size >= 2 && |s| == n * size && k < n
    ensures n <= |s| && |RoundRobinDealt(s, n, size)[k]| == size
    ensures RoundRobinDealt(s, n, size)[k][0] == s[k] && RoundRobinDealt(s, n, size)[k][1] == s[n + k]
  {
    RoundRobinDealtExact(s, n, size);
  }

  /** One turn of a pass: team `t` takes the best remaining player unless
      the pool is empty or the team is full. */
  method TakePick(teams: Partition, remaining: seq<Player>, t: nat, size: int)
    returns (teams': Partition, remaining': seq<Player>)
    requires t < |teams|
    ensures multiset(Flatten(teams')) + multiset(remaining')
         == multiset(Flatten(teams)) + multiset(remaining)
    ensures (teams', remaining') == Pick(teams, remaining, t, size)
  {
    teams', remaining' := teams, remaining;
    if remaining != [] && |teams[t]| < size {
      FlattenAppend(teams, t, remaining[0]);
      assert multiset(remaining) == multiset{remaining[0]} + multiset(remaining[1..]) by {
        assert remaining == [remaining[0]] + remaining[1..];
      }
      teams' := AppendTo(teams, t, remaining[0]);
      remaining' := remaining[1..];
    }
  }

  /** One pass of the outer loop: each team of the pass order picks once. */
  method DraftPass(teams: Partition, remaining: seq<Player>, roundNum: nat, n: nat, size: int)
    returns (teams': Partition, remaining': seq<Player>)
    requires |teams| == n
    ensures (teams', remaining') == PassFrom(teams, remaining, roundNum, n, size, 0)
    ensures multiset(Flatten(teams')) + multiset(remaining')
         == multiset(Flatten(teams)) + multiset(remaining)
  {
    teams', remaining' := teams, remaining;
    var idx := 0;
    while idx < n
      invariant 0 <= idx <= n && |teams'| == n
      invariant multiset(Flatten(teams')) + multiset(remaining')
             == multiset(Flatten(teams)) + multiset(remaining)
      invariant PassFrom(teams', remaining', roundNum, n, size, idx) == PassFrom(teams, remaining, roundNum, n, size, 0)
    {
      var teamIdx := if roundNum % 2 == 1 then idx else n - 1 - idx;
      teams', remaining' := TakePick(teams', remaining', teamIdx, size);
      idx := idx + 1;
    }
  }

  /** The `while` loop of `distribute_teams_round_robin`, from pass 1. */
  method DraftRounds(teams: Partition, remaining: seq<Player>, n: nat, size: int)
    returns (teams': Partition, remaining': seq<Player>)
    requires n >= 1 && |teams| == n
    ensures (teams', remaining') == RoundsFrom(teams, remaining, 1, n, size)
    ensures multiset(Flatten(teams')) + multiset(remaining')
         == multiset(Flatten(teams)) + multiset(remaining)
  {
    teams', remaining' := teams, remaining;
    var roundNum := 1;
    while remaining' != [] && forall k | 0 <= k < n :: |teams'[k]| < size
      invariant |teams'| == n
      invariant multiset(Flatten(teams')) + multiset(remaining')
             == multiset(Flatten(teams)) + multiset(remaining)
      invariant RoundsFrom(teams', remaining', roundNum, n, size) == RoundsFrom(teams, remaining, 1, n, size)
      decreases |remaining'|
    {
      teams', remaining' := DraftPass(teams', remaining', roundNum, n, size);
      roundNum := roundNum + 1;
    }
  }

  /** Teams of one player each flatten to those players in order. */
  lemma {:induction false} FlattenSingletons(teams: Partition, s: seq<Player>)
    requires |teams| == |s| && forall k :: 0 <= k < |s| ==> teams[k] == [s[k]]
    ensures Flatten(teams) == s
    decreases |s|
  {
    if s != [] {
      FlattenSingletons(teams[1..], s[1..]);
    }
  }

  /** The first pass: team `k` takes sorted player `k`; it fails, as indexing
      past the end of the list does, when there are fewer players than teams. */
  method OpeningPass(sorted: seq<Player>, n: nat) returns (teams: Partition, ok: bool)
    ensures ok <==> n <= |sorted|
    ensures ok ==> teams == Opening(sorted, n) && multiset(Flatten(teams)) == multiset(sorted[..n])
  {
    teams := EmptyTeams(n);
    var i := 0;
    while i < n
      invariant 0 <= i <= n && i <= |sorted| && |teams| == n
      invariant forall k :: 0 <= k < i ==> teams[k] == [sorted[k]]
      invariant forall k :: i <= k < n ==> teams[k] == []
    {
      if i >= |sorted| {
        return teams, false;
      }
      teams := AppendTo(teams, i, sorted[i]);
      assert teams[i] == [sorted[i]];
      i := i + 1;
    }
    FlattenSingletons(teams, sorted[..n]);
    ok := true;
  }

  /** `distribute_teams_round_robin`: sorts the roster by score (stably,
      highest first), runs the opening pass and the alternating passes, then
      the final size check. */
  method DistributeRoundRobin(players: seq<Player>, n: nat, size: int)
    returns (r: Result<Partition, BalanceError>)
    requires n >= 1
    ensures |players| < n ==> r == Err(IndexOutOfRange)
    ensures |players| >= n ==>
              (r.Ok? <==> AllSized(RoundRobinDealt(SortDesc(players), n, size), n, size))
    ensures r.Ok? ==> r.value == RoundRobinDealt(SortDesc(players), n, size)
    ensures r.Ok? ==> multiset(Flatten(r.value)) <= multiset(players)
    ensures r.Err? ==> r.error.IndexOutOfRange? || r.error.UnevenTeams?
    ensures size >= 1 && |players| == n * size ==>
              r == Ok(RoundRobinLayout(SortDesc(players), n, size)) &&
              multiset(Flatten(r.value)) == multiset(players)
  {
    var sorted := SortDesc(players);
    if size >= 1 && |players| == n * size {
      RoundRobinDealtExact(sorted, n, size);
    }
    var teams, ok := OpeningPass(sorted, n);
    if !ok {
      return Err(IndexOutOfRange);
    }
    var remaining := sorted[n..];
    MultisetSplit(sorted, n);
    teams, remaining := DraftRounds(teams, remaining, n, size);
    MultisetPart(multiset(Flatten(teams)), multiset(remaining), multiset(players));
    r := CheckTeamSizes(teams, size);
  }
}
