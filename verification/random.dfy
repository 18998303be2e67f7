/** The tier-based random distribution (`distribute_teams_random`): players
    are grouped by tier, each group is shuffled and dealt `i % n`, the teams
    are shuffled, and an uneven result falls back to the round-robin draft.
    The random draws of `random.shuffle` are a parameter of the model. */
module RandomDraft {
  import opened Roster
  import opened Arith
  import opened RoundRobin

  // ---------------------------------------------------------------------
  // Python's string order (`sorted` over the tier labels)
  // ---------------------------------------------------------------------

  /** Lexicographic order by code point; a proper prefix comes first. */
  predicate StrLt(a: string, b: string)
    decreases |a|
  {
    if a == [] then b != []
    else if b == [] then false
    else if a[0] != b[0] then a[0] < b[0]
    else StrLt(a[1..], b[1..])
  }

  lemma {:induction false} StrLtIrreflexive(a: string)
    ensures !StrLt(a, a)
    decreases |a|
  {
    if a != [] {
      StrLtIrreflexive(a[1..]);
    }
  }

  lemma {:induction false} StrLtTotal(a: string, b: string)
    ensures a == b || StrLt(a, b) || StrLt(b, a)
    decreases |a|
  {
    if a != [] && b != [] && a[0] == b[0] {
      StrLtTotal(a[1..], b[1..]);
      if a[1..] == b[1..] {
        assert a == [a[0]] + a[1..] && b == [b[0]] + b[1..];
      }
    }
  }

  lemma {:induction false} StrLtTrans(a: string, b: string, c: string)
    requires StrLt(a, b) && StrLt(b, c)
    ensures StrLt(a, c)
    decreases |a|
  {
    if a != [] && a[0] == b[0] && b[0] == c[0] {
      StrLtTrans(a[1..], b[1..], c[1..]);
    }
  }

  predicate Ascending(s: seq<string>)
  {
    forall i, j :: 0 <= i < j < |s| ==> StrLt(s[i], s[j])
  }

  predicate Distinct(s: seq<string>)
  {
    forall i, j :: 0 <= i < j < |s| ==> s[i] != s[j]
  }

  function InsertStr(x: string, s: seq<string>): (r: seq<string>)
    ensures multiset(r) == multiset(s) + multiset{x} && |r| == |s| + 1
  {
    if s == [] || StrLt(x, s[0]) then [x] + s
    else
      assert s == [s[0]] + s[1..];
      [s[0]] + InsertStr(x, s[1..])
  }

  /** A bound below `x` and below every label of `s` stays below every
      label after the insertion. */
  lemma InsertStrAbove(lo: string, x: string, s: seq<string>)
    requires StrLt(lo, x) && forall i :: 0 <= i < |s| ==> StrLt(lo, s[i])
    ensures forall j :: 0 <= j < |InsertStr(x, s)| ==> StrLt(lo, InsertStr(x, s)[j])
  {
    var r := InsertStr(x, s);
    forall j | 0 <= j < |r| ensures StrLt(lo, r[j]) {
      assert r[j] in multiset(r);
      if r[j] != x {
        var l :| 0 <= l < |s| && s[l] == r[j];
      }
    }
  }

  lemma {:induction false} InsertStrAscending(x: string, s: seq<string>)
    requires Ascending(s) && x !in s
    ensures Ascending(InsertStr(x, s))
    decreases |s|
  {
    if s == [] {
    } else if StrLt(x, s[0]) {
      var r := [x] + s;
      forall i, j | 0 <= i < j < |r| ensures StrLt(r[i], r[j]) {
        if i == 0 && j > 1 {
          StrLtTrans(x, s[0], s[j - 1]);
        }
      }
    } else {
      StrLtTotal(x, s[0]);
      var rest := InsertStr(x, s[1..]);
      InsertStrAscending(x, s[1..]);
      var r := [s[0]] + rest;
      assert forall i :: 0 <= i < |s[1..]| ==> s[1..][i] == s[i + 1];
      InsertStrAbove(s[0], x, s[1..]);
      forall i, j | 0 <= i < j < |r| ensures StrLt(r[i], r[j]) {
        if i == 0 {
          assert r[j] == rest[j - 1];
        } else {
          assert r[i] == rest[i - 1] && r[j] == rest[j - 1];
        }
      }
    }
  }

  /** `sorted` over the tier labels, by insertion. */
  function SortStrings(s: seq<string>): (r: seq<string>)
    ensures multiset(r) == multiset(s) && |r| == |s|
  {
    if s == [] then []
    else
      assert s == [s[0]] + s[1..];
      InsertStr(s[0], SortStrings(s[1..]))
  }

  /** Distinct labels come out in ascending order. */
  lemma {:induction false} SortStringsAscending(s: seq<string>)
    requires Distinct(s)
    ensures Ascending(SortStrings(s))
    decreases |s|
  {
    if s != [] {
      var rest := SortStrings(s[1..]);
      assert Distinct(s[1..]) by {
        forall i, j | 0 <= i < j < |s[1..]| ensures s[1..][i] != s[1..][j] {
          assert s[1..][i] == s[i + 1] && s[1..][j] == s[j + 1];
        }
      }
      SortStringsAscending(s[1..]);
      assert s[0] !in multiset(s[1..]) by {
        forall i | 0 <= i < |s[1..]| ensures s[1..][i] != s[0] {
          assert s[1..][i] == s[i + 1];
        }
      }
      assert s[0] !in multiset(rest);
      InsertStrAscending(s[0], rest);
    }
  }

  /** An ascending sequence has no repeated label. */
  lemma AscendingDistinct(s: seq<string>)
    requires Ascending(s)
    ensures Distinct(s)
  {
    forall i, j | 0 <= i < j < |s| ensures s[i] != s[j] {
      if s[i] == s[j] {
        StrLtIrreflexive(s[i]);
      }
    }
  }

  // ---------------------------------------------------------------------
  // Grouping by tier (`players_by_tier`)
  // ---------------------------------------------------------------------

  /** The players of tier `t`, in roster order. */
  function WithTier(s: seq<Player>, t: string): (r: seq<Player>)
    ensures |r| == Count(s, t)
    ensures forall i :: 0 <= i < |r| ==> r[i].tier == t
  {
    if s == [] then []
    else
      CountAppend(s[..|s| - 1], s[|s| - 1], t);
      assert s[..|s| - 1] + [s[|s| - 1]] == s;
      WithTier(s[..|s| - 1], t) + (if s[|s| - 1].tier == t then [s[|s| - 1]] else [])
  }

  /** The tier labels of `s`, each once, in order of first appearance
      (the key order of the `players_by_tier` dictionary). */
  function TierKeys(s: seq<Player>): (r: seq<string>)
  {
    if s == [] then []
    else
      var keys := TierKeys(s[..|s| - 1]);
      var t := s[|s| - 1].tier;
      if t in keys then keys else keys + [t]
  }

  /** The dictionary's keys are distinct, and are exactly the tiers with a
      non-empty group. */
  lemma {:induction false} TierKeysSpec(s: seq<Player>)
    ensures Distinct(TierKeys(s))
    ensures forall t :: t in TierKeys(s) <==> WithTier(s, t) != []
    decreases |s|
  {
    if s != [] {
      var init, p := s[..|s| - 1], s[|s| - 1];
      TierKeysSpec(init);
      assert init + [p] == s;
      forall t ensures t in TierKeys(s) <==> WithTier(s, t) != [] {
        WithTierSnoc(init, p, t);
      }
    }
  }

  /** `keys` and `groups` are the `players_by_tier` dictionary built from `s`. */
  ghost predicate Grouped(s: seq<Player>, keys: seq<string>, groups: map<string, seq<Player>>)
  {
    && keys == TierKeys(s)
    && (forall t :: t in groups <==> t in keys)
    && (forall t :: t in groups ==> groups[t] == WithTier(s, t))
  }

  /** Appending one player to its tier's group (opening the group if the
      tier is new) keeps the dictionary in step with the roster. */
  lemma GroupedSnoc(s: seq<Player>, p: Player, keys: seq<string>, groups: map<string, seq<Player>>)
    requires Grouped(s, keys, groups)
    ensures Grouped(s + [p], if p.tier in groups then keys else keys + [p.tier],
                    groups[p.tier := (if p.tier in groups then groups[p.tier] else []) + [p]])
  {
    var keys' := if p.tier in groups then keys else keys + [p.tier];
    var groups' := groups[p.tier := (if p.tier in groups then groups[p.tier] else []) + [p]];
    assert (s + [p])[..|s + [p]| - 1] == s;
    TierKeysSpec(s);
    assert p.tier in keys <==> p.tier in groups;
    assert TierKeys(s + [p]) == keys';
    forall t | t in groups' ensures groups'[t] == WithTier(s + [p], t) {
      WithTierSnoc(s, p, t);
    }
  }

  /** The dictionary built by adding the players of `s` one by one, each
      to the group of its tier (opened empty on the tier's first player). */
  function GroupMap(s: seq<Player>): map<string, seq<Player>>
  {
    if s == [] then map[]
    else
      var g, p := GroupMap(s[..|s| - 1]), s[|s| - 1];
      g[p.tier := (if p.tier in g then g[p.tier] else []) + [p]]
  }

  /** The dictionary has the keys of `TierKeys` and maps each one to its
      group in roster order. */
  lemma {:induction false} GroupMapSpec(s: seq<Player>)
    ensures Grouped(s, TierKeys(s), GroupMap(s))
    decreases |s|
  {
    if s != [] {
      var init, p := s[..|s| - 1], s[|s| - 1];
      GroupMapSpec(init);
      GroupedSnoc(init, p, TierKeys(init), GroupMap(init));
      assert init + [p] == s;
    }
  }

  /** One more player of the roster, for the grouping loop. */
  lemma GroupNext(players: seq<Player>, i: nat)
    requires i < |players|
    ensures TierKeys(players[..i + 1]) == if players[i].tier in GroupMap(players[..i]) then TierKeys(players[..i])
                                          else TierKeys(players[..i]) + [players[i].tier]
    ensures GroupMap(players[..i + 1]) == GroupMap(players[..i])[players[i].tier :=
              (if players[i].tier in GroupMap(players[..i]) then GroupMap(players[..i])[players[i].tier] else []) + [players[i]]]
  {
    assert players[..i + 1][..i] == players[..i];
    GroupMapSpec(players[..i]);
  }

  /** The grouping loop: `keys` in first-appearance order, and each key
      mapped to its players in roster order. */
  method GroupByTier(players: seq<Player>) returns (keys: seq<string>, groups: map<string, seq<Player>>)
    ensures Grouped(players, keys, groups)
  {
    keys, groups := [], map[];
    var i := 0;
    while i < |players|
      invariant 0 <= i <= |players|
      invariant keys == TierKeys(players[..i]) && groups == GroupMap(players[..i])
    {
      var p := players[i];
      GroupNext(players, i);
      keys, groups := if p.tier in groups then keys else keys + [p.tier],
                      groups[p.tier := (if p.tier in groups then groups[p.tier] else []) + [p]];
      i := i + 1;
    }
    assert players[..i] == players;
    GroupMapSpec(players);
  }

  /** The keys in the order `sorted(players_by_tier.items())` visits them. */
  function TierOrder(players: seq<Player>): (r: seq<string>)
    ensures Ascending(r) && Distinct(r)
    ensures forall t :: t in r <==> WithTier(players, t) != []
  {
    var keys := TierKeys(players);
    TierKeysSpec(players);
    var r := SortStrings(keys);
    SortStringsAscending(keys);
    AscendingDistinct(r);
    assert forall t :: t in r <==> t in multiset(keys);
    r
  }

  // ---------------------------------------------------------------------
  // `random.shuffle`, with its draws as a parameter
  // ---------------------------------------------------------------------

  function Swap(s: seq<Player>, i: nat, j: nat): (r: seq<Player>)
    requires i < |s| && j < |s|
    ensures multiset(r) == multiset(s) && |r| == |s|
  {
    s[i := s[j]][j := s[i]]
  }

  /** Fisher-Yates from position `i` down to 1: position `i` is exchanged
      with position `draws(call, i) % (i + 1)`. */
  function ShuffleDown(s: seq<Player>, draws: (nat, nat) -> nat, call: nat, i: nat): (r: seq<Player>)
    requires i < |s|
    ensures multiset(r) == multiset(s) && |r| == |s|
    decreases i
  {
    if i == 0 then s else ShuffleDown(Swap(s, i, draws(call, i) % (i + 1)), draws, call, i - 1)
  }

  /** `random.shuffle(s)` as shuffle number `call`: every outcome is some
      rearrangement of `s`. */
  function Shuffled(s: seq<Player>, draws: (nat, nat) -> nat, call: nat): (r: seq<Player>)
    ensures multiset(r) == multiset(s) && |r| == |s|
  {
    if s == [] then s else ShuffleDown(s, draws, call, |s| - 1)
  }

  /** A rearranged group still holds only players of its tier. */
  lemma SameTier(g: seq<Player>, r: seq<Player>, u: string)
    requires multiset(r) == multiset(g)
    requires forall i :: 0 <= i < |g| ==> g[i].tier == u
    ensures forall i :: 0 <= i < |r| ==> r[i].tier == u
  {
    forall i | 0 <= i < |r| ensures r[i].tier == u {
      assert r[i] in multiset(g);
      var l :| 0 <= l < |g| && g[l] == r[i];
    }
  }

  // ---------------------------------------------------------------------
  // Dealing a tier: player `i` of the group joins team `i % n`
  // ---------------------------------------------------------------------

  /** The teams after dealing `g` position by position to team `i % n`. */
  function DealRR(teams: Partition, g: seq<Player>, n: nat): (r: Partition)
    requires n >= 1 && |teams| == n
    ensures |r| == n
  {
    if g == [] then teams
    else AppendTo(DealRR(teams, g[..|g| - 1], n), (|g| - 1) % n, g[|g| - 1])
  }

  /** How many of the positions `0 .. len - 1` are `k` modulo `n`: one for
      every full round of `n`, and one more if the last, partial round
      reaches team `k`. */
  function Share(len: nat, n: nat, k: nat): nat
    requires n >= 1
    decreases len
  {
    if len < n then (if k < len then 1 else 0) else 1 + Share(len - n, n, k)
  }

  /** `Share` of `c` full rounds and `j` more positions: one per round, plus
      one when the partial round reaches team `k`. */
  lemma {:induction false} ShareRounds(len: nat, n: nat, k: nat, c: nat, j: nat)
    requires n >= 1 && j < n && len == c * n + j
    ensures Share(len, n, k) == c + (if k < j then 1 else 0)
    decreases c
  {
    if c > 0 {
      assert c * n == (c - 1) * n + n;
      ShareRounds(len - n, n, k, c - 1, j);
    }
  }

  /** `Share` in closed form: `len // n`, plus one when `k < len % n`. */
  lemma ShareClosed(len: nat, n: nat, k: nat)
    requires n >= 1
    ensures Share(len, n, k) == len / n + (if k < len % n then 1 else 0)
  {
    var c, j := Split(len, n);
    DivMod(len, n, c, j);
    ShareRounds(len, n, k, c, j);
  }

  lemma ShareStep(len: nat, n: nat, k: nat)
    requires n >= 1 && k < n
    ensures Share(len + 1, n, k) == Share(len, n, k) + (if len % n == k then 1 else 0)
  {
    var c, j := Split(len, n);
    DivMod(len, n, c, j);
    ShareRounds(len, n, k, c, j);
    if j + 1 < n {
      ShareRounds(len + 1, n, k, c, j + 1);
    } else {
      assert len + 1 == (c + 1) * n + 0;
      ShareRounds(len + 1, n, k, c + 1, 0);
    }
  }

  /** Shares of a count over `n` teams differ by at most one, and are zero
      for a count of zero. */
  lemma ShareSpread(len: nat, n: nat, k: nat, l: nat)
    requires n >= 1 && k < n && l < n
    ensures Share(len, n, k) <= Share(len, n, l) + 1
    ensures len == 0 ==> Share(len, n, k) == 0
  {
    ShareClosed(len, n, k);
    ShareClosed(len, n, l);
  }

  /** Dealing a group of tier `u`: team `k` gains `Share(|g|, n, k)` players,
      all of tier `u`. */
  lemma {:induction false} DealRRCount(teams: Partition, g: seq<Player>, n: nat, u: string, k: nat, t: string)
    requires n >= 1 && |teams| == n && k < n
    requires forall i :: 0 <= i < |g| ==> g[i].tier == u
    ensures |DealRR(teams, g, n)[k]| == |teams[k]| + Share(|g|, n, k)
    ensures Count(DealRR(teams, g, n)[k], t) == Count(teams[k], t) + (if t == u then Share(|g|, n, k) else 0)
    decreases |g|
  {
    if g == [] {
    } else {
      var i := |g| - 1;
      var before := DealRR(teams, g[..i], n);
      DealRRCount(teams, g[..i], n, u, k, t);
      ShareStep(i, n, k);
      if i % n == k {
        CountAppend(before[k], g[i], t);
      }
    }
  }

  /** Dealing a group adds exactly its players to the pool. */
  lemma {:induction false} DealRRPlayers(teams: Partition, g: seq<Player>, n: nat)
    requires n >= 1 && |teams| == n
    ensures multiset(Flatten(DealRR(teams, g, n))) == multiset(Flatten(teams)) + multiset(g)
    decreases |g|
  {
    if g != [] {
      var i := |g| - 1;
      DealRRPlayers(teams, g[..i], n);
      FlattenAppend(DealRR(teams, g[..i], n), i % n, g[i]);
      assert multiset(g) == multiset(g[..i]) + multiset{g[i]} by {
        assert g == g[..i] + [g[i]];
      }
    }
  }

  /** The dealing loop for one shuffled tier group. */
  method DealTier(teams: Partition, g: seq<Player>, n: nat) returns (teams': Partition)
    requires n >= 1 && |teams| == n
    ensures teams' == DealRR(teams, g, n)
  {
    teams' := teams;
    var i := 0;
    while i < |g|
      invariant 0 <= i <= |g|
      invariant teams' == DealRR(teams, g[..i], n)
    {
      assert g[..i + 1][..i] == g[..i];
      var teamIdx := i % n;
      teams' := AppendTo(teams', teamIdx, g[i]);
      i := i + 1;
    }
    assert g[..i] == g;
  }

  // ---------------------------------------------------------------------
  // The whole deal, tier by tier in sorted order
  // ---------------------------------------------------------------------

  /** The teams after the first `m` tiers of `order`, tier number `m - 1`
      being shuffled with shuffle number `m - 1`. */
  function TiersDealt(players: seq<Player>, order: seq<string>, n: nat, draws: (nat, nat) -> nat, m: nat)
    : (r: Partition)
    requires n >= 1 && m <= |order|
    ensures |r| == n
  {
    if m == 0 then EmptyTeams(n)
    else DealRR(TiersDealt(players, order, n, draws, m - 1),
                Shuffled(WithTier(players, order[m - 1]), draws, m - 1), n)
  }

  /** The teams before the final per-team shuffle. */
  function RandomDealt(players: seq<Player>, n: nat, draws: (nat, nat) -> nat): (r: Partition)
    requires n >= 1
    ensures |r| == n
  {
    TiersDealt(players, TierOrder(players), n, draws, |TierOrder(players)|)
  }

  /** Every team shuffled in place, team `k` being shuffle number `k`. */
  function ShuffleTeams(teams: Partition, draws: (nat, nat) -> nat): (r: Partition)
    ensures |r| == |teams|
    ensures forall k :: 0 <= k < |r| ==> multiset(r[k]) == multiset(teams[k]) && |r[k]| == |teams[k]|
  {
    seq(|teams|, k requires 0 <= k < |teams| => Shuffled(teams[k], draws, k))
  }

  /** The teams `distribute_teams_random` builds before its size check. */
  function RandomTeams(players: seq<Player>, n: nat, tierDraws: (nat, nat) -> nat,
                       teamDraws: (nat, nat) -> nat): (r: Partition)
    requires n >= 1
    ensures |r| == n
  {
    ShuffleTeams(RandomDealt(players, n, tierDraws), teamDraws)
  }

  /** Tier number `m - 1` is dealt from its shuffled group, all of that tier. */
  lemma TiersDealtNext(players: seq<Player>, order: seq<string>, n: nat, draws: (nat, nat) -> nat, m: nat)
    returns (before: Partition, g: seq<Player>)
    requires n >= 1 && 1 <= m <= |order|
    ensures |before| == n && before == TiersDealt(players, order, n, draws, m - 1)
    ensures TiersDealt(players, order, n, draws, m) == DealRR(before, g, n)
    ensures |g| == Count(players, order[m - 1]) && multiset(g) == multiset(WithTier(players, order[m - 1]))
    ensures forall i :: 0 <= i < |g| ==> g[i].tier == order[m - 1]
  {
    before := TiersDealt(players, order, n, draws, m - 1);
    g := Shuffled(WithTier(players, order[m - 1]), draws, m - 1);
    SameTier(WithTier(players, order[m - 1]), g, order[m - 1]);
  }

  /** Whether `t` is among the first `m` labels of `order`. */
  predicate Listed(order: seq<string>, m: nat, t: string)
    requires m <= |order|
  {
    m > 0 && (order[m - 1] == t || Listed(order, m - 1, t))
  }

  lemma {:induction false} ListedIn(order: seq<string>, m: nat, t: string)
    requires m <= |order|
    ensures Listed(order, m, t) <==> t in order[..m]
  {
    if m > 0 {
      ListedIn(order, m - 1, t);
      assert order[..m] == order[..m - 1] + [order[m - 1]];
    }
  }

  /** In a sequence of distinct labels, label `m - 1` is not among the first `m - 1`. */
  lemma DistinctListed(order: seq<string>, m: nat)
    requires 1 <= m <= |order| && Distinct(order)
    ensures !Listed(order, m - 1, order[m - 1])
  {
    ListedIn(order, m - 1, order[m - 1]);
    assert forall i :: 0 <= i < m - 1 ==> order[..m - 1][i] == order[i] != order[m - 1];
  }

  /** Tier `t`'s count in team `k` after `m` tiers: its share of the tier if
      the tier has been dealt, none otherwise. */
  lemma {:induction false} TiersDealtCount(players: seq<Player>, order: seq<string>, n: nat,
                                           draws: (nat, nat) -> nat, m: nat, k: nat, t: string)
    requires n >= 1 && m <= |order| && k < n && Distinct(order)
    ensures Count(TiersDealt(players, order, n, draws, m)[k], t)
         == if Listed(order, m, t) then Share(Count(players, t), n, k) else 0
  {
    if m > 0 {
      var u := order[m - 1];
      TiersDealtCount(players, order, n, draws, m - 1, k, t);
      var before, g := TiersDealtNext(players, order, n, draws, m);
      DealRRCount(before, g, n, u, k, t);
      DistinctListed(order, m);
    }
  }

  /** The players of the tiers in `order`, pooled. */
  function GroupSum(players: seq<Player>, order: seq<string>): multiset<Player>
  {
    if order == [] then multiset{}
    else GroupSum(players, order[..|order| - 1]) + multiset(WithTier(players, order[|order| - 1]))
  }

  lemma {:induction false} TiersDealtPlayers(players: seq<Player>, order: seq<string>, n: nat,
                                             draws: (nat, nat) -> nat, m: nat)
    requires n >= 1 && m <= |order|
    ensures multiset(Flatten(TiersDealt(players, order, n, draws, m))) == GroupSum(players, order[..m])
  {
    if m == 0 {
      FlattenEmpty(n);
    } else {
      TiersDealtPlayers(players, order, n, draws, m - 1);
      var before, g := TiersDealtNext(players, order, n, draws, m);
      DealRRPlayers(before, g, n);
      GroupSumPrefix(players, order, m);
    }
  }

  lemma GroupSumPrefix(players: seq<Player>, order: seq<string>, m: nat)
    requires 1 <= m <= |order|
    ensures GroupSum(players, order[..m])
         == GroupSum(players, order[..m - 1]) + multiset(WithTier(players, order[m - 1]))
  {
    assert order[..m][..m - 1] == order[..m - 1];
  }

  lemma WithTierSnoc(s: seq<Player>, p: Player, t: string)
    ensures WithTier(s + [p], t) == WithTier(s, t) + (if p.tier == t then [p] else [])
  {
    assert (s + [p])[..|s + [p]| - 1] == s;
  }

  /** The last label of a sequence of distinct labels, against the others. */
  lemma LastMember(order: seq<string>, t: string)
    requires order != [] && Distinct(order)
    ensures Distinct(order[..|order| - 1])
    ensures t in order <==> t in order[..|order| - 1] || t == order[|order| - 1]
    ensures order[|order| - 1] !in order[..|order| - 1]
  {
    var o := order[..|order| - 1];
    assert forall i :: 0 <= i < |o| ==> o[i] == order[i];
    assert order == o + [order[|order| - 1]];
  }

  /** One more player joins the group of its tier, if that tier is listed once. */
  lemma {:induction false} GroupSumSnoc(s: seq<Player>, p: Player, order: seq<string>)
    requires Distinct(order)
    ensures GroupSum(s + [p], order) == GroupSum(s, order) + (if p.tier in order then multiset{p} else multiset{})
    decreases |order|
  {
    if order != [] {
      var u := order[|order| - 1];
      LastMember(order, p.tier);
      GroupSumSnoc(s, p, order[..|order| - 1]);
      WithTierSnoc(s, p, u);
    }
  }

  /** Grouping by a list of distinct tiers that covers the roster loses no one. */
  lemma {:induction false} GroupSumAll(s: seq<Player>, order: seq<string>)
    requires Distinct(order)
    requires forall i :: 0 <= i < |s| ==> s[i].tier in order
    ensures GroupSum(s, order) == multiset(s)
    decreases |s|
  {
    if s == [] {
      GroupSumEmpty(order);
    } else {
      var i := |s| - 1;
      var t := s[..i];
      forall k | 0 <= k < |t| ensures t[k].tier in order {
        assert t[k] == s[k];
      }
      GroupSumAll(t, order);
      GroupSumSnoc(t, s[i], order);
      assert t + [s[i]] == s;
      assert multiset(s) == multiset(t) + multiset{s[i]};
    }
  }

  lemma {:induction false} GroupSumEmpty(order: seq<string>)
    ensures GroupSum([], order) == multiset{}
    decreases |order|
  {
    if order != [] {
      GroupSumEmpty(order[..|order| - 1]);
    }
  }

  /** Every player of the roster is dealt exactly once. */
  lemma RandomDealtPlayers(players: seq<Player>, n: nat, draws: (nat, nat) -> nat)
    requires n >= 1
    ensures multiset(Flatten(RandomDealt(players, n, draws))) == multiset(players)
  {
    var order := TierOrder(players);
    TiersDealtPlayers(players, order, n, draws, |order|);
    assert order[..|order|] == order;
    TierOrderCovers(players);
  }

  /** The sorted tiers group the whole roster. */
  lemma TierOrderCovers(players: seq<Player>)
    ensures GroupSum(players, TierOrder(players)) == multiset(players)
  {
    var order := TierOrder(players);
    forall i | 0 <= i < |players| ensures players[i].tier in order {
      CountPositive(players, i);
    }
    GroupSumAll(players, order);
  }

  lemma {:induction false} CountPositive(s: seq<Player>, i: nat)
    requires i < |s|
    ensures Count(s, s[i].tier) >= 1
    decreases |s|
  {
    var last := |s| - 1;
    CountAppend(s[..last], s[last], s[i].tier);
    assert s[..last] + [s[last]] == s;
    if i < last {
      CountPositive(s[..last], i);
    }
  }

  /** Each tier is spread evenly: team `k` holds `Share(count, n, k)`
      players of tier `t`. */
  lemma RandomDealtTierCounts(players: seq<Player>, n: nat, draws: (nat, nat) -> nat, k: nat, t: string)
    requires n >= 1 && k < n
    ensures Count(RandomDealt(players, n, draws)[k], t) == Share(Count(players, t), n, k)
  {
    var order := TierOrder(players);
    TiersDealtCount(players, order, n, draws, |order|, k, t);
    ListedIn(order, |order|, t);
    assert order[..|order|] == order;
    if t !in order {
      ShareSpread(Count(players, t), n, k, k);
    }
  }

  /** The final per-team shuffle keeps every team's players, hence its size
      and its tier counts. */
  lemma RandomTeamsCounts(players: seq<Player>, n: nat, tierDraws: (nat, nat) -> nat,
                          teamDraws: (nat, nat) -> nat, k: nat, t: string)
    requires n >= 1 && k < n
    ensures |RandomTeams(players, n, tierDraws, teamDraws)[k]| == |RandomDealt(players, n, tierDraws)[k]|
    ensures Count(RandomTeams(players, n, tierDraws, teamDraws)[k], t) == Share(Count(players, t), n, k)
  {
    var d := RandomDealt(players, n, tierDraws);
    RandomDealtTierCounts(players, n, tierDraws, k, t);
    CountPermutation(RandomTeams(players, n, tierDraws, teamDraws)[k], d[k], t);
  }

  /** The final shuffle keeps every team's size. */
  lemma RandomTeamsSized(players: seq<Player>, n: nat, tierDraws: (nat, nat) -> nat,
                         teamDraws: (nat, nat) -> nat, size: int)
    requires n >= 1
    ensures AllSized(RandomTeams(players, n, tierDraws, teamDraws), n, size)
        <==> AllSized(RandomDealt(players, n, tierDraws), n, size)
  {
    var d, r := RandomDealt(players, n, tierDraws), RandomTeams(players, n, tierDraws, teamDraws);
    assert forall k :: 0 <= k < n ==> |r[k]| == |d[k]|;
  }

  /** The teams before the size check hold exactly the roster. */
  lemma RandomTeamsPlayers(players: seq<Player>, n: nat, tierDraws: (nat, nat) -> nat,
                           teamDraws: (nat, nat) -> nat)
    requires n >= 1
    ensures Rearranges(RandomDealt(players, n, tierDraws), RandomTeams(players, n, tierDraws, teamDraws))
    ensures multiset(Flatten(RandomTeams(players, n, tierDraws, teamDraws))) == multiset(players)
  {
    var d := RandomDealt(players, n, tierDraws);
    RandomDealtPlayers(players, n, tierDraws);
    FlattenPerTeam(d, RandomTeams(players, n, tierDraws, teamDraws));
  }

  /** `all_players`: the players of the shuffled teams, pooled team by team. */
  function Pooled(players: seq<Player>, n: nat, tierDraws: (nat, nat) -> nat,
                  teamDraws: (nat, nat) -> nat): (r: seq<Player>)
    requires n >= 1
    ensures multiset(r) == multiset(players) && |r| == |players|
  {
    RandomTeamsPlayers(players, n, tierDraws, teamDraws);
    var r := Flatten(RandomTeams(players, n, tierDraws, teamDraws));
    assert |multiset(r)| == |multiset(players)|;
    r
  }

  // ---------------------------------------------------------------------
  // When the fallback fires
  // ---------------------------------------------------------------------

  /** `f` summed over the labels of `order`. */
  function SumOver(order: seq<string>, f: string -> int): int
  {
    if order == [] then 0 else SumOver(order[..|order| - 1], f) + f(order[|order| - 1])
  }

  lemma SumOverPrefix(order: seq<string>, m: nat, f: string -> int)
    requires 1 <= m <= |order|
    ensures SumOver(order[..m], f) == SumOver(order[..m - 1], f) + f(order[m - 1])
  {
    assert order[..m][..m - 1] == order[..m - 1];
  }

  lemma {:induction false} SumOverAdd(order: seq<string>, f: string -> int, g: string -> int, h: string -> int)
    requires forall i :: 0 <= i < |order| ==> h(order[i]) == f(order[i]) + g(order[i])
    ensures SumOver(order, h) == SumOver(order, f) + SumOver(order, g)
    decreases |order|
  {
    if order != [] {
      SumOverAdd(order[..|order| - 1], f, g, h);
    }
  }

  lemma {:induction false} SumOverEq(order: seq<string>, f: string -> int, g: string -> int)
    requires forall i :: 0 <= i < |order| ==> f(order[i]) == g(order[i])
    ensures SumOver(order, f) == SumOver(order, g)
    decreases |order|
  {
    if order != [] {
      SumOverEq(order[..|order| - 1], f, g);
    }
  }

  lemma {:induction false} SumOverScale(order: seq<string>, f: string -> int, h: string -> int, n: int)
    requires forall i :: 0 <= i < |order| ==> h(order[i]) == n * f(order[i])
    ensures SumOver(order, h) == n * SumOver(order, f)
    decreases |order|
  {
    if order != [] {
      var o := order[..|order| - 1];
      SumOverScale(o, f, h, n);
      assert n * SumOver(o, f) + n * f(order[|order| - 1]) == n * (SumOver(o, f) + f(order[|order| - 1]));
    }
  }

  /** A sum of non-negative terms is zero only if every term is. */
  lemma {:induction false} SumOverZero(order: seq<string>, f: string -> int)
    requires forall i :: 0 <= i < |order| ==> f(order[i]) >= 0
    ensures SumOver(order, f) >= 0
    ensures SumOver(order, f) == 0 <==> forall i :: 0 <= i < |order| ==> f(order[i]) == 0
    decreases |order|
  {
    if order != [] {
      var o := order[..|order| - 1];
      SumOverZero(o, f);
      assert forall i :: 0 <= i < |o| ==> o[i] == order[i];
    }
  }

  function CountOf(players: seq<Player>): string -> int
  {
    t => Count(players, t)
  }

  function ShareOf(players: seq<Player>, n: nat, k: nat): string -> int
    requires n >= 1
  {
    t => Share(Count(players, t), n, k)
  }

  function QuotientOf(players: seq<Player>, n: nat): string -> int
    requires n >= 1
  {
    t => Count(players, t) / n
  }

  function RemainderOf(players: seq<Player>, n: nat): string -> int
    requires n >= 1
  {
    t => Count(players, t) % n
  }

  function RaggedOf(players: seq<Player>, n: nat): string -> int
    requires n >= 1
  {
    t => if Count(players, t) % n != 0 then 1 else 0
  }

  /** Team `k`'s size after `m` tiers: the sum of its shares of them. */
  lemma {:induction false} TiersDealtSize(players: seq<Player>, order: seq<string>, n: nat,
                                          draws: (nat, nat) -> nat, m: nat, k: nat)
    requires n >= 1 && m <= |order| && k < n
    ensures |TiersDealt(players, order, n, draws, m)[k]| == SumOver(order[..m], ShareOf(players, n, k))
  {
    if m > 0 {
      var u := order[m - 1];
      TiersDealtSize(players, order, n, draws, m - 1, k);
      var before, g := TiersDealtNext(players, order, n, draws, m);
      DealRRCount(before, g, n, u, k, u);
      SumOverPrefix(order, m, ShareOf(players, n, k));
      assert ShareOf(players, n, k)(u) == Share(|g|, n, k);
    }
  }

  lemma {:induction false} GroupSumSize(players: seq<Player>, order: seq<string>)
    ensures |GroupSum(players, order)| == SumOver(order, CountOf(players))
    decreases |order|
  {
    if order != [] {
      GroupSumSize(players, order[..|order| - 1]);
    }
  }

  /** The shares of one tier, against its quotient and remainder by `n`. */
  lemma ShareParts(c: nat, n: nat, k: nat)
    requires n >= 1 && k < n
    ensures c == n * (c / n) + c % n
    ensures Share(c, n, 0) == c / n + (if c % n != 0 then 1 else 0)
    ensures Share(c, n, n - 1) == c / n
    ensures c % n == 0 ==> Share(c, n, k) == c / n
  {
    ShareClosed(c, n, 0);
    ShareClosed(c, n, n - 1);
    ShareClosed(c, n, k);
  }

  lemma ShareQuotient(c: nat, n: nat, k: nat)
    requires n >= 1 && k < n && (k == n - 1 || c % n == 0)
    ensures Share(c, n, k) == c / n
  {
    ShareClosed(c, n, k);
  }

  lemma MulCancel(n: int, a: int, b: int)
    requires n >= 1 && n * a == n * b
    ensures a == b
  {
    if a < b {
      MulLe(n, a + 1, b);
    } else if b < a {
      MulLe(n, b + 1, a);
    }
  }

  /** The roster size against the tiers' quotients and remainders by `n`. */
  lemma PoolParts(players: seq<Player>, n: nat)
    requires n >= 1
    ensures |players| == n * SumOver(TierOrder(players), QuotientOf(players, n))
                         + SumOver(TierOrder(players), RemainderOf(players, n))
  {
    var order := TierOrder(players);
    var cnt, quo, rem := CountOf(players), QuotientOf(players, n), RemainderOf(players, n);
    TierOrderCovers(players);
    GroupSumSize(players, order);
    assert |players| == |multiset(players)|;
    assert |players| == SumOver(order, cnt);
    var scaled := (t: string) => n * (Count(players, t) / n);
    forall i | 0 <= i < |order| {
      ShareParts(Count(players, order[i]), n, 0);
    }
    SumOverScale(order, quo, scaled, n);
    SumOverAdd(order, scaled, rem, cnt);
  }

  /** Team `k`'s size after the deal, as a sum over the sorted tiers. */
  lemma DealtSize(players: seq<Player>, n: nat, draws: (nat, nat) -> nat, k: nat)
    requires n >= 1 && k < n
    ensures |RandomDealt(players, n, draws)[k]| == SumOver(TierOrder(players), ShareOf(players, n, k))
  {
    var order := TierOrder(players);
    assert order[..|order|] == order;
    TiersDealtSize(players, order, n, draws, |order|, k);
  }

  /** The first team gets every tier's quotient by `n`, plus one for every
      tier that does not divide evenly. */
  lemma FirstTeamSize(players: seq<Player>, n: nat, draws: (nat, nat) -> nat)
    requires n >= 1
    ensures |RandomDealt(players, n, draws)[0]|
         == SumOver(TierOrder(players), QuotientOf(players, n)) + SumOver(TierOrder(players), RaggedOf(players, n))
  {
    var order := TierOrder(players);
    DealtSize(players, n, draws, 0);
    forall i | 0 <= i < |order| {
      ShareParts(Count(players, order[i]), n, 0);
    }
    SumOverAdd(order, QuotientOf(players, n), RaggedOf(players, n), ShareOf(players, n, 0));
  }

  /** Team `k` gets exactly the quotients when the last partial round of
      every tier stops before it: always for the last team, and for every
      team when every tier divides evenly. */
  lemma EvenTeamSize(players: seq<Player>, n: nat, draws: (nat, nat) -> nat, k: nat)
    requires n >= 1 && k < n
    requires k == n - 1 || forall t :: Count(players, t) % n == 0
    ensures |RandomDealt(players, n, draws)[k]| == SumOver(TierOrder(players), QuotientOf(players, n))
  {
    var order := TierOrder(players);
    DealtSize(players, n, draws, k);
    forall i | 0 <= i < |order|
      ensures ShareOf(players, n, k)(order[i]) == QuotientOf(players, n)(order[i])
    {
      var c := Count(players, order[i]);
      assert k == n - 1 || c % n == 0;
      ShareQuotient(c, n, k);
      assert ShareOf(players, n, k)(order[i]) == Share(c, n, k);
      assert QuotientOf(players, n)(order[i]) == c / n;
    }
    SumOverEq(order, ShareOf(players, n, k), QuotientOf(players, n));
  }

  /** The deal gives every team `size` players exactly when there are
      `n * size` players and every tier's count is a multiple of `n`; the
      round-robin fallback fires in every other case. */
  lemma RandomDealtSizedIff(players: seq<Player>, n: nat, draws: (nat, nat) -> nat, size: int)
    requires n >= 1
    ensures AllSized(RandomDealt(players, n, draws), n, size)
        <==> |players| == n * size && forall t :: Count(players, t) % n == 0
  {
    var order := TierOrder(players);
    var d := RandomDealt(players, n, draws);
    var quo, rem, rag := QuotientOf(players, n), RemainderOf(players, n), RaggedOf(players, n);
    PoolParts(players, n);
    FirstTeamSize(players, n, draws);
    EvenTeamSize(players, n, draws, n - 1);
    SumOverZero(order, rag);
    SumOverZero(order, rem);
    if AllSized(d, n, size) {
      assert |d[0]| == |d[n - 1]|;
      forall t ensures Count(players, t) % n == 0 {
        if t in order {
          var i :| 0 <= i < |order| && order[i] == t;
          assert rag(order[i]) == 0;
        } else {
          assert WithTier(players, t) == [];
        }
      }
    }
    if |players| == n * size && forall t :: Count(players, t) % n == 0 {
      assert SumOver(order, rem) == 0;
      MulCancel(n, SumOver(order, quo), size);
      forall k | 0 <= k < n ensures |d[k]| == size {
        EvenTeamSize(players, n, draws, k);
      }
    }
  }

  /** Two players of tier B, one of tier A and one of tier S. */
  function FallbackRoster(): (r: seq<Player>)
    ensures |r| == 4
  {
    [Player("p1", "S", 10), Player("p2", "A", 8), Player("p3", "B", 5), Player("p4", "B", 5)]
  }

  lemma FallbackCount()
    ensures Count(FallbackRoster(), "A") == 1
  {
    var s := FallbackRoster();
    assert s[..1] == [s[0]] && s[..1][..0] == [];
    assert s[..2] == s[..1] + [s[1]] && s[..2][..1] == s[..1];
    assert s[..2] + [s[2]] == s[..3] && s[..3][..2] == s[..2];
    assert s[..3] + [s[3]] == s;
    CountAppend(s[..0], s[0], "A");
    CountAppend(s[..1], s[1], "A");
    CountAppend(s[..2], s[2], "A");
    CountAppend(s[..3], s[3], "A");
  }

  /** The fallback is reachable: two teams of two from tiers S, A, B, B
      cannot be dealt evenly (tier A has one player), whatever the shuffles
      draw. */
  lemma FallbackFires(tierDraws: (nat, nat) -> nat, teamDraws: (nat, nat) -> nat)
    ensures |FallbackRoster()| == 2 * 2
    ensures !AllSized(RandomDealt(FallbackRoster(), 2, tierDraws), 2, 2)
    ensures !AllSized(RandomTeams(FallbackRoster(), 2, tierDraws, teamDraws), 2, 2)
  {
    FallbackUneven(tierDraws);
    RandomTeamsSized(FallbackRoster(), 2, tierDraws, teamDraws, 2);
  }

  lemma FallbackUneven(tierDraws: (nat, nat) -> nat)
    ensures !AllSized(RandomDealt(FallbackRoster(), 2, tierDraws), 2, 2)
  {
    FallbackCount();
    UnevenTier(FallbackRoster(), 2, tierDraws, 2, "A");
  }

  /** A tier whose count `n` does not divide leaves some team off size. */
  lemma UnevenTier(players: seq<Player>, n: nat, draws: (nat, nat) -> nat, size: int, t: string)
    requires n >= 1 && Count(players, t) % n != 0
    ensures !AllSized(RandomDealt(players, n, draws), n, size)
  {
    RandomDealtSizedIff(players, n, draws, size);
  }

  // ---------------------------------------------------------------------
  // The strategy
  // ---------------------------------------------------------------------

  /** Dealing tier number `m`, given its group. */
  lemma TierDealtFrom(players: seq<Player>, order: seq<string>, n: nat, draws: (nat, nat) -> nat, m: nat,
                      g: seq<Player>)
    requires n >= 1 && m < |order| && g == WithTier(players, order[m])
    ensures TiersDealt(players, order, n, draws, m + 1) == DealRR(TiersDealt(players, order, n, draws, m), Shuffled(g, draws, m), n)
  {
  }

  /** The tier loop: each group, in sorted tier order, is shuffled and dealt. */
  method DealTiers(players: seq<Player>, order: seq<string>, groups: map<string, seq<Player>>,
                   n: nat, draws: (nat, nat) -> nat) returns (teams: Partition)
    requires n >= 1
    requires forall j :: 0 <= j < |order| ==> order[j] in groups && groups[order[j]] == WithTier(players, order[j])
    ensures teams == TiersDealt(players, order, n, draws, |order|)
  {
    teams := EmptyTeams(n);
    var m := 0;
    while m < |order|
      invariant 0 <= m <= |order|
      invariant teams == TiersDealt(players, order, n, draws, m)
    {
      var tier := order[m];
      TierDealtFrom(players, order, n, draws, m, groups[tier]);
      var tierPlayers := Shuffled(groups[tier], draws, m);
      teams := DealTier(teams, tierPlayers, n);
      m := m + 1;
    }
  }

  /** The loop shuffling every team in place. */
  method ShuffleEach(teams: Partition, draws: (nat, nat) -> nat) returns (teams': Partition)
    ensures teams' == ShuffleTeams(teams, draws)
  {
    teams' := teams;
    var k := 0;
    while k < |teams'|
      invariant 0 <= k <= |teams'| && |teams'| == |teams|
      invariant forall l :: 0 <= l < k ==> teams'[l] == Shuffled(teams[l], draws, l)
      invariant forall l :: k <= l < |teams'| ==> teams'[l] == teams[l]
    {
      teams' := teams'[k := Shuffled(teams'[k], draws, k)];
      k := k + 1;
    }
  }

  /** Grouping, sorting the tiers, dealing them and shuffling every team:
      the teams `distribute_teams_random` holds before its size check. */
  method BuildTeams(players: seq<Player>, n: nat, tierDraws: (nat, nat) -> nat, teamDraws: (nat, nat) -> nat)
    returns (teams: Partition)
    requires n >= 1
    ensures teams == RandomTeams(players, n, tierDraws, teamDraws)
  {
    var keys, groups := GroupByTier(players);
    var order := SortStrings(keys);
    forall j | 0 <= j < |order| ensures order[j] in groups && groups[order[j]] == WithTier(players, order[j]) {
      assert order[j] in multiset(order);
    }
    teams := DealTiers(players, order, groups, n, tierDraws);
    teams := ShuffleEach(teams, teamDraws);
  }

  /** What the size check and the fallback rely on, gathered in one place. */
  lemma RandomTeamsFacts(players: seq<Player>, n: nat, size: int,
                         tierDraws: (nat, nat) -> nat, teamDraws: (nat, nat) -> nat)
    requires n >= 1
    ensures Flatten(RandomTeams(players, n, tierDraws, teamDraws)) == Pooled(players, n, tierDraws, teamDraws)
    ensures AllSized(RandomTeams(players, n, tierDraws, teamDraws), n, size)
        <==> |players| == n * size && forall t :: Count(players, t) % n == 0
    ensures forall k, t :: 0 <= k < n ==>
              Count(RandomTeams(players, n, tierDraws, teamDraws)[k], t) == Share(Count(players, t), n, k)
  {
    RandomTeamsSized(players, n, tierDraws, teamDraws, size);
    RandomDealtSizedIff(players, n, tierDraws, size);
    forall k, t | 0 <= k < n
      ensures Count(RandomTeams(players, n, tierDraws, teamDraws)[k], t) == Share(Count(players, t), n, k)
    {
      RandomTeamsCounts(players, n, tierDraws, teamDraws, k, t);
    }
  }

  /** Without the fallback, each tier's counts on any two teams differ by
      at most one, after the final shuffles as before them. */
  lemma RandomTeamsBalanced(players: seq<Player>, n: nat, tierDraws: (nat, nat) -> nat,
                            teamDraws: (nat, nat) -> nat, k: nat, l: nat, t: string)
    requires n >= 1 && k < n && l < n
    ensures var teams := RandomTeams(players, n, tierDraws, teamDraws);
            Count(teams[k], t) <= Count(teams[l], t) + 1 &&
            Count(teams[k], t) == Count(RandomDealt(players, n, tierDraws)[k], t)
  {
    RandomTeamsCounts(players, n, tierDraws, teamDraws, k, t);
    RandomTeamsCounts(players, n, tierDraws, teamDraws, l, t);
    RandomDealtTierCounts(players, n, tierDraws, k, t);
    ShareSpread(Count(players, t), n, k, l);
  }

  /** `distribute_teams_random`. When every team comes out with `size`
      players the shuffled teams are returned and each tier is spread evenly;
      that happens exactly when there are `n * size` players and every tier's
      count is a multiple of `n`. Otherwise (`fellBack`) the pooled players
      go through the round-robin draft. With `n * size` players the result is always `n` teams of `size`
      holding exactly the roster. */
  method DistributeRandom(players: seq<Player>, n: nat, size: int,
                          tierDraws: (nat, nat) -> nat, teamDraws: (nat, nat) -> nat)
    returns (r: Result<Partition, BalanceError>, ghost fellBack: bool)
    requires n >= 1
    ensures fellBack <==> !(|players| == n * size && forall t :: Count(players, t) % n == 0)
    ensures !fellBack ==> r == Ok(RandomTeams(players, n, tierDraws, teamDraws))
    ensures !fellBack ==> AllSized(r.value, n, size) && multiset(Flatten(r.value)) == multiset(players)
    ensures !fellBack ==>
              forall k, t :: 0 <= k < n ==> Count(r.value[k], t) == Share(Count(players, t), n, k)
    ensures fellBack && |players| >= n ==>
              (r.Ok? <==> AllSized(RoundRobinDealt(SortDesc(Pooled(players, n, tierDraws, teamDraws)), n, size), n, size)) &&
              (r.Ok? ==> r.value == RoundRobinDealt(SortDesc(Pooled(players, n, tierDraws, teamDraws)), n, size))
    ensures fellBack && |players| < n ==> r == Err(IndexOutOfRange)
    ensures r.Ok? ==> multiset(Flatten(r.value)) <= multiset(players)
    ensures r.Err? ==> r.error.IndexOutOfRange? || r.error.UnevenTeams?
    ensures size >= 1 && |players| == n * size ==>
              r.Ok? && AllSized(r.value, n, size) && multiset(Flatten(r.value)) == multiset(players)
  {
    var teams := BuildTeams(players, n, tierDraws, teamDraws);
    RandomTeamsFacts(players, n, size, tierDraws, teamDraws);
    var sizes := CheckTeamSizes(teams, size);
    if sizes.Ok? {
      fellBack := false;
      r := Ok(teams);
    } else {
      fellBack := true;
      var allPlayers := Flatten(teams);
      r := DistributeRoundRobin(allPlayers, n, size);
    }
  }
}
