/** The row filter of `load_players`: over rows already split into fields,
    skip the header, blank rows and rows with fewer than two fields, strip
    the name, strip and upper-case the tier, drop repeated names and
    unknown tiers, and score each kept player from the weight table. */
module Loading {
  import opened Roster

  // ---------------------------------------------------------------------
  // `str.strip()` and `str.upper()`
  // ---------------------------------------------------------------------

  /** `str.isspace()` on one character: the Unicode white-space characters. */
  predicate IsSpace(c: char)
  {
    ('\t' <= c <= '\r') || ('\U{1C}' <= c <= '\U{1F}') || c == ' ' || c == '\U{85}' || c == '\U{A0}' ||
    c == '\U{1680}' || ('\U{2000}' <= c <= '\U{200A}') || c == '\U{2028}' || c == '\U{2029}' ||
    c == '\U{202F}' || c == '\U{205F}' || c == '\U{3000}'
  }

  /** `str.lstrip()` */
  function TrimStart(s: string): string
  {
    if s != [] && IsSpace(s[0]) then TrimStart(s[1..]) else s
  }

  /** `str.rstrip()` */
  function TrimEnd(s: string): string
  {
    if s != [] && IsSpace(s[|s| - 1]) then TrimEnd(s[..|s| - 1]) else s
  }

  /** `lstrip` leaves the suffix after the leading white space: what it
      drops is all white space and what it keeps does not start with any. */
  lemma {:induction false} TrimStartSpec(s: string)
    ensures |TrimStart(s)| <= |s| && TrimStart(s) == s[|s| - |TrimStart(s)|..]
    ensures forall i :: 0 <= i < |s| - |TrimStart(s)| ==> IsSpace(s[i])
    ensures TrimStart(s) == [] || !IsSpace(TrimStart(s)[0])
  {
    if s != [] && IsSpace(s[0]) {
      TrimStartSpec(s[1..]);
      forall i | 1 <= i < |s| - |TrimStart(s)| ensures IsSpace(s[i]) {
        assert s[i] == s[1..][i - 1];
      }
    }
  }

  /** `rstrip` leaves the prefix before the trailing white space: what it
      drops is all white space and what it keeps does not end with any. */
  lemma {:induction false} TrimEndSpec(s: string)
    ensures |TrimEnd(s)| <= |s| && TrimEnd(s) == s[..|TrimEnd(s)|]
    ensures forall i :: |TrimEnd(s)| <= i < |s| ==> IsSpace(s[i])
    ensures TrimEnd(s) == [] || !IsSpace(TrimEnd(s)[|TrimEnd(s)| - 1])
  {
    if s != [] && IsSpace(s[|s| - 1]) {
      var u := s[..|s| - 1];
      TrimEndSpec(u);
      assert TrimEnd(s) == TrimEnd(u);
      forall i | |TrimEnd(s)| <= i < |s| - 1 ensures IsSpace(s[i]) {
        assert s[i] == u[i];
      }
    }
  }

  /** Whitespace removed from both ends of a field. */
  function Strip(s: string): string
  {
    TrimEnd(TrimStart(s))
  }

  /** The stripped text is the middle of `s`, everything around it is white
      space, and it neither starts nor ends with white space. */
  lemma StripSpec(s: string)
    ensures exists i, j :: 0 <= i <= j <= |s| && Strip(s) == s[i..j] &&
              (forall k :: 0 <= k < i ==> IsSpace(s[k])) &&
              (forall k :: j <= k < |s| ==> IsSpace(s[k]))
    ensures Strip(s) == [] || (!IsSpace(Strip(s)[0]) && !IsSpace(Strip(s)[|Strip(s)| - 1]))
  {
    var t := TrimStart(s);
    TrimStartSpec(s);
    TrimEndSpec(t);
    var i := |s| - |t|;
    var j := i + |TrimEnd(t)|;
    assert Strip(s) == s[i..j];
    forall k | j <= k < |s| ensures IsSpace(s[k]) {
      assert s[k] == t[k - i];
    }
    if Strip(s) != [] {
      assert TrimEnd(t)[0] == t[0];
    }
  }

  /** A field is blank exactly when it is all white space. */
  lemma StripEmpty(s: string)
    ensures Strip(s) == [] <==> forall k :: 0 <= k < |s| ==> IsSpace(s[k])
  {
    var t := TrimStart(s);
    TrimStartSpec(s);
    TrimEndSpec(t);
    if Strip(s) == [] {
      assert t == [];
    }
  }

  /** Stripping twice strips nothing more. */
  lemma StripIdempotent(s: string)
    ensures Strip(Strip(s)) == Strip(s)
  {
    var r := Strip(s);
    StripSpec(s);
    TrimStartSpec(r);
    TrimEndSpec(TrimStart(r));
    if r != [] {
      assert TrimStart(r) == r;
    }
  }

  /** Upper-casing one character (ASCII letters only). */
  function UpperChar(c: char): char
  {
    if 'a' <= c <= 'z' then (c as int - 'a' as int + 'A' as int) as char else c
  }

  /** Upper-casing a whole string, character by character. */
  function Upper(s: string): string
  {
    seq(|s|, i requires 0 <= i < |s| => UpperChar(s[i]))
  }

  /** Upper-casing keeps the length, leaves no lower-case letter, changes
      only lower-case letters (each to its capital), and is idempotent. */
  lemma UpperSpec(s: string)
    ensures |Upper(s)| == |s|
    ensures forall i :: 0 <= i < |s| ==> !('a' <= Upper(s)[i] <= 'z')
    ensures forall i :: 0 <= i < |s| ==>
              if 'a' <= s[i] <= 'z' then Upper(s)[i] as int == s[i] as int - 32 else Upper(s)[i] == s[i]
    ensures Upper(Upper(s)) == Upper(s)
  {
  }

  // ---------------------------------------------------------------------
  // The weight table
  // ---------------------------------------------------------------------

  /** `tier_scores` when no custom weights are given. */
  const DefaultWeights: map<string, int> :=
    map["S+" := 13, "S" := 10, "S/A" := 9, "A" := 8, "A/B" := 7, "B" := 5, "C" := 2, "D" := 0, "F" := -1]

  /** `if custom_weights: tier_scores = custom_weights`: a missing or empty
      dictionary keeps the default table. */
  function Weights(custom: Option<map<string, int>>): map<string, int>
  {
    if custom.Some? && |custom.value| > 0 then custom.value else DefaultWeights
  }

  // ---------------------------------------------------------------------
  // One row
  // ---------------------------------------------------------------------

  /** A row that is empty or whose every field is whitespace only. */
  predicate Blank(row: seq<string>)
  {
    forall f :: f in row ==> Strip(f) == []
  }

  /** The player's name: the first field, stripped. */
  function RowName(row: seq<string>): string
    requires |row| >= 2
  {
    Strip(row[0])
  }

  /** The player's tier: the second field, stripped and upper-cased. */
  function RowTier(row: seq<string>): string
    requires |row| >= 2
  {
    Upper(Strip(row[1]))
  }

  /** A row that gives a player when its name is new: not blank, at least
      two fields, and a tier the table knows. */
  predicate Usable(row: seq<string>, table: map<string, int>)
  {
    !Blank(row) && |row| >= 2 && RowTier(row) in table
  }

  /** The `(name, tier, tier_scores[tier])` tuple a usable row gives. */
  function RowPlayer(row: seq<string>, table: map<string, int>): (p: Player)
    requires Usable(row, table)
    ensures p.name == RowName(row) && p.tier in table && p.score == table[p.tier]
  {
    var tier := RowTier(row);
    Player(RowName(row), tier, table[tier])
  }

  /** Row `i` is the first usable row carrying its name. */
  predicate FirstUse(rows: seq<seq<string>>, table: map<string, int>, i: int)
  {
    0 <= i < |rows| && Usable(rows[i], table) &&
    forall j :: 0 <= j < i && Usable(rows[j], table) ==> RowName(rows[j]) != RowName(rows[i])
  }

  // ---------------------------------------------------------------------
  // The filter
  // ---------------------------------------------------------------------

  /** The players kept from `rows`, in row order, when the names in `seen`
      are already taken: a usable row with a new name is kept and takes
      its name; every other row is skipped. */
  function Kept(rows: seq<seq<string>>, table: map<string, int>, seen: set<string>): seq<Player>
  {
    if rows == [] then []
    else if Usable(rows[0], table) && RowName(rows[0]) !in seen then
      [RowPlayer(rows[0], table)] + Kept(rows[1..], table, seen + {RowName(rows[0])})
    else Kept(rows[1..], table, seen)
  }

  /** The rows after the header; skipping the header of a file with no
      rows at all is harmless. */
  function Body(rows: seq<seq<string>>): seq<seq<string>>
  {
    if rows == [] then [] else rows[1..]
  }

  /** The names of the players so far (`seen_names`). */
  function Names(players: seq<Player>): set<string>
  {
    if players == [] then {} else Names(players[..|players| - 1]) + {players[|players| - 1].name}
  }

  lemma SnocAssoc(players: seq<Player>, p: Player, rest: seq<Player>)
    ensures (players + [p]) + rest == players + ([p] + rest)
  {
  }

  lemma NamesSnoc(players: seq<Player>, p: Player)
    ensures Names(players + [p]) == Names(players) + {p.name}
  {
    assert (players + [p])[..|players|] == players;
  }

  /** The filter at row `k`: the row is kept, under its name, or skipped. */
  lemma KeptNext(body: seq<seq<string>>, k: nat, table: map<string, int>, seen: set<string>)
    requires k < |body|
    ensures Kept(body[k..], table, seen)
         == if Usable(body[k], table) && RowName(body[k]) !in seen
            then [RowPlayer(body[k], table)] + Kept(body[k + 1..], table, seen + {RowName(body[k])})
            else Kept(body[k + 1..], table, seen)
  {
    assert body[k..][1..] == body[k + 1..];
  }

  /** The row loop of `load_players`: the checks run in the source's order,
      and a name is marked as seen only once its row is kept. */
  method FilterRows(rows: seq<seq<string>>, table: map<string, int>) returns (players: seq<Player>)
    ensures players == Kept(Body(rows), table, {})
  {
    players := [];
    var seen: set<string> := {};
    var body := Body(rows);
    var k := 0;
    while k < |body|
      invariant 0 <= k <= |body|
      invariant players + Kept(body[k..], table, seen) == Kept(body, table, {})
      invariant seen == Names(players)
    {
      var row := body[k];
      KeptNext(body, k, table, seen);
      k := k + 1;
      if Blank(row) {
        continue;
      }
      if |row| < 2 {
        continue;
      }
      var name := Strip(row[0]);
      var tier := Upper(Strip(row[1]));
      if name in seen {
        continue;
      }
      if tier !in table {
        continue;
      }
      var p := Player(name, tier, table[tier]);
      NamesSnoc(players, p);
      SnocAssoc(players, p, Kept(body[k..], table, seen + {name}));
      players := players + [p];
      seen := seen + {name};
    }
    assert body[k..] == [];
  }

  /** `load_players` on rows already read from the file. */
  method LoadPlayers(rows: seq<seq<string>>, custom: Option<map<string, int>>) returns (players: seq<Player>)
    ensures players == Kept(Body(rows), Weights(custom), {})
    ensures DistinctNames(players)
    ensures forall p :: p in players ==> p.tier in Weights(custom) && p.score == Weights(custom)[p.tier]
  {
    var table := Weights(custom);
    players := FilterRows(rows, table);
    KeptDistinct(Body(rows), table, {});
    KeptScored(Body(rows), table, {});
  }

  // ---------------------------------------------------------------------
  // What the filter promises
  // ---------------------------------------------------------------------

  /** No two players share a name. */
  predicate DistinctNames(ps: seq<Player>)
  {
    forall a, b :: 0 <= a < b < |ps| ==> ps[a].name != ps[b].name
  }

  /** No two kept players share a name, and no kept name was taken before. */
  lemma {:induction false} KeptDistinct(rows: seq<seq<string>>, table: map<string, int>, seen: set<string>)
    ensures forall p :: p in Kept(rows, table, seen) ==> p.name !in seen
    ensures DistinctNames(Kept(rows, table, seen))
  {
    if rows != [] {
      if Usable(rows[0], table) && RowName(rows[0]) !in seen {
        var rest := Kept(rows[1..], table, seen + {RowName(rows[0])});
        KeptDistinct(rows[1..], table, seen + {RowName(rows[0])});
        var out := Kept(rows, table, seen);
        assert out == [RowPlayer(rows[0], table)] + rest;
        forall a, b | 0 <= a < b < |out| ensures out[a].name != out[b].name {
          assert out[b] == rest[b - 1] && rest[b - 1] in rest;
          if a > 0 {
            assert out[a] == rest[a - 1];
          }
        }
      } else {
        KeptDistinct(rows[1..], table, seen);
        assert Kept(rows, table, seen) == Kept(rows[1..], table, seen);
      }
    }
  }

  /** Every kept tier is a key of the table, scored by its entry. */
  lemma {:induction false} KeptScored(rows: seq<seq<string>>, table: map<string, int>, seen: set<string>)
    ensures forall p :: p in Kept(rows, table, seen) ==> p.tier in table && p.score == table[p.tier]
  {
    if rows != [] {
      if Usable(rows[0], table) && RowName(rows[0]) !in seen {
        KeptScored(rows[1..], table, seen + {RowName(rows[0])});
      } else {
        KeptScored(rows[1..], table, seen);
      }
    }
  }

  /** A player is kept exactly when it is what the first usable row of its
      name gives. */
  lemma KeptExactly(rows: seq<seq<string>>, table: map<string, int>, p: Player)
    ensures p in Kept(rows, table, {}) <==> exists i :: FirstUse(rows, table, i) && RowPlayer(rows[i], table) == p
  {
    KeptSound(rows, table, {});
    if exists i :: FirstUse(rows, table, i) && RowPlayer(rows[i], table) == p {
      var i :| FirstUse(rows, table, i) && RowPlayer(rows[i], table) == p;
      KeptComplete(rows, table, {}, i);
    }
  }

  /** Every kept player comes from the first usable row of its name, among
      rows whose name was not already taken. */
  lemma {:induction false} KeptSound(rows: seq<seq<string>>, table: map<string, int>, seen: set<string>)
    ensures forall p :: p in Kept(rows, table, seen) ==>
              exists i :: FirstUse(rows, table, i) && RowPlayer(rows[i], table) == p && RowName(rows[i]) !in seen
  {
    if rows != [] {
      var rest := rows[1..];
      var took := Usable(rows[0], table) && RowName(rows[0]) !in seen;
      var seen' := if took then seen + {RowName(rows[0])} else seen;
      KeptSound(rest, table, seen');
      forall p | p in Kept(rows, table, seen)
        ensures exists i :: FirstUse(rows, table, i) && RowPlayer(rows[i], table) == p && RowName(rows[i]) !in seen
      {
        if took && p == RowPlayer(rows[0], table) {
          assert FirstUse(rows, table, 0);
        } else {
          assert p in Kept(rest, table, seen');
          var i :| FirstUse(rest, table, i) && RowPlayer(rest[i], table) == p && RowName(rest[i]) !in seen';
          assert rest[i] == rows[i + 1];
          if Usable(rows[0], table) && RowName(rows[0]) == RowName(rest[i]) {
            // the first row is usable with this name: it was taken, or its
            // name was already in `seen`
            assert false;
          }
          FirstUseShift(rows, table, i);
          assert FirstUse(rows, table, i + 1);
        }
      }
    }
  }

  /** A first use among the rows after the first is one among all rows,
      unless the first row is usable under the same name. */
  lemma FirstUseShift(rows: seq<seq<string>>, table: map<string, int>, i: int)
    requires rows != [] && FirstUse(rows[1..], table, i)
    requires !(Usable(rows[0], table) && RowName(rows[0]) == RowName(rows[i + 1]))
    ensures FirstUse(rows, table, i + 1)
  {
    forall j | 0 <= j < i + 1 && Usable(rows[j], table)
      ensures RowName(rows[j]) != RowName(rows[i + 1])
    {
      if j > 0 {
        assert rows[j] == rows[1..][j - 1];
      }
    }
  }

  /** The first usable row of a name not already taken is kept, whatever
      rows with that name and an unknown tier come before it. */
  lemma {:induction false} KeptComplete(rows: seq<seq<string>>, table: map<string, int>, seen: set<string>, i: int)
    requires FirstUse(rows, table, i) && RowName(rows[i]) !in seen
    ensures RowPlayer(rows[i], table) in Kept(rows, table, seen)
  {
    if i > 0 {
      var rest := rows[1..];
      assert rest[i - 1] == rows[i];
      var seen' := if Usable(rows[0], table) && RowName(rows[0]) !in seen then seen + {RowName(rows[0])} else seen;
      forall j | 0 <= j < i - 1 && Usable(rest[j], table)
        ensures RowName(rest[j]) != RowName(rest[i - 1])
      {
        assert rest[j] == rows[j + 1];
      }
      KeptComplete(rest, table, seen', i - 1);
    }
  }

  /** The first usable row of a name wins: the kept player of that name is
      the one it gives, whatever later rows with the name say. */
  lemma FirstWins(rows: seq<seq<string>>, table: map<string, int>, i: int, p: Player)
    requires FirstUse(rows, table, i)
    requires p in Kept(rows, table, {}) && p.name == RowName(rows[i])
    ensures p == RowPlayer(rows[i], table)
  {
    KeptExactly(rows, table, p);
    var i' :| FirstUse(rows, table, i') && RowPlayer(rows[i'], table) == p;
    assert RowName(rows[i']) == RowName(rows[i]);
    if i' < i {
      assert false;
    } else if i < i' {
      assert false;
    }
  }
}
