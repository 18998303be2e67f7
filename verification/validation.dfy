/** Checking that a roster can be split into equal teams. */
module Validation {
  import opened Roster

  /** `validate_player_count`: the team size, or the first check that fails
      (at least two teams, at least one player per team, an exact split). */
  function ValidatePlayerCount(players: seq<Player>, numTeams: int): (r: Result<nat, BalanceError>)
    ensures r.Ok? <==> numTeams >= 2 && |players| >= numTeams && |players| % numTeams == 0
    ensures r.Ok? ==> r.value >= 1 && r.value * numTeams == |players|
    ensures numTeams < 2 ==> r == Err(TooFewTeams(numTeams))
    ensures 2 <= numTeams && |players| < numTeams ==> r == Err(NotEnoughPlayers(|players|, numTeams))
    ensures 2 <= numTeams <= |players| && |players| % numTeams != 0 ==>
              r == Err(NotDivisible(|players|, numTeams))
  {
    var total := |players|;
    if numTeams < 2 then Err(TooFewTeams(numTeams))
    else if total < numTeams then Err(NotEnoughPlayers(total, numTeams))
    else if total % numTeams != 0 then Err(NotDivisible(total, numTeams))
    else
      var size := total / numTeams;
      assert size * numTeams == total;
      Ok(size)
  }
}
