/**
 `assign_pairs` with the loops of the source: `while successful_pairing`,
 `for struct, teams in struct_teams.items()` with its `continue`, and
 `for pair in itertools.combinations(teams, 2)` with its `continue` and
 `break`. It computes the round-based pairing defined in `Pairing`.
 */
module PairingLoops {
  import opened OrderedDicts
  import opened Inversion
  import opened Pairing

  /** A pair that qualifies after a prefix of non-qualifying ones is the one
      the scan accepts. */
  lemma {:induction false} FirstQualifyingAt(cs: seq<Pair>, paired: set<Team>, k: nat)
    requires k < |cs|
    requires Qualifies(cs[k], paired)
    requires forall m :: 0 <= m < k ==> !Qualifies(cs[m], paired)
    ensures FirstQualifying(cs, paired) == Some(cs[k])
  {
    if k > 0 {
      FirstQualifyingAt(cs[1..], paired, k - 1);
    }
  }

  /** The combination loop: the first pair of `teams` whose teams are both
      unpaired, if there is one. */
  method ScanCombinations(teams: seq<Team>, paired: set<Team>) returns (found: bool, pair: Pair)
    ensures found <==> exists c :: c in Combinations(teams) && Qualifies(c, paired)
    ensures found ==> FirstQualifying(Combinations(teams), paired) == Some(pair)
  {
    var cs := Combinations(teams);
    found, pair := false, ("", "");
    var k := 0;
    while k < |cs|
      invariant k <= |cs|
      invariant forall m :: 0 <= m < k ==> !Qualifies(cs[m], paired)
    {
      if !Qualifies(cs[k], paired) {
        k := k + 1;
        continue;
      }
      found, pair := true, cs[k];
      FirstQualifyingAt(cs, paired, k);
      break;
    }
  }

  /** Visiting structure `i` of a round, given what the scan of its
      combinations reports, leaves the rest of the round to do. */
  lemma RoundStep(idx: Candidates, i: nat, st: State, found: bool, pair: Pair)
    requires i < |idx| && |idx[i].1| >= 2
    requires found <==> exists c :: c in Combinations(idx[i].1) && Qualifies(c, st.paired)
    requires found ==> FirstQualifying(Combinations(idx[i].1), st.paired) == Some(pair)
    ensures found ==> Qualifies(pair, st.paired)
    ensures Round(idx, i, st) == Round(idx, i + 1,
      if found then State(Append(st.pairs, idx[i].0, pair), st.paired + {pair.0, pair.1}) else st)
  {
  }

  /** A structure with fewer than two candidates is skipped. */
  lemma RoundSkip(idx: Candidates, i: nat, st: State)
    requires i < |idx| && |idx[i].1| < 2
    ensures Round(idx, i, st) == Round(idx, i + 1, st)
  {
  }

  /** One pass of the `for struct, teams in struct_teams.items()` loop. */
  method PairingRound(struct_teams: Candidates, struct_pairs: Assignment, paired_teams: set<Team>)
    returns (pairs': Assignment, paired': set<Team>, successful_pairing: bool)
    ensures State(pairs', paired') == Round(struct_teams, 0, State(struct_pairs, paired_teams))
    ensures successful_pairing <==> paired' != paired_teams
  {
    pairs', paired' := struct_pairs, paired_teams;
    successful_pairing := false;
    var i := 0;
    while i < |struct_teams|
      invariant i <= |struct_teams|
      invariant Round(struct_teams, i, State(pairs', paired')) == Round(struct_teams, 0, State(struct_pairs, paired_teams))
      invariant paired_teams <= paired'
      invariant successful_pairing <==> paired' != paired_teams
    {
      var (struct, teams) := struct_teams[i];
      if |teams| < 2 {
        RoundSkip(struct_teams, i, State(pairs', paired'));
        i := i + 1;
        continue;
      }
      var found, pair := ScanCombinations(teams, paired');
      RoundStep(struct_teams, i, State(pairs', paired'), found, pair);
      if found {
        assert pair.0 !in paired_teams;
        pairs' := Append(pairs', struct, pair);
        paired' := paired' + {pair.0, pair.1};
        successful_pairing := true;
      }
      i := i + 1;
    }
  }

  /** `assign_pairs(team_choices)`, loop by loop. */
  method AssignPairsLoops(team_choices: Choices) returns (struct_pairs: Assignment)
    ensures struct_pairs == AssignPairs(team_choices)
  {
    var paired_teams: set<Team> := {};
    struct_pairs := [];
    var successful_pairing := true;
    var struct_teams := InvertDictionary(team_choices);
    while successful_pairing
      invariant paired_teams <= TeamsOf(struct_teams)
      invariant Rounds(struct_teams, State(struct_pairs, paired_teams)).final == Assign(team_choices).final
      invariant !successful_pairing ==> Rounds(struct_teams, State(struct_pairs, paired_teams)).final == State(struct_pairs, paired_teams)
      decreases |TeamsOf(struct_teams) - paired_teams|, successful_pairing
    {
      ghost var before := State(struct_pairs, paired_teams);
      struct_pairs, paired_teams, successful_pairing := PairingRound(struct_teams, struct_pairs, paired_teams);
      SubsetCard(before.paired, TeamsOf(struct_teams));
      SubsetCard(paired_teams, TeamsOf(struct_teams));
      SubsetCard(before.paired, paired_teams);
    }
  }
}
