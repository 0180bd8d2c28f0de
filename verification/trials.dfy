/**
 The trial loop of the script: each trial reshuffles the order of the team
 choices, runs `assign_pairs`, scores the result as
 `(2 * number of pairs, number of structures with pairs)` and keeps it when
 that score is strictly greater, as a Python tuple, than the best so far.

 `random.shuffle` is replaced by the permutation each trial applies, given
 as input. The comparison is against the stored best team count
 (`max_teams`).
 */
module Trials {
  import opened OrderedDicts
  import opened Pairing
  import opened PairingLoops

  /** `(num_teams, num_structures)` of one assignment. */
  datatype Score = Score(teams: nat, structures: nat)

  /** Python's tuple comparison `a > b`: lexicographic. */
  predicate Exceeds(a: Score, b: Score) {
    a.teams > b.teams || (a.teams == b.teams && a.structures > b.structures)
  }

  /** `num_teams = 2 * sum(map(len, new_pairs.values()))`,
      `num_structures = len(new_pairs)`: the team count is even, a dict of
      non-empty lists has at least one pair per structure, and only a
      non-empty result scores above `(0, 0)`. */
  function ScoreOf(a: Assignment): (r: Score)
    ensures r.teams % 2 == 0
    ensures NonEmptyLists(a) ==> 2 * r.structures <= r.teams
    ensures Exceeds(r, Score(0, 0)) <==> a != []
  {
    KeysWithinSize(a);
    Score(2 * Size(a), |a|)
  }

  /** The tuple comparison is a strict total order on scores. */
  lemma ExceedsOrder(a: Score, b: Score, c: Score)
    ensures !Exceeds(a, a)
    ensures Exceeds(a, b) ==> !Exceeds(b, a)
    ensures Exceeds(a, b) && Exceeds(b, c) ==> Exceeds(a, c)
    ensures a != b ==> Exceeds(a, b) || Exceeds(b, a)
  {
  }

  /** "Not exceeded by" is transitive. */
  lemma AtLeastTransitive(a: Score, b: Score, c: Score)
    requires !Exceeds(a, b) && !Exceeds(b, c)
    ensures !Exceeds(a, c)
  {
  }

  /** What `max_pairs` holds: the list `[]` it starts as, or the dict returned
      by some trial. The two are different Python values. */
  datatype Kept = EmptyList | Pairs(dict: Assignment)

  /** `max_teams, max_structures` and `max_pairs`. */
  datatype Best = Best(score: Score, pairs: Kept)

  /** The best before the first trial: `(0, 0)` and the list `[]`. */
  const Initial: Best := Best(Score(0, 0), EmptyList)

  /** One keep-best step: the candidate replaces the best only when its score
      is strictly greater. */
  function KeepBest(best: Best, candidate: Assignment): (r: Best)
    ensures !Exceeds(best.score, r.score) && !Exceeds(ScoreOf(candidate), r.score)
    ensures r == best || r == Best(ScoreOf(candidate), Pairs(candidate))
    ensures r != best <==> Exceeds(ScoreOf(candidate), best.score)
  {
    if Exceeds(ScoreOf(candidate), best.score) then Best(ScoreOf(candidate), Pairs(candidate))
    else best
  }

  /* ---------------------------------------------------------------------- */
  /* Shuffling                                                               */

  /** The positions `0, 1, ..., n - 1`. */
  function Positions(n: nat): seq<nat> {
    seq(n, i => i)
  }

  /** `order` lists every position below `n` exactly once. */
  predicate IsPermutation(order: seq<nat>, n: nat) {
    multiset(order) == multiset(Positions(n))
  }

  /** Every trial's order is a permutation of the `n` teams. */
  predicate AllPermutations(orders: seq<seq<nat>>, n: nat) {
    forall k :: 0 <= k < |orders| ==> IsPermutation(orders[k], n)
  }

  /** A permutation of `n` positions has length `n`, stays below `n`, repeats
      nothing and reaches every position. */
  lemma PermutationFacts(order: seq<nat>, n: nat)
    requires IsPermutation(order, n)
    ensures |order| == n
    ensures forall i :: 0 <= i < |order| ==> order[i] < n
    ensures NoDup(order)
    ensures forall j :: 0 <= j < n ==> j in order
  {
    assert |order| == |multiset(order)| == |multiset(Positions(n))| == n;
    forall i | 0 <= i < |order|
      ensures order[i] < n && multiset(order)[order[i]] <= 1
    {
      assert order[i] in multiset(Positions(n));
      NoDupCount(Positions(n), order[i]);
    }
    CountNoDup(order);
    forall j | 0 <= j < n
      ensures j in order
    {
      assert Positions(n)[j] == j;
      assert j in multiset(order);
    }
  }

  /** `dict(random.shuffle(list(d.items())))` with the shuffle given: item
      `i` of the result is item `order[i]` of `d`, so the result has the
      same items as `d`, each once. */
  function Reorder(d: Choices, order: seq<nat>): (r: Choices)
    requires IsPermutation(order, |d|)
    ensures |r| == |d|
    ensures forall i :: 0 <= i < |r| ==> r[i] in d
    ensures forall j :: 0 <= j < |d| ==> d[j] in r
  {
    PermutationFacts(order, |d|);
    var r := seq(|d|, i requires 0 <= i < |d| => d[order[i]]);
    assert forall j :: 0 <= j < |d| ==> d[j] in r by {
      forall j | 0 <= j < |d|
        ensures d[j] in r
      {
        assert j in order;
        var i :| 0 <= i < |order| && order[i] == j;
        assert r[i] == d[j];
      }
    }
    r
  }

  /** Every item of `a` is an item of `c` when it is one of `b`, and every
      item of `b` is one of `c`. */
  lemma ItemsWithin<T>(a: seq<T>, b: seq<T>, c: seq<T>)
    requires forall i :: 0 <= i < |a| ==> a[i] in b
    requires forall i :: 0 <= i < |b| ==> b[i] in c
    ensures forall i :: 0 <= i < |a| ==> a[i] in c
  {
  }

  /** Shuffling changes the iteration order only: the result is the same
      dict, with the same list under every team. */
  lemma ReorderSameDict(d: Choices, order: seq<nat>, k: Team)
    requires DistinctKeys(d)
    requires IsPermutation(order, |d|)
    ensures DistinctKeys(Reorder(d, order))
    ensures Get(Reorder(d, order), k) == Get(d, k)
    ensures forall i :: 0 <= i < |d| ==> Reorder(d, order)[i] in d
  {
    var r := Reorder(d, order);
    PermutationFacts(order, |d|);
    assert DistinctKeys(r);
    if k in Keys(d) {
      var j :| 0 <= j < |d| && d[j].0 == k;
      assert j in order;
      var i :| 0 <= i < |order| && order[i] == j;
      GetAt(r, i);
      GetAt(d, j);
    } else {
      GetFound(d, k);
      GetFound(r, k);
    }
  }

  /** The choices as ordered for the trial after the shuffles `orders`:
      every trial shuffles the order the previous one left. */
  function Shuffled(d: Choices, orders: seq<seq<nat>>): (r: Choices)
    requires AllPermutations(orders, |d|)
    ensures |r| == |d|
    ensures forall i :: 0 <= i < |r| ==> r[i] in d
    ensures forall j :: 0 <= j < |d| ==> d[j] in r
  {
    if orders == [] then d
    else
      var before := Shuffled(d, orders[..|orders| - 1]);
      var r := Reorder(before, orders[|orders| - 1]);
      ItemsWithin(r, before, d);
      ItemsWithin(d, before, r);
      r
  }

  /** The assignment found by trial `k`. */
  function Trial(d: Choices, orders: seq<seq<nat>>, k: nat): Assignment
    requires AllPermutations(orders, |d|)
    requires k < |orders|
  {
    AssignPairs(Shuffled(d, orders[..k + 1]))
  }

  /** The assignments of all the trials, in trial order. */
  function TrialResults(d: Choices, orders: seq<seq<nat>>): (r: seq<Assignment>)
    requires AllPermutations(orders, |d|)
  {
    seq(|orders|, k requires 0 <= k < |orders| => Trial(d, orders, k))
  }

  /** Keep-best over the trial results in order, starting from `Initial`. */
  function KeepBestOf(results: seq<Assignment>): (r: Best)
    ensures r.pairs.Pairs? ==> r.score == ScoreOf(r.pairs.dict)
    ensures r.pairs.EmptyList? ==> r == Initial
  {
    if results == [] then Initial
    else KeepBest(KeepBestOf(results[..|results| - 1]), results[|results| - 1])
  }

  /** The trial loop over the shuffles `orders`, one trial per shuffle. */
  function Optimize(d: Choices, orders: seq<seq<nat>>): (r: Best)
    requires AllPermutations(orders, |d|)
  {
    KeepBestOf(TrialResults(d, orders))
  }

  /** The best score never goes down from one trial to a later one. */
  lemma {:induction false} BestNeverDecreases(results: seq<Assignment>, k: nat)
    requires k <= |results|
    ensures !Exceeds(KeepBestOf(results[..k]).score, KeepBestOf(results).score)
  {
    if k < |results| {
      var n := |results| - 1;
      assert results[..n][..k] == results[..k];
      BestNeverDecreases(results[..n], k);
      AtLeastTransitive(KeepBestOf(results[..k]).score, KeepBestOf(results[..n]).score,
                        KeepBestOf(results).score);
    } else {
      assert results[..k] == results;
    }
  }

  /** The kept best is at least as good as every trial. */
  lemma {:induction false} BestBeatsEveryTrial(results: seq<Assignment>, k: nat)
    requires k < |results|
    ensures !Exceeds(ScoreOf(results[k]), KeepBestOf(results).score)
  {
    var n := |results| - 1;
    if k < n {
      BestBeatsEveryTrial(results[..n], k);
      AtLeastTransitive(ScoreOf(results[k]), KeepBestOf(results[..n]).score, KeepBestOf(results).score);
    }
  }

  /** The kept best is the initial one or the result of some trial, and every
      earlier trial scored strictly less. */
  lemma {:induction false} BestComesFromATrial(results: seq<Assignment>)
    ensures KeepBestOf(results) == Initial
         || exists k :: 0 <= k < |results| && KeepBestOf(results).pairs == Pairs(results[k])
                     && forall j :: 0 <= j < k ==> Exceeds(KeepBestOf(results).score, ScoreOf(results[j]))
  {
    if results != [] {
      var n := |results| - 1;
      var before, best := KeepBestOf(results[..n]), KeepBestOf(results);
      BestComesFromATrial(results[..n]);
      if best != before {
        forall j | 0 <= j < n
          ensures Exceeds(best.score, ScoreOf(results[j]))
        {
          BestBeatsEveryTrial(results[..n], j);
        }
      } else if best != Initial {
        var k :| 0 <= k < n && before.pairs == Pairs(results[..n][k])
              && forall j :: 0 <= j < k ==> Exceeds(before.score, ScoreOf(results[..n][j]));
        assert forall j :: 0 <= j < k ==> results[..n][j] == results[j];
      }
    }
  }

  /** `max_pairs` is still the list `[]` after the trials exactly when no
      trial paired anybody. */
  lemma {:induction false} KeptListIffNobodyPaired(results: seq<Assignment>)
    ensures KeepBestOf(results).pairs == EmptyList <==> forall k :: 0 <= k < |results| ==> results[k] == []
  {
    if results != [] {
      var n := |results| - 1;
      KeptListIffNobodyPaired(results[..n]);
      assert forall k :: 0 <= k < n ==> results[..n][k] == results[k];
      assert Exceeds(ScoreOf(results[n]), Score(0, 0)) <==> results[n] != [];
    }
  }

  /** Once some trial has paired somebody, the kept pairs are the dict of one
      of the trials. */
  lemma {:induction false} BestIsATrial(results: seq<Assignment>) returns (k: nat)
    requires exists j :: 0 <= j < |results| && results[j] != []
    ensures k < |results| && KeepBestOf(results).pairs == Pairs(results[k])
  {
    BestComesFromATrial(results);
    KeptListIffNobodyPaired(results);
    k :| 0 <= k < |results| && KeepBestOf(results).pairs == Pairs(results[k]);
  }

  /* ---------------------------------------------------------------------- */
  /* The trial loop on the team choices                                      */

  /** However the trials shuffle, they all see the same dict. */
  lemma {:induction false} ShuffledSameDict(d: Choices, orders: seq<seq<nat>>, t: Team)
    requires DistinctKeys(d)
    requires AllPermutations(orders, |d|)
    ensures DistinctKeys(Shuffled(d, orders))
    ensures Get(Shuffled(d, orders), t) == Get(d, t)
    ensures forall i :: 0 <= i < |d| ==> Shuffled(d, orders)[i] in d
  {
    if orders != [] {
      var n := |orders| - 1;
      assert AllPermutations(orders[..n], |d|);
      var before := Shuffled(d, orders[..n]);
      var after := Shuffled(d, orders);
      assert after == Reorder(before, orders[n]);
      ShuffledSameDict(d, orders[..n], t);
      ReorderSameDict(before, orders[n], t);
      forall i | 0 <= i < |d|
        ensures after[i] in d
      {
        var j :| 0 <= j < |before| && before[j] == after[i];
        assert before[j] in d;
      }
    }
  }

  /** After at least one trial, the kept pairs, when they are a dict, book no
      team twice and pair only teams that chose the structure; and two teams
      that chose a common structure are never both left unpaired, so in that
      case `max_pairs` is a dict. */
  lemma OptimizeBestIsValid(d: Choices, orders: seq<seq<nat>>, s: Structure, a: Team, b: Team)
    requires DistinctKeys(d)
    requires AllPermutations(orders, |d|)
    requires orders != []
    ensures Optimize(d, orders).pairs.Pairs? ==> Occurrences(Optimize(d, orders).pairs.dict, a) <= 1
    ensures Optimize(d, orders).pairs.Pairs? && (a, b) in Get(Optimize(d, orders).pairs.dict, s)
        ==> s in Get(d, a) && s in Get(d, b)
    ensures a != b && s in Get(d, a) && s in Get(d, b)
        ==> (Optimize(d, orders).pairs.Pairs?
             && (Occurrences(Optimize(d, orders).pairs.dict, a) == 1 || Occurrences(Optimize(d, orders).pairs.dict, b) == 1))
  {
    var results := TrialResults(d, orders);
    KeptListIffNobodyPaired(results);
    if Optimize(d, orders).pairs.Pairs? {
      var k := BestIsATrial(results);
      TrialValid(d, orders, k, s, a, b);
    } else if a != b && s in Get(d, a) && s in Get(d, b) {
      TrialValid(d, orders, 0, s, a, b);
    }
  }

  /** Every trial's assignment has the properties of `assign_pairs` on the
      original choices. */
  lemma TrialValid(d: Choices, orders: seq<seq<nat>>, k: nat, s: Structure, a: Team, b: Team)
    requires DistinctKeys(d)
    requires AllPermutations(orders, |d|)
    requires k < |orders|
    ensures Occurrences(TrialResults(d, orders)[k], a) <= 1
    ensures (a, b) in Get(TrialResults(d, orders)[k], s) ==> s in Get(d, a) && s in Get(d, b)
    ensures a != b && s in Get(d, a) && s in Get(d, b)
        ==> Occurrences(TrialResults(d, orders)[k], a) == 1 || Occurrences(TrialResults(d, orders)[k], b) == 1
  {
    TrialResultAt(d, orders, k);
    var c := Shuffled(d, orders[..k + 1]);
    ShuffledSameDict(d, orders[..k + 1], a);
    ShuffledSameDict(d, orders[..k + 1], b);
    AssignBooksOnce(c, a);
    if (a, b) in Get(AssignPairs(c), s) {
      AssignEligible(c, s, (a, b));
    }
    if a != b && s in Get(d, a) && s in Get(d, b) {
      AssignMaximal(c, a, b, s);
    }
  }

  /** The identity shuffle keeps the order. */
  lemma IdentityReorder(d: Choices)
    ensures IsPermutation(Positions(|d|), |d|)
    ensures Reorder(d, Positions(|d|)) == d
  {
  }

  /** Keep-best over a single result keeps that result with its score, unless
      it pairs nobody: then `max_pairs` stays the list `[]`. */
  lemma KeepBestOfOne(a: Assignment)
    ensures KeepBestOf([a]) == if a == [] then Initial else Best(ScoreOf(a), Pairs(a))
  {
    assert [a][..0] == [];
  }

  /** A single trial with the order left as it is keeps exactly what one
      direct `assign_pairs` call yields, with its score, unless that pairs
      nobody. */
  lemma {:induction false} SingleTrial(d: Choices)
    ensures AllPermutations([Positions(|d|)], |d|)
    ensures Optimize(d, [Positions(|d|)])
         == if AssignPairs(d) == [] then Initial else Best(ScoreOf(AssignPairs(d)), Pairs(AssignPairs(d)))
  {
    IdentityReorder(d);
    var orders := [Positions(|d|)];
    assert orders[..1] == orders;
    assert Shuffled(d, orders) == d;
    assert TrialResults(d, orders) == [AssignPairs(d)];
    KeepBestOfOne(AssignPairs(d));
  }

  /** Trial `t` shuffles the order left by the trials before it. */
  lemma {:induction false} ShuffledStep(d: Choices, orders: seq<seq<nat>>, t: nat)
    requires AllPermutations(orders, |d|)
    requires t < |orders|
    ensures AllPermutations(orders[..t], |d|) && AllPermutations(orders[..t + 1], |d|)
    ensures Shuffled(d, orders[..t + 1]) == Reorder(Shuffled(d, orders[..t]), orders[t])
  {
    assert orders[..t + 1][..t] == orders[..t];
  }

  /** Trial `t`'s result is the assignment of its shuffled choices. */
  lemma TrialResultAt(d: Choices, orders: seq<seq<nat>>, t: nat)
    requires AllPermutations(orders, |d|)
    requires t < |orders|
    ensures AllPermutations(orders[..t + 1], |d|)
    ensures TrialResults(d, orders)[t] == AssignPairs(Shuffled(d, orders[..t + 1]))
  {
    ShuffledStep(d, orders, t);
    assert TrialResults(d, orders)[t] == Trial(d, orders, t);
  }

  /** Keep-best over one more result is one more keep-best step. */
  lemma KeepBestStep(results: seq<Assignment>, t: nat)
    requires t < |results|
    ensures KeepBestOf(results[..t + 1]) == KeepBest(KeepBestOf(results[..t]), results[t])
  {
    assert results[..t + 1][..t] == results[..t];
  }

  /** The trial loop of the script, with `max_teams`, `max_structures` and
      `max_pairs`; the comparison reads the stored `max_teams`. */
  method TrialLoop(team_choices: Choices, orders: seq<seq<nat>>)
    returns (max_teams: nat, max_structures: nat, max_pairs: Kept)
    requires AllPermutations(orders, |team_choices|)
    ensures Best(Score(max_teams, max_structures), max_pairs) == Optimize(team_choices, orders)
  {
    max_teams, max_structures, max_pairs := 0, 0, EmptyList;
    var choices := team_choices;
    ghost var results := TrialResults(team_choices, orders);
    var t := 0;
    while t < |orders|
      invariant t <= |orders|
      invariant AllPermutations(orders[..t], |team_choices|)
      invariant choices == Shuffled(team_choices, orders[..t])
      invariant Best(Score(max_teams, max_structures), max_pairs) == KeepBestOf(results[..t])
    {
      ShuffledStep(team_choices, orders, t);
      TrialResultAt(team_choices, orders, t);
      KeepBestStep(results, t);
      choices := Reorder(choices, orders[t]);
      var new_pairs := AssignPairsLoops(choices);
      var num_teams := 2 * Size(new_pairs);
      var num_structures := |new_pairs|;
      if Exceeds(Score(num_teams, num_structures), Score(max_teams, max_structures)) {
        max_teams, max_structures := num_teams, num_structures;
        max_pairs := Pairs(new_pairs);
      }
      t := t + 1;
    }
    assert results[..t] == results;
  }
}
