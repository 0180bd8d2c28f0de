# Project teams: a Dafny model of the pairing core

`projectteams.py` reads each team's chosen data structures. It then pairs
teams under structures in three steps:

1. **`invert_dictionary`** turns the team → structures dict into a
   structure → teams dict. Output keys come in first-seen order. Every list
   keeps the input's iteration order, and nothing is de-duplicated.
2. **`assign_pairs`** runs greedy rounds. Each round visits every structure
   that has at least two candidate teams. It scans
   `itertools.combinations(teams, 2)` and accepts the first pair whose two
   teams are both still unpaired, so each structure gets at most one pair per
   round. Rounds repeat until one accepts nothing.
3. **The trial loop** reshuffles the choices and runs `assign_pairs` on each
   shuffle. It scores each result as
   `(2 * number of pairs, number of structures with pairs)` and keeps the
   result only when that score is strictly greater than the best so far, as a
   Python tuple.

The Dafny modules follow these steps:

- `OrderedDicts` (`ordered_dicts.dfy`): Python's insertion-ordered dict of
  lists, written as its `items()` in order.
  - `Get` is `d.get(k, [])`.
  - `Append` is `d[k] = d.get(k, []) + [v]`.
- `Inversion` (`inversion.dfy`): `invert_dictionary`.
  - `InvertDictionary` is a recursive function.
  - `InvertLoops` is the nested loops as written.
  - `Column` is an independent reference definition of each output list.
- `Pairing` (`pairing.dfy`): `assign_pairs` as pure functions.
  - `Combinations` is `itertools.combinations(s, 2)`.
  - `FirstQualifying` is the scan with its `continue` and `break`.
  - `Visit` handles one structure.
  - `Round` is one pass of the `for` loop.
  - `Rounds` is the `while successful_pairing` loop, with the count of unpaired
    candidate teams as its termination measure.
  - The module also proves what the result guarantees.
- `PairingLoops` (`pairing_loops.dfy`): the same three loops as imperative
  methods, proved equal to the functions.
- `Trials` (`trials.dfy`): the score, the keep-best step and the trial loop.
  - Each trial's shuffle is a permutation given as input.
  - `Optimize` folds keep-best over the trial results.
  - `TrialLoop` is the loop as written.

Three behaviours of the code that a reader may not expect, and how the model
treats them:

- **Self-pairs.** A team that lists the same structure twice appears twice
  in that structure's candidate list. `itertools.combinations` works by
  position, so it can propose `(T, T)`. `set(pair)` is then `{T}`, so the
  pair can qualify and be accepted.
  - The model allows this.
  - `AssignEligible` says a self-pair needs the structure to be listed twice.
  - `AssignPairsDistinct` proves pairs are distinct when no team repeats a
    structure.
  - For the same reason the round bound is one round per team in general,
    and one per two teams only without such repeats.
- **Cumulative shuffle.** Each trial shuffles the order the previous trial
  left, not the order read from the file. `Shuffled` composes the given
  permutations in that way.
- **The initial `max_pairs`.** `max_pairs` starts as the list `[]`
  (`projectteams.py:96`), while every trial returns a dict. When no trial
  scores above `(0, 0)`, the list is kept. The model keeps the two apart:
  `Trials.Kept` is either `EmptyList` or the `Pairs` of a trial.
  `Trials.KeptListIffNobodyPaired` proves that the list survives exactly when
  no trial paired anybody.

One place where the model departs from the code:

- **The name on line 108.** The comparison at `projectteams.py:108` reads the
  name `max_assigned_teams`, which is never assigned. The model compares
  against `max_teams`, the stored best team count, which the surrounding
  lines evidently mean.

## Model

| member | source | states |
|---|---|---|
| OrderedDicts.Append | projectteams.py:36 | Appending to a key's list adds the key at the end of the key order when it is new and keeps the order otherwise; the total number of listed items grows by exactly one. |
| OrderedDicts.AppendGet | projectteams.py:36 | After `d[k] = d.get(k, []) + [v]`, `get(k)` is the old list with `v` at its end, and every other key reads exactly as before. |
| OrderedDicts.AppendShape | projectteams.py:36 | The append keeps keys distinct and every list non-empty. |
| Inversion.AddKey | projectteams.py:35-36 | The inner loop adds exactly one entry to the output per listed value: the total size grows by the number of values. |
| Inversion.AddKeyLoop | projectteams.py:35-36 | The inner `for` loop as written computes the inner-loop function. |
| Inversion.InvertDictionary | projectteams.py:8-37 | The output holds exactly one entry per listing in the input: its total size is the number of values listed across all keys. |
| Inversion.AddKeyGet | projectteams.py:35-36 | The inner loop appends the key to the list of `v` once for every time `v` occurs among the values, and changes nothing else in that list. |
| Inversion.AddKeyKeys | projectteams.py:35-36 | The inner loop adds the newly seen values as keys, in the order they are first seen. |
| Inversion.InvertColumns | projectteams.py:33-37 | Every output list equals the reference column: the input keys in iteration order, each repeated as often as its own list names the value. |
| Inversion.InvertCounts | projectteams.py:33-37 | Team `k` occurs in the output list of `v` exactly as often as `v` occurs in the input list of `k`; nothing is de-duplicated. |
| Inversion.InvertKeys | projectteams.py:13-25 | The output keys are the listed values in first-seen order across the input's iteration order. |
| Inversion.FirstSeenOrder | projectteams.py:13-25 | The reference key order lists each value once, in the order of its first occurrence among the listed values (after any keys already present). |
| Inversion.InvertEmpty | projectteams.py:33-37 | The output is empty exactly when no key lists any value (in particular for an empty input). |
| Inversion.InvertShape | projectteams.py:33-37 | The output is a dict (no key twice) and every key has a non-empty list. |
| Inversion.InvertLoops | projectteams.py:33-37 | The nested loops as written produce lists equal to the reference columns, with distinct keys, non-empty lists and first-seen key order. |
| Pairing.Combinations | projectteams.py:62-66 | `combinations(teams, 2)` is empty exactly for fewer than two teams, so the `len(teams) < 2` skip changes nothing; otherwise its first pair is the first two teams. |
| Pairing.FirstQualifying | projectteams.py:64-75 | The scan finds nothing exactly when no combination has two unpaired teams; what it returns is a combination with both teams unpaired, and every combination before it has a paired team. |
| Pairing.CombinationsLength | projectteams.py:66 | `combinations(s, 2)` has `n(n-1)/2` pairs. |
| Pairing.CombinationAt | projectteams.py:66 | Every two positions `i < j` of the list give the combination `(s[i], s[j])`. |
| Pairing.CombinationFrom | projectteams.py:66 | Every combination joins two members of the list, and joins a team with itself only when the list holds it twice. |
| Pairing.ScanTakesFirstTwoFree | projectteams.py:66-75 | The first qualifying combination is the first two unpaired teams of the list, in list order, and there is none when fewer than two are unpaired. |
| Pairing.Visit | projectteams.py:62-75 | Visiting one structure only adds paired teams, and only from its own candidates. If it adds none, nothing changes. Otherwise, with a duplicate-free list, it adds exactly two. |
| Pairing.Round | projectteams.py:58-75 | A pass over the structures only adds candidate teams to the paired set. If it adds none, nothing changes. Otherwise, with duplicate-free lists, it adds at least two. |
| Pairing.Rounds | projectteams.py:57-75 | The round loop ends; its result pairs only candidate teams; the number of rounds that paired something is at most the number of candidate teams (half of it with duplicate-free lists); at the end no combination qualifies. |
| Pairing.RoundStalls | projectteams.py:57-75 | A round pairs nobody if and only if no structure has a combination of two unpaired teams, which is exactly when the `while` loop stops. |
| Pairing.RoundGrowsPerStructure | projectteams.py:60-75 | Within a round the pairs of a structure only grow at their end, by at most one per visit of that structure. |
| Pairing.OnePairPerStructurePerRound | projectteams.py:60-75 | Because of the `break`, a round adds at most one pair to each structure, after the pairs it already had. |
| Pairing.VisitValid | projectteams.py:66-74 | Accepting a pair keeps every invariant true: each paired team is in exactly one recorded pair, every pair is a combination of its structure's candidates, the result is a dict of non-empty lists, and (with duplicate-free lists) paired teams are twice the pairs. |
| Pairing.RoundsValid | projectteams.py:57-75 | The same invariants hold when the round loop ends. |
| Pairing.Assign | projectteams.py:53-76 | The `while` loop ends with only candidate teams paired, after at most one pairing round per candidate team, and with no structure left holding a combination of two unpaired teams. |
| Pairing.AssignPairs | projectteams.py:40-76 | `assign_pairs` returns a dict in which every structure has at least one pair and no team is in two pairs. |
| Pairing.AssignBooksOnce | projectteams.py:66-73 | No team is in two pairs of the result, and only teams of the choices are in any pair. |
| Pairing.AssignEligible | projectteams.py:55-72 | Both teams of every pair recorded under `S` listed `S`; a team is paired with itself only when it listed `S` twice. |
| Pairing.AssignPairsDistinct | projectteams.py:55-72 | When no team lists a structure twice, the two teams of every pair are different. |
| Pairing.AssignMaximal | projectteams.py:57-76 | Two different teams that chose a common structure are never both left unpaired: the result is maximal for the greedy scan. |
| Pairing.AssignMaximalSelf | projectteams.py:57-76 | A team that chose a structure twice is never left unpaired, since it can be paired with itself. |
| Pairing.AssignRoundsBound | projectteams.py:57-75 | The loop runs at most one pairing round per team, and at most one per two teams when no team lists a structure twice. |
| Pairing.AssignShape | projectteams.py:53-76 | The result is a dict of non-empty lists. A team is in the paired set exactly when it is in one pair. Without repeated choices, the paired set has twice as many teams as there are pairs. |
| PairingLoops.ScanCombinations | projectteams.py:66-75 | The combination loop with `continue` and `break` finds a pair exactly when some combination qualifies, and that pair is the first one to qualify. |
| PairingLoops.PairingRound | projectteams.py:58-75 | One pass of the `for` loop as written computes the round function. `successful_pairing` is set exactly when the paired set changed. |
| PairingLoops.AssignPairsLoops | projectteams.py:53-76 | `assign_pairs` as written, with its three nested loops, returns the assignment of the round-based definition. |
| Trials.ScoreOf | projectteams.py:106-107 | The score is `(2 × total pairs, number of keys)`: the team count is even; in a dict of non-empty lists (as `AssignPairs` returns) every key is a structure with at least one pair, so the structure count is at most half the team count; the score exceeds `(0, 0)` exactly when the result is non-empty. |
| Trials.ExceedsOrder | projectteams.py:108 | Python's tuple `>` on scores is a strict total order: irreflexive, asymmetric, transitive, and any two different scores are comparable. |
| Trials.Reorder | projectteams.py:100-102 | `dict(shuffle(list(items)))` with the permutation given has as many items as the input, each of them an item of the input, and every input item appears in it. |
| Trials.Shuffled | projectteams.py:98-102 | After any number of cumulative reshuffles the order has the same length and the same items as the choices read from the file. |
| Trials.KeepBest | projectteams.py:108-110 | The kept best is at least as good as both the previous best and the candidate. It is one of the two, and the candidate is stored as a dict. It changes exactly when the candidate's score is strictly greater. |
| Trials.ReorderSameDict | projectteams.py:100-102 | Reshuffling changes only the iteration order: the result is still a dict, it has the same list under every team, and it holds only items of the original. |
| Trials.ShuffledSameDict | projectteams.py:98-102 | Across any number of cumulative reshuffles, every trial sees the same dict. |
| Trials.KeepBestOf | projectteams.py:94-110 | The stored score is always the score of the stored dict; while `max_pairs` is still the initial list, the whole best is still the initial `(0, 0)`. |
| Trials.BestNeverDecreases | projectteams.py:106-110 | The best score after any prefix of the trials is never above the best score after all of them. |
| Trials.BestBeatsEveryTrial | projectteams.py:106-110 | No trial's score exceeds the kept best score. |
| Trials.BestComesFromATrial | projectteams.py:106-110 | The kept best is either the initial one, or the result of some trial with every earlier trial scoring strictly less. So the first of several equally good results is the one kept. |
| Trials.KeptListIffNobodyPaired | projectteams.py:94-110 | After the trials, `max_pairs` is still the initial list `[]` exactly when every trial returned an empty dict. |
| Trials.BestIsATrial | projectteams.py:94-110 | Once some trial has paired somebody, the kept pairs are the dict returned by one of the trials. |
| Trials.TrialValid | projectteams.py:98-105 | Every trial's result books no team twice, pairs only teams that chose the structure in the original choices, and leaves no two teams with a common choice both unpaired. |
| Trials.OptimizeBestIsValid | projectteams.py:94-110 | After at least one trial, a kept dict books no team twice and pairs only teams that chose the structure, in the original choices. If two teams share a choice, `max_pairs` is a dict and one of them is paired. |
| Trials.KeepBestOfOne | projectteams.py:94-110 | Keep-best over a single result keeps that result and its score, unless the result is the empty dict: then the initial `(0, 0)` and the list `[]` stay. |
| Trials.SingleTrial | projectteams.py:94-110 | A single trial with the order unchanged keeps exactly `assign_pairs` of the choices, with its score, unless that pairs nobody, in which case the initial best stays. |
| Trials.TrialLoop | projectteams.py:94-110 | The trial loop as written ends with `max_teams`, `max_structures` and `max_pairs` equal to the keep-best fold over the trial results. |

## Left out

- Reading `projecttopics.txt` (`projectteams.py:82-85`) is file input.
  - The model takes the resulting dict as its input.
  - When a team name appears twice in the file, the last line wins while the
    dict is built; that happens before the modelled code runs.
- Printing the result (`projectteams.py:115-118`) is output formatting only.
  When no trial paired anybody, `max_pairs` is still the list `[]`, and
  `max_pairs.items()` on line 116 would raise `AttributeError`. The model
  stops before the printing. `Trials.KeptListIffNobodyPaired` states exactly
  when this happens.
- `random.shuffle` (`projectteams.py:101`) is randomness. Each trial's
  permutation is a parameter, and the model proves properties for every
  permutation.
- The fixed count of 5000 trials (`projectteams.py:98`) is the length of the
  permutation sequence given to the model.
- `import graphviz` (`projectteams.py:2`) is unused.
- `copy` and `typing` are imported and not used by the modelled code.
- The undefined name `max_assigned_teams` (`projectteams.py:108`) would raise
  `NameError` on the first trial. The model compares against `max_teams`
  instead and does not model the exception.
- The docstring example of `invert_dictionary` (`projectteams.py:13-25`) is
  not evaluated on its concrete input. The properties it illustrates (key
  order, list order, no de-duplication) are proved for all inputs by
  `Inversion.InvertKeys`, `Inversion.InvertColumns` and
  `Inversion.InvertCounts`.
- Teams and structures are strings compared for equality only. Python's
  hashing and set iteration order never affect the modelled results.
