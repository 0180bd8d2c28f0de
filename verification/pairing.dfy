/**
 `assign_pairs`: the greedy, round-based pairing of teams under the
 structures they chose.

 Every round visits the structures of the inverted choices in order; for a
 structure with at least two candidate teams it scans
 `itertools.combinations(teams, 2)` and accepts the first pair whose teams
 are both still unpaired, at most one pair per structure per round. Rounds
 repeat until one accepts nothing.
 */
module Pairing {
  import opened OrderedDicts
  import opened Inversion

  type Team = string
  type Structure = string
  type Pair = (Team, Team)

  /** `team_choices`: each team's chosen structures. */
  type Choices = ListDict<Team, Structure>
  /** `struct_teams`: each structure's candidate teams. */
  type Candidates = ListDict<Structure, Team>
  /** `struct_pairs`: the pairs formed under each structure. */
  type Assignment = ListDict<Structure, Pair>

  datatype Option<T> = None | Some(value: T)

  /** The working variables of `assign_pairs`: `struct_pairs` and `paired_teams`. */
  datatype State = State(pairs: Assignment, paired: set<Team>)

  /** The result of the round loop, with the number of rounds that paired
      something. */
  datatype Run = Run(final: State, rounds: nat)

  /* ---------------------------------------------------------------------- */
  /* itertools.combinations(s, 2) and the scan for the first free pair       */

  /** `(x, ys[0]), (x, ys[1]), ...` */
  function PairsWith<T>(x: T, ys: seq<T>): seq<(T, T)> {
    if ys == [] then [] else [(x, ys[0])] + PairsWith(x, ys[1..])
  }

  /** `itertools.combinations(s, 2)`: the elements at positions `i < j`, in
      lexicographic order of `(i, j)`. */
  function Combinations<T>(s: seq<T>): (r: seq<(T, T)>)
    ensures |s| < 2 ==> |r| == 0
    ensures |s| >= 2 ==> |r| > 0 && r[0] == (s[0], s[1])
  {
    if s == [] then [] else PairsWith(s[0], s[1..]) + Combinations(s[1..])
  }

  /** Neither team of the pair is paired yet: `not set(pair) & paired_teams`. */
  predicate Qualifies(p: Pair, paired: set<Team>) {
    p.0 !in paired && p.1 !in paired
  }

  /** The first pair of `cs` that qualifies, if any. */
  function FirstQualifying(cs: seq<Pair>, paired: set<Team>): (r: Option<Pair>)
    ensures r.None? <==> forall i :: 0 <= i < |cs| ==> !Qualifies(cs[i], paired)
    ensures r.Some? ==> r.value in cs && Qualifies(r.value, paired)
    ensures r.Some? ==> exists k :: 0 <= k < |cs| && cs[k] == r.value
                                 && forall m :: 0 <= m < k ==> !Qualifies(cs[m], paired)
  {
    if cs == [] then None
    else if Qualifies(cs[0], paired) then Some(cs[0])
    else FirstQualifying(cs[1..], paired)
  }

  /** The teams of `s` not yet paired, in order. */
  function Free(s: seq<Team>, paired: set<Team>): (r: seq<Team>)
    ensures forall i :: 0 <= i < |r| ==> r[i] in s && r[i] !in paired
  {
    if s == [] then []
    else if s[0] in paired then Free(s[1..], paired)
    else [s[0]] + Free(s[1..], paired)
  }

  lemma {:induction false} CombinationsLength<T>(s: seq<T>)
    ensures 2 * |Combinations(s)| == |s| * (|s| - 1)
  {
    if s != [] {
      CombinationsLength(s[1..]);
      PairsWithLength(s[0], s[1..]);
    }
  }

  lemma {:induction false} PairsWithLength<T>(x: T, ys: seq<T>)
    ensures |PairsWith(x, ys)| == |ys|
  {
    if ys != [] {
      PairsWithLength(x, ys[1..]);
    }
  }

  lemma {:induction false} PairsWithMember<T>(x: T, ys: seq<T>, p: (T, T))
    ensures p in PairsWith(x, ys) <==> p.0 == x && p.1 in ys
  {
    if ys != [] {
      PairsWithMember(x, ys[1..], p);
      assert ys == [ys[0]] + ys[1..];
    }
  }

  /** Every two positions `i < j` of `s` give a combination... */
  lemma {:induction false} CombinationAt<T>(s: seq<T>, i: nat, j: nat)
    requires i < j < |s|
    ensures (s[i], s[j]) in Combinations(s)
  {
    if i == 0 {
      PairsWithMember(s[0], s[1..], (s[0], s[j]));
      assert s[j] == s[1..][j - 1];
    } else {
      CombinationAt(s[1..], i - 1, j - 1);
    }
  }

  /** ...and every combination comes from two positions `i < j`: both teams
      are in `s`, and a team can only be paired with itself when `s` holds
      it twice. */
  lemma {:induction false} CombinationFrom<T>(s: seq<T>, p: (T, T))
    requires p in Combinations(s)
    ensures p.0 in s && p.1 in s
    ensures p.0 == p.1 ==> multiset(s)[p.0] >= 2
  {
    assert s == [s[0]] + s[1..];
    PairsWithMember(s[0], s[1..], p);
    if p in PairsWith(s[0], s[1..]) {
      if p.0 == p.1 {
        assert multiset(s)[p.0] == 1 + multiset(s[1..])[p.0];
      }
    } else {
      CombinationFrom(s[1..], p);
    }
  }

  /** In a duplicate-free list every combination pairs two different teams. */
  lemma CombinationDistinct<T>(s: seq<T>, p: (T, T))
    requires p in Combinations(s)
    ensures NoDup(s) ==> p.0 != p.1
  {
    CombinationFrom(s, p);
    if NoDup(s) {
      NoDupCount(s, p.0);
    }
  }

  /** A pair `(x, y)` from `PairsWith(x, ys)` qualifies exactly when `x` and
      `y` are free, so the first to qualify is `x` with the first free `y`. */
  lemma {:induction false} FirstQualifyingWith(x: Team, ys: seq<Team>, paired: set<Team>)
    ensures FirstQualifying(PairsWith(x, ys), paired)
         == if x in paired || Free(ys, paired) == [] then None
            else Some((x, Free(ys, paired)[0]))
  {
    if ys != [] {
      FirstQualifyingWith(x, ys[1..], paired);
    }
  }

  lemma {:induction false} FirstQualifyingConcat(a: seq<Pair>, b: seq<Pair>, paired: set<Team>)
    ensures FirstQualifying(a + b, paired)
         == if FirstQualifying(a, paired).Some? then FirstQualifying(a, paired)
            else FirstQualifying(b, paired)
  {
    if a != [] {
      assert (a + b)[1..] == a[1..] + b;
      FirstQualifyingConcat(a[1..], b, paired);
    } else {
      assert a + b == b;
    }
  }

  /** The pair the combination scan accepts is the first two unpaired teams
      of the list, and there is one exactly when two teams are unpaired. */
  lemma {:induction false} ScanTakesFirstTwoFree(teams: seq<Team>, paired: set<Team>)
    ensures FirstQualifying(Combinations(teams), paired)
         == if |Free(teams, paired)| >= 2
            then Some((Free(teams, paired)[0], Free(teams, paired)[1]))
            else None
  {
    if teams != [] {
      var x, rest := teams[0], teams[1..];
      ScanTakesFirstTwoFree(rest, paired);
      FirstQualifyingWith(x, rest, paired);
      FirstQualifyingConcat(PairsWith(x, rest), Combinations(rest), paired);
    }
  }

  /* ---------------------------------------------------------------------- */
  /* Rounds                                                                  */

  /** Every team listed under some structure. */
  function TeamsOf(idx: Candidates): set<Team> {
    set i, j | 0 <= i < |idx| && 0 <= j < |idx[i].1| :: idx[i].1[j]
  }

  /** No structure lists the same team twice. */
  predicate NoDupLists(idx: Candidates) {
    forall i :: 0 <= i < |idx| ==> NoDup(idx[i].1)
  }

  /** The body of `for struct, teams in struct_teams.items()` for one
      structure: accept the first qualifying combination, if any. */
  function Visit(st: State, s: Structure, teams: seq<Team>): (r: State)
    ensures st.paired <= r.paired
    ensures forall t :: t in r.paired ==> t in st.paired || t in teams
    ensures r.paired == st.paired ==> r == st
    ensures NoDup(teams) && r.paired != st.paired ==> |r.paired| == |st.paired| + 2
  {
    if |teams| < 2 then st
    else match FirstQualifying(Combinations(teams), st.paired)
      case None => st
      case Some(p) =>
        CombinationFrom(teams, p);
        CombinationDistinct(teams, p);
        State(Append(st.pairs, s, p), st.paired + {p.0, p.1})
  }

  /** The structures `idx[i..]` of one pass of `while successful_pairing`. */
  function Round(idx: Candidates, i: nat, st: State): (r: State)
    requires i <= |idx|
    ensures st.paired <= r.paired
    ensures forall t :: t in r.paired ==> t in st.paired || t in TeamsOf(idx)
    ensures r.paired == st.paired ==> r == st
    ensures NoDupLists(idx) && r.paired != st.paired ==> |r.paired| >= |st.paired| + 2
    decreases |idx| - i
  {
    if i == |idx| then st
    else
      var v := Visit(st, idx[i].0, idx[i].1);
      assert forall t :: t in idx[i].1 ==> t in TeamsOf(idx);
      Round(idx, i + 1, v)
  }

  lemma SubsetCard(a: set<Team>, b: set<Team>)
    requires a <= b
    ensures |b - a| == |b| - |a|
    ensures a != b ==> |a| < |b|
  {
    assert b == (b - a) + a;
    if a != b {
      var x :| x in b - a;
    }
  }

  /** `while successful_pairing`: rounds from `st` until one pairs nobody. */
  function Rounds(idx: Candidates, st: State): (r: Run)
    requires st.paired <= TeamsOf(idx)
    ensures st.paired <= r.final.paired <= TeamsOf(idx)
    ensures r.rounds <= |TeamsOf(idx) - st.paired|
    ensures NoDupLists(idx) ==> 2 * r.rounds <= |TeamsOf(idx) - st.paired|
    ensures NoneQualify(idx, 0, r.final.paired)
    decreases |TeamsOf(idx) - st.paired|
  {
    var next := Round(idx, 0, st);
    RoundStalls(idx, 0, st);
    SubsetCard(st.paired, TeamsOf(idx));
    SubsetCard(next.paired, TeamsOf(idx));
    SubsetCard(st.paired, next.paired);
    if next.paired == st.paired then Run(next, 0)
    else
      var r := Rounds(idx, next);
      Run(r.final, r.rounds + 1)
  }

  /* ---------------------------------------------------------------------- */
  /* What a round keeps true                                                 */

  /** How many of the pairs `ps` contain team `t`. */
  function Holding(ps: seq<Pair>, t: Team): nat {
    if ps == [] then 0
    else (if ps[0].0 == t || ps[0].1 == t then 1 else 0) + Holding(ps[1..], t)
  }

  /** How many pairs of the whole assignment contain team `t`. */
  function Occurrences(m: Assignment, t: Team): nat {
    if m == [] then 0 else Holding(m[0].1, t) + Occurrences(m[1..], t)
  }

  lemma {:induction false} HoldingSnoc(ps: seq<Pair>, p: Pair, t: Team)
    ensures Holding(ps + [p], t) == Holding(ps, t) + (if p.0 == t || p.1 == t then 1 else 0)
  {
    if ps != [] {
      assert (ps + [p])[1..] == ps[1..] + [p];
      HoldingSnoc(ps[1..], p, t);
    }
  }

  /** Recording a pair adds one to the count of each of its teams. */
  lemma {:induction false} OccurrencesAppend(m: Assignment, s: Structure, p: Pair, t: Team)
    ensures Occurrences(Append(m, s, p), t)
         == Occurrences(m, t) + (if p.0 == t || p.1 == t then 1 else 0)
  {
    if m == [] {
      assert Append(m, s, p) == [(s, [p])];
      assert Holding([p], t) == (if p.0 == t || p.1 == t then 1 else 0) + Holding([], t);
    } else if m[0].0 == s {
      HoldingSnoc(m[0].1, p, t);
      assert Append(m, s, p)[1..] == m[1..];
    } else {
      OccurrencesAppend(m[1..], s, p, t);
      assert Append(m, s, p)[1..] == Append(m[1..], s, p);
    }
  }

  /** Each team is in exactly one recorded pair when it is in `paired_teams`,
      and in none otherwise. */
  ghost predicate Booked(st: State) {
    forall t :: Occurrences(st.pairs, t) == if t in st.paired then 1 else 0
  }

  /** `p` is a combination of the candidates of structure `s`. */
  ghost predicate Drawn(idx: Candidates, s: Structure, p: Pair) {
    exists i :: 0 <= i < |idx| && idx[i].0 == s && p in Combinations(idx[i].1)
  }

  /** Every pair recorded under a structure was drawn from its candidates. */
  ghost predicate Eligible(idx: Candidates, st: State) {
    forall s, p :: p in Get(st.pairs, s) ==> Drawn(idx, s, p)
  }

  /** What holds of the working variables between any two structures. */
  ghost predicate Valid(idx: Candidates, st: State) {
    && Booked(st)
    && st.paired <= TeamsOf(idx)
    && Eligible(idx, st)
    && DistinctKeys(st.pairs)
    && NonEmptyLists(st.pairs)
    && (NoDupLists(idx) ==> |st.paired| == 2 * Size(st.pairs))
  }

  /** Recording a pair of two unpaired teams, and marking both paired, keeps
      every team booked exactly when it is paired. */
  lemma BookedAppend(st: State, s: Structure, p: Pair)
    requires Booked(st) && Qualifies(p, st.paired)
    ensures Booked(State(Append(st.pairs, s, p), st.paired + {p.0, p.1}))
  {
    forall t
      ensures Occurrences(Append(st.pairs, s, p), t) == if t in st.paired + {p.0, p.1} then 1 else 0
    {
      OccurrencesAppend(st.pairs, s, p, t);
    }
  }

  /** Recording the accepted pair keeps every team booked at most once. */
  lemma VisitBooked(st: State, s: Structure, teams: seq<Team>)
    requires Booked(st)
    ensures Booked(Visit(st, s, teams))
  {
    var r := Visit(st, s, teams);
    if r != st {
      var p := FirstQualifying(Combinations(teams), st.paired).value;
      assert r == State(Append(st.pairs, s, p), st.paired + {p.0, p.1});
      BookedAppend(st, s, p);
    }
  }

  /** The accepted pair is a combination of the visited structure's candidates. */
  lemma VisitEligible(idx: Candidates, i: nat, st: State)
    requires i < |idx|
    requires Eligible(idx, st)
    ensures Eligible(idx, Visit(st, idx[i].0, idx[i].1))
  {
    var s, teams := idx[i].0, idx[i].1;
    var r := Visit(st, s, teams);
    if r != st {
      var p := FirstQualifying(Combinations(teams), st.paired).value;
      assert r.pairs == Append(st.pairs, s, p);
      assert Drawn(idx, s, p);
      forall x, q | q in Get(r.pairs, x)
        ensures Drawn(idx, x, q)
      {
        AppendGet(st.pairs, s, p, x);
      }
    }
  }

  /** Recording a pair keeps the result a dict of non-empty lists, and adds
      one pair for two newly paired teams when lists are duplicate-free. */
  lemma VisitShape(idx: Candidates, i: nat, st: State)
    requires i < |idx|
    requires DistinctKeys(st.pairs) && NonEmptyLists(st.pairs)
    requires NoDupLists(idx) ==> |st.paired| == 2 * Size(st.pairs)
    ensures DistinctKeys(Visit(st, idx[i].0, idx[i].1).pairs)
    ensures NonEmptyLists(Visit(st, idx[i].0, idx[i].1).pairs)
    ensures NoDupLists(idx) ==> |Visit(st, idx[i].0, idx[i].1).paired| == 2 * Size(Visit(st, idx[i].0, idx[i].1).pairs)
  {
    var s, teams := idx[i].0, idx[i].1;
    var r := Visit(st, s, teams);
    if r != st {
      var p := FirstQualifying(Combinations(teams), st.paired).value;
      assert r.pairs == Append(st.pairs, s, p);
      AppendShape(st.pairs, s, p);
    }
  }

  lemma VisitValid(idx: Candidates, i: nat, st: State)
    requires i < |idx|
    requires Valid(idx, st)
    ensures Valid(idx, Visit(st, idx[i].0, idx[i].1))
  {
    VisitBooked(st, idx[i].0, idx[i].1);
    VisitEligible(idx, i, st);
    VisitShape(idx, i, st);
    assert forall t :: t in idx[i].1 ==> t in TeamsOf(idx);
  }

  lemma {:induction false} RoundValid(idx: Candidates, i: nat, st: State)
    requires i <= |idx|
    requires Valid(idx, st)
    ensures Valid(idx, Round(idx, i, st))
    decreases |idx| - i
  {
    if i < |idx| {
      var v := Visit(st, idx[i].0, idx[i].1);
      VisitValid(idx, i, st);
      RoundValid(idx, i + 1, v);
      assert Round(idx, i, st) == Round(idx, i + 1, v);
    }
  }

  /** No combination of the candidates of `idx[i..]` has both teams free. */
  ghost predicate NoneQualify(idx: Candidates, i: nat, paired: set<Team>) {
    forall j, c :: i <= j < |idx| && c in Combinations(idx[j].1) ==> !Qualifies(c, paired)
  }

  /** A round pairs nobody exactly when no structure has a combination of two
      unpaired teams. */
  lemma {:induction false} RoundStalls(idx: Candidates, i: nat, st: State)
    requires i <= |idx|
    ensures Round(idx, i, st).paired == st.paired <==> NoneQualify(idx, i, st.paired)
    decreases |idx| - i
  {
    if i < |idx| {
      var teams := idx[i].1;
      var v := Visit(st, idx[i].0, teams);
      RoundStalls(idx, i + 1, v);
      CombinationsLength(teams);
      if v == st {
        if |teams| >= 2 {
          assert FirstQualifying(Combinations(teams), st.paired).None?;
        }
      } else {
        var p := FirstQualifying(Combinations(teams), st.paired).value;
        assert p in Combinations(teams) && Qualifies(p, st.paired);
      }
    }
  }

  /** Visiting structure `s'` only extends the pairs of `s'`, by at most one. */
  lemma VisitGet(st: State, s': Structure, teams: seq<Team>, s: Structure)
    ensures Get(st.pairs, s) <= Get(Visit(st, s', teams).pairs, s)
    ensures |Get(Visit(st, s', teams).pairs, s)| <= |Get(st.pairs, s)| + if s' == s then 1 else 0
  {
    var v := Visit(st, s', teams);
    if v != st {
      var p := FirstQualifying(Combinations(teams), st.paired).value;
      assert v.pairs == Append(st.pairs, s', p);
      AppendGet(st.pairs, s', p, s);
    }
  }

  /** Within one round, the pairs of structure `s` only grow at their end,
      by at most one pair per item of `idx[i..]` with key `s`. */
  lemma {:induction false} RoundGrowsPerStructure(idx: Candidates, i: nat, st: State, s: Structure)
    requires i <= |idx|
    ensures Get(st.pairs, s) <= Get(Round(idx, i, st).pairs, s)
    ensures |Get(Round(idx, i, st).pairs, s)| <= |Get(st.pairs, s)| + multiset(Keys(idx)[i..])[s]
    decreases |idx| - i
  {
    if i < |idx| {
      var v := Visit(st, idx[i].0, idx[i].1);
      RoundUnfold(idx, i, st);
      RoundGrowsPerStructure(idx, i + 1, v, s);
      VisitGet(st, idx[i].0, idx[i].1, s);
      KeySuffixCount(idx, i, s);
    }
  }

  /** A round from item `i` visits item `i` and goes on from `i + 1`. */
  lemma RoundUnfold(idx: Candidates, i: nat, st: State)
    requires i < |idx|
    ensures Round(idx, i, st) == Round(idx, i + 1, Visit(st, idx[i].0, idx[i].1))
  {
  }

  /** The keys from item `i` on count `s` once more than those from `i + 1`
      when item `i` has key `s`. */
  lemma KeySuffixCount(idx: Candidates, i: nat, s: Structure)
    requires i < |idx|
    ensures multiset(Keys(idx)[i..])[s] == multiset(Keys(idx)[i + 1..])[s] + if idx[i].0 == s then 1 else 0
  {
    var ks := Keys(idx);
    SuffixCount(ks, i, s);
  }

  /** Counting in a suffix: the element at the cut plus what follows it. */
  lemma SuffixCount<T>(ks: seq<T>, i: nat, s: T)
    requires i < |ks|
    ensures multiset(ks[i..])[s] == multiset(ks[i + 1..])[s] + if ks[i] == s then 1 else 0
  {
    assert ks[i..] == [ks[i]] + ks[i + 1..];
  }

  /** A round adds at most one pair to each structure, after the ones it had. */
  lemma {:induction false} OnePairPerStructurePerRound(idx: Candidates, st: State, s: Structure)
    requires DistinctKeys(idx)
    ensures Get(st.pairs, s) <= Get(Round(idx, 0, st).pairs, s)
    ensures |Get(Round(idx, 0, st).pairs, s)| <= |Get(st.pairs, s)| + 1
  {
    RoundGrowsPerStructure(idx, 0, st, s);
    DistinctKeysNoDup(idx);
    NoDupCount(Keys(idx), s);
    assert Keys(idx)[0..] == Keys(idx);
  }

  lemma {:induction false} RoundsValid(idx: Candidates, st: State)
    requires st.paired <= TeamsOf(idx)
    requires Valid(idx, st)
    ensures Valid(idx, Rounds(idx, st).final)
    decreases |TeamsOf(idx) - st.paired|
  {
    var next := Round(idx, 0, st);
    RoundValid(idx, 0, st);
    if next.paired != st.paired {
      SubsetCard(st.paired, TeamsOf(idx));
      SubsetCard(next.paired, TeamsOf(idx));
      SubsetCard(st.paired, next.paired);
      RoundsValid(idx, next);
    }
  }

  /* ---------------------------------------------------------------------- */
  /* assign_pairs                                                            */

  /** The whole of `assign_pairs`, with the number of rounds that paired
      something. */
  function Assign(choices: Choices): (r: Run)
    ensures r.final.paired <= TeamsOf(InvertDictionary(choices))
    ensures r.rounds <= |TeamsOf(InvertDictionary(choices))|
    ensures NoneQualify(InvertDictionary(choices), 0, r.final.paired)
  {
    Rounds(InvertDictionary(choices), State([], {}))
  }

  /** `assign_pairs(team_choices)`: a dict whose every structure has at
      least one pair, with no team in two pairs. */
  function AssignPairs(choices: Choices): (r: Assignment)
    ensures DistinctKeys(r) && NonEmptyLists(r)
    ensures forall t :: Occurrences(r, t) <= 1
  {
    AssignValid(choices);
    Assign(choices).final.pairs
  }

  lemma {:induction false} AssignValid(choices: Choices)
    ensures Valid(InvertDictionary(choices), Assign(choices).final)
  {
    RoundsValid(InvertDictionary(choices), State([], {}));
  }

  /** Every team listed under a structure of the inverted choices is a team of
      the choices. */
  lemma {:induction false} ColumnKeys<K, V>(d: ListDict<K, V>, v: V, k: K)
    requires k in Column(d, v)
    ensures k in Keys(d)
  {
    var p, e := d[..|d| - 1], d[|d| - 1];
    RepeatCount(e.0, multiset(e.1)[v], k);
    assert Keys(d) == Keys(p) + [e.0];
    if k in Column(p, v) {
      ColumnKeys(p, v, k);
    }
  }

  lemma {:induction false} TeamsOfInverted(choices: Choices)
    ensures TeamsOf(InvertDictionary(choices)) <= set t | t in Keys(choices)
  {
    var idx := InvertDictionary(choices);
    InvertShape(choices);
    forall t | t in TeamsOf(idx)
      ensures t in Keys(choices)
    {
      var i, j :| 0 <= i < |idx| && 0 <= j < |idx[i].1| && t == idx[i].1[j];
      GetAt(idx, i);
      InvertColumns(choices, idx[i].0);
      ColumnKeys(choices, idx[i].0, t);
    }
  }

  lemma {:induction false} SetOfSeqCard(s: seq<Team>)
    ensures |set t | t in s| <= |s|
  {
    if s != [] {
      SetOfSeqCard(s[1..]);
      assert (set t | t in s) == {s[0]} + (set t | t in s[1..]);
    }
  }

  /** Candidate lists are duplicate-free when the choices are a dict and no
      team names a structure twice. */
  lemma {:induction false} InvertedNoDupLists(choices: Choices)
    requires DistinctKeys(choices)
    requires forall i :: 0 <= i < |choices| ==> NoDup(choices[i].1)
    ensures NoDupLists(InvertDictionary(choices))
  {
    var idx := InvertDictionary(choices);
    InvertShape(choices);
    forall i | 0 <= i < |idx|
      ensures NoDup(idx[i].1)
    {
      GetAt(idx, i);
      forall k | 0 <= k < |idx[i].1|
        ensures multiset(idx[i].1)[idx[i].1[k]] <= 1
      {
        var t := idx[i].1[k];
        InvertCounts(choices, idx[i].0, t);
        GetFound(choices, t);
        if Get(choices, t) != [] {
          var j :| 0 <= j < |choices| && choices[j].0 == t && Get(choices, t) == choices[j].1;
          NoDupCount(choices[j].1, idx[i].0);
        }
      }
      CountNoDup(idx[i].1);
    }
  }

  /** No team is booked twice: every team is in at most one pair of the
      result, and only teams of the choices are in any. */
  lemma AssignBooksOnce(choices: Choices, t: Team)
    ensures Occurrences(AssignPairs(choices), t) <= 1
    ensures Occurrences(AssignPairs(choices), t) == 1 ==> t in Keys(choices)
  {
    AssignValid(choices);
    TeamsOfInverted(choices);
  }

  /** Every pair of the result was drawn from its structure's candidates. */
  lemma AssignDrawn(choices: Choices, s: Structure, p: Pair)
    ensures p in Get(AssignPairs(choices), s) ==> p in Combinations(Get(InvertDictionary(choices), s))
  {
    if p in Get(AssignPairs(choices), s) {
      var idx := InvertDictionary(choices);
      AssignValid(choices);
      assert Drawn(idx, s, p);
      var i :| 0 <= i < |idx| && idx[i].0 == s && p in Combinations(idx[i].1);
      InvertShape(choices);
      GetAt(idx, i);
    }
  }

  /** Every pair recorded under structure `s` joins two teams that both chose
      `s`; a team is paired with itself only if it chose `s` twice. */
  lemma {:induction false} AssignEligible(choices: Choices, s: Structure, p: Pair)
    requires DistinctKeys(choices)
    ensures p in Get(AssignPairs(choices), s) ==> s in Get(choices, p.0) && s in Get(choices, p.1)
    ensures p in Get(AssignPairs(choices), s) && p.0 == p.1 ==> multiset(Get(choices, p.0))[s] >= 2
  {
    if p in Get(AssignPairs(choices), s) {
      var column := Get(InvertDictionary(choices), s);
      AssignDrawn(choices, s, p);
      CombinationFrom(column, p);
      InvertCounts(choices, s, p.0);
      InvertCounts(choices, s, p.1);
      assert multiset(Get(choices, p.0))[s] > 0 && multiset(Get(choices, p.1))[s] > 0;
    }
  }

  /** When no team names a structure twice, every pair joins two different
      teams. */
  lemma AssignPairsDistinct(choices: Choices, s: Structure, p: Pair)
    requires DistinctKeys(choices)
    requires forall i :: 0 <= i < |choices| ==> NoDup(choices[i].1)
    requires p in Get(AssignPairs(choices), s)
    ensures p.0 != p.1
  {
    AssignEligible(choices, s, p);
    GetFound(choices, p.0);
    var j :| 0 <= j < |choices| && choices[j].0 == p.0 && Get(choices, p.0) == choices[j].1;
    NoDupCount(choices[j].1, s);
  }

  /** Two different teams of one list are paired, in one order or the other,
      by some combination of the list. */
  lemma CombinationOfTwo(column: seq<Team>, a: Team, b: Team)
    requires a != b && a in column && b in column
    ensures (a, b) in Combinations(column) || (b, a) in Combinations(column)
  {
    var ia :| 0 <= ia < |column| && column[ia] == a;
    var ib :| 0 <= ib < |column| && column[ib] == b;
    if ia < ib {
      CombinationAt(column, ia, ib);
    } else {
      CombinationAt(column, ib, ia);
    }
  }

  /** A team that chose structure `s` is a candidate of `s` after inversion. */
  lemma ChoiceIsCandidate(choices: Choices, s: Structure, a: Team)
    requires DistinctKeys(choices)
    requires s in Get(choices, a)
    ensures a in Get(InvertDictionary(choices), s)
  {
    InvertCounts(choices, s, a);
    assert multiset(Get(InvertDictionary(choices), s))[a] > 0;
  }

  /** Once no combination qualifies, one of the two teams of any combination
      is booked. */
  lemma StalledMaximal(idx: Candidates, st: State, i: nat, a: Team, b: Team)
    requires Booked(st) && NoneQualify(idx, 0, st.paired)
    requires i < |idx|
    requires (a, b) in Combinations(idx[i].1) || (b, a) in Combinations(idx[i].1)
    ensures Occurrences(st.pairs, a) == 1 || Occurrences(st.pairs, b) == 1
  {
    if (a, b) in Combinations(idx[i].1) {
      assert !Qualifies((a, b), st.paired);
    } else {
      assert !Qualifies((b, a), st.paired);
    }
  }

  /** The result is maximal for the greedy scan: two different teams that
      chose a common structure are not both left unpaired. */
  lemma {:induction false} AssignMaximal(choices: Choices, a: Team, b: Team, s: Structure)
    requires DistinctKeys(choices)
    requires a != b
    requires s in Get(choices, a) && s in Get(choices, b)
    ensures Occurrences(AssignPairs(choices), a) == 1 || Occurrences(AssignPairs(choices), b) == 1
  {
    var idx := InvertDictionary(choices);
    AssignValid(choices);
    var final := Assign(choices).final;
    assert Booked(final) && NoneQualify(idx, 0, final.paired);
    ChoiceIsCandidate(choices, s, a);
    ChoiceIsCandidate(choices, s, b);
    GetFound(idx, s);
    var i :| 0 <= i < |idx| && idx[i].0 == s && Get(idx, s) == idx[i].1;
    CombinationOfTwo(idx[i].1, a, b);
    StalledMaximal(idx, final, i, a, b);
  }

  /** A sequence holding `x` at least twice holds it at two positions. */
  lemma {:induction false} TwiceAt<T>(s: seq<T>, x: T) returns (i: nat, j: nat)
    requires multiset(s)[x] >= 2
    ensures i < j < |s| && s[i] == x && s[j] == x
  {
    assert s == [s[0]] + s[1..];
    if s[0] == x {
      assert x in multiset(s[1..]);
      var j' :| 0 <= j' < |s[1..]| && s[1..][j'] == x;
      i, j := 0, j' + 1;
    } else {
      var i', j' := TwiceAt(s[1..], x);
      i, j := i' + 1, j' + 1;
    }
  }

  /** A team that chose structure `s` twice can be paired with itself, so the
      result never leaves it unpaired. */
  lemma {:induction false} AssignMaximalSelf(choices: Choices, a: Team, s: Structure)
    requires DistinctKeys(choices)
    requires multiset(Get(choices, a))[s] >= 2
    ensures Occurrences(AssignPairs(choices), a) == 1
  {
    var idx := InvertDictionary(choices);
    AssignValid(choices);
    var final := Assign(choices).final;
    assert Booked(final) && NoneQualify(idx, 0, final.paired);
    InvertCounts(choices, s, a);
    ChoiceIsCandidate(choices, s, a);
    GetFound(idx, s);
    var i :| 0 <= i < |idx| && idx[i].0 == s && Get(idx, s) == idx[i].1;
    var x, y := TwiceAt(idx[i].1, a);
    CombinationAt(idx[i].1, x, y);
    StalledMaximal(idx, final, i, a, a);
  }

  /** The loop ends after at most one pairing round per team, and after at
      most one per two teams when no team names a structure twice. */
  lemma AssignRoundsBound(choices: Choices)
    ensures Assign(choices).rounds <= |choices|
    ensures DistinctKeys(choices) && (forall i :: 0 <= i < |choices| ==> NoDup(choices[i].1))
        ==> 2 * Assign(choices).rounds <= |choices|
  {
    var idx := InvertDictionary(choices);
    TeamsOfInverted(choices);
    SetOfSeqCard(Keys(choices));
    SubsetCard(TeamsOf(idx), set t | t in Keys(choices));
    if DistinctKeys(choices) && (forall i :: 0 <= i < |choices| ==> NoDup(choices[i].1)) {
      InvertedNoDupLists(choices);
    }
  }

  /** The result is a dict whose every structure has at least one pair; a
      team is paired exactly when it is in one pair, and when no team names a
      structure twice the paired teams are twice the pairs. */
  lemma AssignShape(choices: Choices, t: Team)
    ensures DistinctKeys(AssignPairs(choices)) && NonEmptyLists(AssignPairs(choices))
    ensures t in Assign(choices).final.paired <==> Occurrences(AssignPairs(choices), t) == 1
    ensures DistinctKeys(choices) && (forall i :: 0 <= i < |choices| ==> NoDup(choices[i].1))
        ==> |Assign(choices).final.paired| == 2 * Size(AssignPairs(choices))
  {
    AssignValid(choices);
    if DistinctKeys(choices) && (forall i :: 0 <= i < |choices| ==> NoDup(choices[i].1)) {
      InvertedNoDupLists(choices);
    }
  }
}
