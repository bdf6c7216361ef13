/** Conflict scoring: `grouping_conflict_score` in group-shuffle-gpt.py and
    the total over an assignment that `assign_groups` takes. */
module ConflictScorer {
  import opened Basics

  /** `frozenset((a, b))`: the unordered pair, so {a, b} and {b, a} are one key. */
  type PairKey = set<RosterId>

  /** How often each pair was grouped before (`past_pairings`). */
  type PairWeights = map<PairKey, int>

  /** `past_pairings.get(key, 0)`: a missing pair weighs 0, so the weight of
      any pair is non-negative when the recorded counts are, and 0 when every
      recorded count is 0. */
  function Get(weights: PairWeights, key: PairKey): (weight: int)
    ensures key in weights ==> weight == weights[key]
    ensures key !in weights ==> weight == 0
    ensures NonNegative(weights) ==> weight >= 0
    ensures AllZero(weights) ==> weight == 0
  {
    if key in weights then weights[key] else 0
  }

  /** The weight between two students. */
  function Weight(weights: PairWeights, a: RosterId, b: RosterId): int
  {
    Get(weights, {a, b})
  }

  ghost predicate NonNegative(weights: PairWeights)
  {
    forall key :: key in weights ==> weights[key] >= 0
  }

  ghost predicate AllZero(weights: PairWeights)
  {
    forall key :: key in weights ==> weights[key] == 0
  }

  /** The weights between a and each student of others. */
  function PartnerScore(a: RosterId, others: seq<RosterId>, weights: PairWeights): int
  {
    if others == [] then 0 else Weight(weights, a, others[0]) + PartnerScore(a, others[1..], weights)
  }

  /** The weights of all pairs group[i], group[j] with i < j, that is of
      `itertools.combinations(group, 2)`. */
  function GroupScore(group: seq<RosterId>, weights: PairWeights): int
  {
    if group == [] then 0 else PartnerScore(group[0], group[1..], weights) + GroupScore(group[1..], weights)
  }

  /** `sum(grouping_conflict_score(group, past_pairings) for group in assignment)`. */
  function TotalScore(assignment: seq<seq<RosterId>>, weights: PairWeights): int
  {
    if assignment == [] then 0 else GroupScore(assignment[0], weights) + TotalScore(assignment[1..], weights)
  }

  /** `grouping_conflict_score(group, past_pairings)`: accumulate the weight
      of every pair of the group. */
  method GroupingConflictScore(group: seq<RosterId>, pastPairings: PairWeights) returns (score: int)
    ensures score == GroupScore(group, pastPairings)
  {
    score := 0;
    for i := 0 to |group|
      invariant score + GroupScore(group[i..], pastPairings) == GroupScore(group, pastPairings)
    {
      assert group[i..][1..] == group[i + 1..];
      for j := i + 1 to |group|
        invariant score + PartnerScore(group[i], group[j..], pastPairings) + GroupScore(group[i + 1..], pastPairings)
                  == GroupScore(group, pastPairings)
      {
        assert group[j..][1..] == group[j + 1..];
        score := score + Weight(pastPairings, group[i], group[j]);
      }
    }
  }

  /** The total score of an assignment: `grouping_conflict_score` for each
      group, summed. */
  method AssignmentScore(assignment: seq<seq<RosterId>>, pastPairings: PairWeights) returns (total: int)
    ensures total == TotalScore(assignment, pastPairings)
  {
    total := 0;
    for k := 0 to |assignment|
      invariant total + TotalScore(assignment[k..], pastPairings) == TotalScore(assignment, pastPairings)
    {
      assert assignment[k..][1..] == assignment[k + 1..];
      var score := GroupingConflictScore(assignment[k], pastPairings);
      total := total + score;
    }
  }

  /** Groups of fewer than two students have no pair to score. */
  lemma GroupScoreOfSmallGroup(group: seq<RosterId>, weights: PairWeights)
    requires |group| < 2
    ensures GroupScore(group, weights) == 0
  {
    if group != [] {
      assert group[1..] == [];
    }
  }

  lemma {:induction false} PartnerScoreNonNegative(a: RosterId, others: seq<RosterId>, weights: PairWeights)
    requires NonNegative(weights)
    ensures PartnerScore(a, others, weights) >= 0
  {
    if others != [] {
      PartnerScoreNonNegative(a, others[1..], weights);
    }
  }

  /** With non-negative weights no score is negative. */
  lemma {:induction false} GroupScoreNonNegative(group: seq<RosterId>, weights: PairWeights)
    requires NonNegative(weights)
    ensures GroupScore(group, weights) >= 0
  {
    if group != [] {
      PartnerScoreNonNegative(group[0], group[1..], weights);
      GroupScoreNonNegative(group[1..], weights);
    }
  }

  lemma {:induction false} TotalScoreNonNegative(assignment: seq<seq<RosterId>>, weights: PairWeights)
    requires NonNegative(weights)
    ensures TotalScore(assignment, weights) >= 0
  {
    if assignment != [] {
      GroupScoreNonNegative(assignment[0], weights);
      TotalScoreNonNegative(assignment[1..], weights);
    }
  }

  lemma {:induction false} PartnerScoreZeroIff(a: RosterId, others: seq<RosterId>, weights: PairWeights)
    requires NonNegative(weights)
    ensures PartnerScore(a, others, weights) == 0 <==> forall j :: 0 <= j < |others| ==> Weight(weights, a, others[j]) == 0
  {
    if others != [] {
      PartnerScoreZeroIff(a, others[1..], weights);
      PartnerScoreNonNegative(a, others[1..], weights);
      assert forall j :: 1 <= j < |others| ==> others[j] == others[1..][j - 1];
    }
  }

  /** With non-negative weights a group scores 0 exactly when no two of its
      students were grouped before. */
  lemma {:induction false} GroupScoreZeroIff(group: seq<RosterId>, weights: PairWeights)
    requires NonNegative(weights)
    ensures GroupScore(group, weights) == 0 <==>
            forall i, j :: 0 <= i < j < |group| ==> Weight(weights, group[i], group[j]) == 0
  {
    if group != [] {
      var rest := group[1..];
      PartnerScoreZeroIff(group[0], rest, weights);
      PartnerScoreNonNegative(group[0], rest, weights);
      GroupScoreZeroIff(rest, weights);
      GroupScoreNonNegative(rest, weights);
      assert forall j :: 1 <= j < |group| ==> group[j] == rest[j - 1];
    }
  }

  /** Every assignment scores 0 when every recorded weight is 0. */
  lemma {:induction false} TotalScoreOfZeroWeights(assignment: seq<seq<RosterId>>, weights: PairWeights)
    requires AllZero(weights)
    ensures TotalScore(assignment, weights) == 0
  {
    if assignment != [] {
      var group := assignment[0];
      GroupScoreZeroIff(group, weights);
      TotalScoreOfZeroWeights(assignment[1..], weights);
    }
  }

  /** The sequence without its k-th element. */
  function RemoveAt(s: seq<RosterId>, k: nat): (r: seq<RosterId>)
    requires k < |s|
    ensures |r| == |s| - 1
    ensures forall i :: 0 <= i < k ==> r[i] == s[i]
    ensures forall i :: k <= i < |r| ==> r[i] == s[i + 1]
  {
    s[..k] + s[k + 1..]
  }

  lemma {:induction false} PartnerScoreRemoveAt(a: RosterId, others: seq<RosterId>, k: nat, weights: PairWeights)
    requires k < |others|
    ensures PartnerScore(a, others, weights)
            == Weight(weights, a, others[k]) + PartnerScore(a, RemoveAt(others, k), weights)
  {
    if k > 0 {
      var r := RemoveAt(others, k);
      PartnerScoreRemoveAt(a, others[1..], k - 1, weights);
      assert r[0] == others[0];
      assert r[1..] == RemoveAt(others[1..], k - 1);
    } else {
      assert RemoveAt(others, k) == others[1..];
    }
  }

  /** The partner score depends only on the multiset of partners. */
  lemma {:induction false} PartnerScorePermutation(a: RosterId, s: seq<RosterId>, t: seq<RosterId>, weights: PairWeights)
    requires multiset(s) == multiset(t)
    ensures PartnerScore(a, s, weights) == PartnerScore(a, t, weights)
  {
    SameElementsEmpty(s, t);
    if s != [] {
      var k := MatchHead(s, t);
      PartnerScoreRemoveAt(a, t, k, weights);
      PartnerScorePermutation(a, s[1..], RemoveAt(t, k), weights);
    }
  }

  lemma {:induction false} GroupScoreRemoveAt(group: seq<RosterId>, k: nat, weights: PairWeights)
    requires k < |group|
    ensures GroupScore(group, weights)
            == PartnerScore(group[k], RemoveAt(group, k), weights) + GroupScore(RemoveAt(group, k), weights)
  {
    if k > 0 {
      var rest := group[1..];
      var x := group[0];
      var rest' := RemoveAt(rest, k - 1);
      var r := RemoveAt(group, k);
      assert r[0] == x && r[1..] == rest';
      assert GroupScore(r, weights) == PartnerScore(x, rest', weights) + GroupScore(rest', weights);
      assert PartnerScore(group[k], r, weights) == Weight(weights, group[k], x) + PartnerScore(group[k], rest', weights);
      assert rest[k - 1] == group[k];
      GroupScoreRemoveAt(rest, k - 1, weights);
      PartnerScoreRemoveAt(x, rest, k - 1, weights);
      assert Weight(weights, x, group[k]) == Weight(weights, group[k], x) by {
        assert {x, group[k]} == {group[k], x};
      }
    } else {
      assert RemoveAt(group, k) == group[1..];
    }
  }

  /** A group's score does not depend on the order of its students: the
      group is a set of students. */
  lemma {:induction false} GroupScorePermutation(group: seq<RosterId>, other: seq<RosterId>, weights: PairWeights)
    requires multiset(group) == multiset(other)
    ensures GroupScore(group, weights) == GroupScore(other, weights)
  {
    SameElementsEmpty(group, other);
    if group != [] {
      var k := MatchHead(group, other);
      GroupScoreRemoveAt(other, k, weights);
      PartnerScorePermutation(group[0], group[1..], RemoveAt(other, k), weights);
      GroupScorePermutation(group[1..], RemoveAt(other, k), weights);
    }
  }
}
