/** The best-of-N search of `assign_groups` in group-shuffle-gpt.py. Each
    attempt shuffles the present students, cuts the shuffled list into
    consecutive slices whose sizes follow the plan, scores the result and keeps
    the first candidate with a strictly lower score, stopping at score 0.

    `random.shuffle` is not modelled: the order produced by attempt k is
    `orders[k]`, an arbitrary permutation of the present students. */
module RandomAssigner {
  import opened Basics
  import opened SizePlanner
  import opened ConflictScorer

  /** `best_score` of the search: `float('inf')` before any candidate. */
  datatype Cost = Infinite | Finite(value: int)

  /** Cut `order` into consecutive slices of the given sizes; like Python's
      slicing, a slice that runs past the end is cut short. */
  function Slices(order: seq<RosterId>, sizes: seq<nat>): (groups: seq<seq<RosterId>>)
    ensures |groups| == |sizes|
  {
    if sizes == [] then []
    else
      var k := if sizes[0] <= |order| then sizes[0] else |order|;
      [order[..k]] + Slices(order[k..], sizes[1..])
  }

  /** The score of the candidate that an attempt with this order builds. */
  function CandidateScore(order: seq<RosterId>, plan: seq<nat>, weights: PairWeights): int
  {
    TotalScore(Slices(order, plan), weights)
  }

  /** The groups have the planned sizes, in order, and hold exactly the
      students (counted with multiplicity). */
  ghost predicate IsPartition(assignment: seq<seq<RosterId>>, students: seq<RosterId>, plan: seq<nat>)
  {
    && |assignment| == |plan|
    && (forall i :: 0 <= i < |plan| ==> |assignment[i]| == plan[i])
    && multiset(Flatten(assignment)) == multiset(students)
  }

  /** Every order that an attempt may draw is a permutation of the students. */
  ghost predicate Shuffles(orders: seq<seq<RosterId>>, students: seq<RosterId>)
  {
    forall k :: 0 <= k < |orders| ==> multiset(orders[k]) == multiset(students)
  }

  /** When the sizes fit, the slices have exactly the planned sizes and,
      concatenated, give back the first Sum(sizes) students of the order. */
  lemma {:induction false} SlicesShape(order: seq<RosterId>, sizes: seq<nat>)
    requires Sum(sizes) <= |order|
    ensures |Slices(order, sizes)| == |sizes|
    ensures forall i :: 0 <= i < |sizes| ==> |Slices(order, sizes)[i]| == sizes[i]
    ensures Flatten(Slices(order, sizes)) == order[..Sum(sizes)]
  {
    if sizes != [] {
      var k := sizes[0];
      var rest := Slices(order[k..], sizes[1..]);
      SlicesShape(order[k..], sizes[1..]);
      assert Slices(order, sizes) == [order[..k]] + rest;
      assert Flatten(Slices(order, sizes)) == order[..k] + Flatten(rest) by {
        assert ([order[..k]] + rest)[1..] == rest;
      }
      assert order[..k] + order[k..][..Sum(sizes[1..])] == order[..Sum(sizes)];
    }
  }

  /** The inner loop of `assign_groups`: take `students[start:start+size]` for
      each planned size, giving up (`valid = False`) when a size does not fit
      any more. */
  method SliceByPlan(students: seq<RosterId>, sizes: seq<nat>) returns (assignment: seq<seq<RosterId>>, valid: bool)
    ensures valid <==> Sum(sizes) <= |students|
    ensures valid ==> assignment == Slices(students, sizes)
  {
    var n := |students|;
    assignment := [];
    var start := 0;
    valid := true;
    for k := 0 to |sizes|
      invariant start + Sum(sizes[k..]) == Sum(sizes)
      invariant start <= n
      invariant Sum(sizes) <= n ==> assignment + Slices(students[start..], sizes[k..]) == Slices(students, sizes)
    {
      var size := sizes[k];
      assert sizes[k..][1..] == sizes[k + 1..];
      if start + size <= n {
        var group := students[start..start + size];
        assert students[start..][..size] == group;
        assert students[start..][size..] == students[start + size..];
        assignment := assignment + [group];
        start := start + size;
      } else {
        valid := false;
        break;
      }
    }
  }

  /** The attempt loop of `assign_groups` (`for attempt in range(max_attempts)`),
      for a plan that every order fits exactly. The ghost results name the
      number of attempts made (`examined`) and the attempt whose candidate was
      kept (`winner`). */
  method SearchAttempts(plan: seq<nat>, pastPairings: PairWeights, maxAttempts: nat, orders: seq<seq<RosterId>>)
    returns (bestAssignment: Option<seq<seq<RosterId>>>, bestScore: Cost, ghost examined: nat, ghost winner: nat)
    requires maxAttempts <= |orders|
    requires forall k :: 0 <= k < |orders| ==> |orders[k]| == Sum(plan)
    ensures maxAttempts == 0 ==> bestAssignment == None && bestScore == Infinite
    ensures maxAttempts > 0 ==>
              && bestAssignment.Some? && bestScore.Finite?
              && winner < examined <= maxAttempts
              && bestAssignment.value == Slices(orders[winner], plan)
              && bestScore.value == TotalScore(bestAssignment.value, pastPairings)
    ensures maxAttempts > 0 ==>
              forall j :: 0 <= j < winner ==> bestScore.value < CandidateScore(orders[j], plan, pastPairings)
    ensures maxAttempts > 0 ==>
              forall j :: winner <= j < examined ==> bestScore.value <= CandidateScore(orders[j], plan, pastPairings)
    ensures maxAttempts > 0 ==>
              && (examined < maxAttempts ==> bestScore.value == 0)
              && (bestScore.value == 0 ==> examined == winner + 1)
  {
    examined, winner := 0, 0;
    bestAssignment, bestScore := None, Infinite;
    for attempt := 0 to maxAttempts
      invariant examined == attempt
      invariant attempt == 0 ==> bestAssignment == None && bestScore == Infinite
      invariant attempt > 0 ==>
                  && bestAssignment.Some? && bestScore.Finite?
                  && winner < attempt
                  && bestAssignment.value == Slices(orders[winner], plan)
                  && bestScore.value == TotalScore(bestAssignment.value, pastPairings)
                  && bestScore.value != 0
      invariant attempt > 0 ==>
                  forall j :: 0 <= j < winner ==> bestScore.value < CandidateScore(orders[j], plan, pastPairings)
      invariant attempt > 0 ==>
                  forall j :: winner <= j < attempt ==> bestScore.value <= CandidateScore(orders[j], plan, pastPairings)
    {
      // attempt k takes order k
      var students := orders[attempt];
      examined := attempt + 1;
      var assignment, valid := SliceByPlan(students, plan);
      if valid {
        var totalScore := AssignmentScore(assignment, pastPairings);
        if bestScore.Infinite? || totalScore < bestScore.value {
          bestAssignment, bestScore, winner := Some(assignment), Finite(totalScore), attempt;
          if totalScore == 0 {
            break;
          }
        }
      }
    }
  }

  /** `assign_groups(present_students, past_pairings, max_attempts)`: plan the
      sizes, give up with `(None, None)` when there is no plan, else search. */
  method AssignGroups(presentStudents: seq<RosterId>, pastPairings: PairWeights, maxAttempts: nat,
                      orders: seq<seq<RosterId>>)
    returns (bestAssignment: Option<seq<seq<RosterId>>>, bestScore: Option<Cost>, ghost examined: nat, ghost winner: nat)
    requires maxAttempts <= |orders|
    requires Shuffles(orders, presentStudents)
    // (None, None) exactly when there is no plan
    ensures Plan(|presentStudents|) == [] <==> bestAssignment == None && bestScore == None
    // (None, inf) when no attempt is made
    ensures Plan(|presentStudents|) != [] && maxAttempts == 0 ==>
              bestAssignment == None && bestScore == Some(Infinite)
    // otherwise the kept candidate is a partition of the students along the
    // plan, cut from one attempt's order, with its own score
    ensures Plan(|presentStudents|) != [] && maxAttempts > 0 ==>
              && bestAssignment.Some? && bestScore.Some? && bestScore.value.Finite?
              && winner < examined <= maxAttempts
              && bestAssignment.value == Slices(orders[winner], Plan(|presentStudents|))
              && IsPartition(bestAssignment.value, presentStudents, Plan(|presentStudents|))
              && bestScore.value.value == TotalScore(bestAssignment.value, pastPairings)
    // every earlier attempt scored strictly higher: the first minimum wins
    ensures Plan(|presentStudents|) != [] && maxAttempts > 0 ==>
              forall j :: 0 <= j < winner ==>
                bestScore.value.value < CandidateScore(orders[j], Plan(|presentStudents|), pastPairings)
    // no attempt made after the winner did better
    ensures Plan(|presentStudents|) != [] && maxAttempts > 0 ==>
              forall j :: winner <= j < examined ==>
                bestScore.value.value <= CandidateScore(orders[j], Plan(|presentStudents|), pastPairings)
    // the search stops early only on a zero score, and at once
    ensures Plan(|presentStudents|) != [] && maxAttempts > 0 ==>
              && (examined < maxAttempts ==> bestScore.value.value == 0)
              && (bestScore.value.value == 0 ==> examined == winner + 1)
    // with non-negative weights the kept candidate is the least of all attempts
    ensures Plan(|presentStudents|) != [] && maxAttempts > 0 && NonNegative(pastPairings) ==>
              forall j :: 0 <= j < maxAttempts ==>
                bestScore.value.value <= CandidateScore(orders[j], Plan(|presentStudents|), pastPairings)
    // with no history the first attempt is kept and the search stops
    ensures Plan(|presentStudents|) != [] && maxAttempts > 0 && AllZero(pastPairings) ==>
              examined == 1 && winner == 0 && bestScore == Some(Finite(0))
  {
    var n := |presentStudents|;
    var idealSizes := InitialGroupStructure(n);
    if idealSizes != [] {
      PlanIsLeastFours(n);
    }
    if idealSizes == [] || Sum(idealSizes) != n {
      return None, None, 0, 0;
    }
    assert forall k :: 0 <= k < |orders| ==> |orders[k]| == |multiset(orders[k])| == n;
    var score;
    bestAssignment, score, examined, winner := SearchAttempts(idealSizes, pastPairings, maxAttempts, orders);
    bestScore := Some(score);
    if maxAttempts > 0 {
      PartitionOfSlices(orders[winner], presentStudents, idealSizes);
      if NonNegative(pastPairings) {
        forall j | 0 <= j < maxAttempts
          ensures score.value <= CandidateScore(orders[j], idealSizes, pastPairings)
        {
          TotalScoreNonNegative(Slices(orders[j], idealSizes), pastPairings);
        }
      }
      if AllZero(pastPairings) {
        TotalScoreOfZeroWeights(bestAssignment.value, pastPairings);
        TotalScoreOfZeroWeights(Slices(orders[0], idealSizes), pastPairings);
      }
    }
  }

  /** Slicing a permutation of the students along sizes that add up to
      their number yields a partition. */
  lemma PartitionOfSlices(order: seq<RosterId>, students: seq<RosterId>, plan: seq<nat>)
    requires multiset(order) == multiset(students)
    requires Sum(plan) == |students|
    ensures IsPartition(Slices(order, plan), students, plan)
  {
    assert |order| == |multiset(order)| == |students|;
    SlicesShape(order, plan);
    assert order[..|order|] == order;
  }

  /** For distinct students, a partition puts every student in exactly one
      group and puts nobody else in any group. */
  lemma PartitionPlacesEachStudentOnce(assignment: seq<seq<RosterId>>, students: seq<RosterId>, plan: seq<nat>)
    requires IsPartition(assignment, students, plan)
    requires NoDuplicates(students)
    ensures forall x :: x in students <==> exists i :: 0 <= i < |assignment| && x in assignment[i]
    ensures forall i, j, x :: 0 <= i < j < |assignment| && x in assignment[i] ==> x !in assignment[j]
    ensures forall i :: 0 <= i < |assignment| ==> NoDuplicates(assignment[i])
  {
    assert NoDuplicates(Flatten(assignment)) by {
      forall x ensures multiset(Flatten(assignment))[x] <= 1 {
        assert multiset(students)[x] <= 1;
      }
    }
    FlattenDisjoint(assignment);
    forall x ensures x in students <==> exists i :: 0 <= i < |assignment| && x in assignment[i] {
      FlattenMember(assignment, x);
      assert x in students <==> x in multiset(students);
      assert x in Flatten(assignment) <==> x in multiset(Flatten(assignment));
    }
  }
}
