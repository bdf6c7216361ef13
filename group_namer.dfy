/** Naming the groups: `GROUP_NAMES` and `assign_group_names` in
    group-shuffle-gpt.py. Group i is called after the tree at position
    i mod 11, and every student of the assignment is mapped to the name of
    their group. */
module GroupNamer {
  import opened Basics
  import RandomAssigner

  /** The eleven group labels, all tree names; every iteration draws on the
      same list. */
  const GroupNames: seq<string> :=
    ["cedar", "cypress", "spruce", "pine", "fir", "oak", "maple", "birch", "ash", "elm", "chestnut"]

  /** `GROUP_NAMES[i % len(GROUP_NAMES)]`. */
  function GroupName(i: nat): (name: string)
    ensures name in GroupNames
    ensures i < |GroupNames| ==> name == GroupNames[i]
  {
    GroupNames[i % |GroupNames|]
  }

  /** The name a student ends up with: that of the last group holding the
      student (a later group overwrites an earlier one), None if no group does. */
  function LabelOf(assignment: seq<seq<RosterId>>, r: RosterId): Option<string>
  {
    if assignment == [] then None
    else if r in assignment[|assignment| - 1] then Some(GroupName(|assignment| - 1))
    else LabelOf(assignment[..|assignment| - 1], r)
  }

  /** The inner loop of `assign_group_names`: every roster of the group is
      mapped to the group's name, overwriting an earlier name. */
  method NameGroup(nameMapping: map<RosterId, string>, group: seq<RosterId>, groupName: string)
    returns (updated: map<RosterId, string>)
    ensures forall r :: r in updated <==> r in nameMapping || r in group
    ensures forall r :: r in updated ==> updated[r] == if r in group then groupName else nameMapping[r]
  {
    updated := nameMapping;
    for k := 0 to |group|
      invariant forall r :: r in updated <==> r in nameMapping || r in group[..k]
      invariant forall r :: r in updated ==> updated[r] == if r in group[..k] then groupName else nameMapping[r]
    {
      assert group[..k + 1] == group[..k] + [group[k]];
      updated := updated[group[k] := groupName];
    }
    assert group[..|group|] == group;
  }

  /** `assign_group_names(assignment)`: fill `name_mapping` group by group. */
  method AssignGroupNames(assignment: seq<seq<RosterId>>) returns (nameMapping: map<RosterId, string>)
    ensures forall r :: r in nameMapping <==> LabelOf(assignment, r).Some?
    ensures forall r :: r in nameMapping ==> nameMapping[r] == LabelOf(assignment, r).value
  {
    nameMapping := map[];
    for i := 0 to |assignment|
      invariant forall r :: r in nameMapping <==> LabelOf(assignment[..i], r).Some?
      invariant forall r :: r in nameMapping ==> nameMapping[r] == LabelOf(assignment[..i], r).value
    {
      var group := assignment[i];
      var groupName := GroupName(i);
      nameMapping := NameGroup(nameMapping, group, groupName);
      assert assignment[..i + 1][..i] == assignment[..i];
    }
    assert assignment[..|assignment|] == assignment;
  }

  /** A student gets a name exactly when some group holds the student. */
  lemma {:induction false} LabelOfSomeIff(assignment: seq<seq<RosterId>>, r: RosterId)
    ensures LabelOf(assignment, r).Some? <==> exists i :: 0 <= i < |assignment| && r in assignment[i]
  {
    if assignment != [] {
      var prefix := assignment[..|assignment| - 1];
      LabelOfSomeIff(prefix, r);
      assert forall i :: 0 <= i < |prefix| ==> prefix[i] == assignment[i];
    }
  }

  /** When no student is in two groups, each student of group i is named
      `GROUP_NAMES[i % 11]`. */
  lemma {:induction false} LabelOfDisjoint(assignment: seq<seq<RosterId>>, i: nat, r: RosterId)
    requires forall i, j, x :: 0 <= i < j < |assignment| && x in assignment[i] ==> x !in assignment[j]
    requires i < |assignment| && r in assignment[i]
    ensures LabelOf(assignment, r) == Some(GroupName(i))
  {
    var last := |assignment| - 1;
    if i < last {
      assert r !in assignment[last];
      var prefix := assignment[..last];
      assert prefix[i] == assignment[i];
      LabelOfDisjoint(prefix, i, r);
    }
  }

  /** The names cycle: groups i and i + 11 share a name (groups 0 and 11 in
      particular). */
  lemma GroupNameCycles(i: nat)
    ensures |GroupNames| == 11
    ensures GroupName(i + 11) == GroupName(i)
  {
    assert |GroupNames| == 11;
    assert (i + 11) % 11 == i % 11;
  }

  /** For distinct present students and a partition of them (what
      `assign_groups` returns), every present student, and nobody else, is
      mapped to the name of the one group holding the student. */
  lemma EveryStudentNamed(assignment: seq<seq<RosterId>>, students: seq<RosterId>, plan: seq<nat>)
    requires RandomAssigner.IsPartition(assignment, students, plan)
    requires NoDuplicates(students)
    ensures forall r :: LabelOf(assignment, r).Some? <==> r in students
    ensures forall i, r :: 0 <= i < |assignment| && r in assignment[i] ==> LabelOf(assignment, r) == Some(GroupName(i))
  {
    RandomAssigner.PartitionPlacesEachStudentOnce(assignment, students, plan);
    forall r ensures LabelOf(assignment, r).Some? <==> r in students {
      LabelOfSomeIff(assignment, r);
    }
    forall i, r | 0 <= i < |assignment| && r in assignment[i]
      ensures LabelOf(assignment, r) == Some(GroupName(i))
    {
      LabelOfDisjoint(assignment, i, r);
    }
  }
}
