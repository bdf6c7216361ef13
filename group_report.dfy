/** The pairing report: `count_groupings` in group-report.py. For every
    iteration, every group of that iteration adds one to the matrix cells
    [i][j] and [j][i] for every two of its members i and j, found by name.

    The groups of an iteration (what `groupby(...).apply(list)` yields) are
    given as sequences of names; the counting is stated on the same groups
    translated to matrix indices. */
module GroupReport {
  import opened Basics

  type Name = string

  /** `{name: i for i, name in enumerate(names)}`: a name that occurs twice
      keeps its last position. */
  function NameToIndex(names: seq<Name>): (index: map<Name, nat>)
    ensures forall x :: x in index <==> x in names
    ensures forall x :: x in index ==> index[x] < |names| && names[index[x]] == x
    ensures forall x, k :: x in index && index[x] < k < |names| ==> names[k] != x
  {
    if names == [] then map[]
    else
      var n := |names| - 1;
      var prefix := names[..n];
      assert names == prefix + [names[n]];
      NameToIndex(prefix)[names[n] := n]
  }

  /** Every name in these groups is a name of the roster. */
  predicate GroupsListed(names: seq<Name>, groups: seq<seq<Name>>)
  {
    forall k, x :: 0 <= k < |groups| && x in groups[k] ==> x in names
  }

  /** Every name in a group of the history is a name of the roster. */
  predicate Listed(names: seq<Name>, iterations: seq<seq<seq<Name>>>)
  {
    forall t :: 0 <= t < |iterations| ==> GroupsListed(names, iterations[t])
  }

  /** A group as the matrix indices of its members. */
  function Indices(index: map<Name, nat>, group: seq<Name>): (r: seq<nat>)
    requires forall x :: x in group ==> x in index
    ensures |r| == |group|
    ensures forall i :: 0 <= i < |group| ==> r[i] == index[group[i]]
  {
    if group == [] then [] else [index[group[0]]] + Indices(index, group[1..])
  }

  function IndexGroups(index: map<Name, nat>, groups: seq<seq<Name>>): (r: seq<seq<nat>>)
    requires forall k, x :: 0 <= k < |groups| && x in groups[k] ==> x in index
    ensures |r| == |groups|
    ensures forall k :: 0 <= k < |groups| ==> r[k] == Indices(index, groups[k])
  {
    if groups == [] then [] else [Indices(index, groups[0])] + IndexGroups(index, groups[1..])
  }

  /** The whole history, every name replaced by its roster position. */
  function IndexHistory(names: seq<Name>, iterations: seq<seq<seq<Name>>>): (r: seq<seq<seq<nat>>>)
    requires Listed(names, iterations)
    ensures |r| == |iterations|
    ensures forall t :: 0 <= t < |iterations| ==> r[t] == IndexGroups(NameToIndex(names), iterations[t])
  {
    var index := NameToIndex(names);
    seq(|iterations|, t requires 0 <= t < |iterations| => IndexGroups(index, iterations[t]))
  }

  /** What visiting the pair (x, y) adds to cell [p][q]: one for the
      increment of [x][y] and one for that of [y][x]. */
  function PairHits(x: nat, y: nat, p: nat, q: nat): nat
  {
    (if x == p && y == q then 1 else 0) + (if y == p && x == q then 1 else 0)
  }

  /** The pairs x, others[j]. */
  function PartnerTally(x: nat, others: seq<nat>, p: nat, q: nat): nat
  {
    if others == [] then 0 else PairHits(x, others[0], p, q) + PartnerTally(x, others[1..], p, q)
  }

  /** The pairs group[i], group[j] with i < j. */
  function GroupTally(group: seq<nat>, p: nat, q: nat): nat
  {
    if group == [] then 0 else PartnerTally(group[0], group[1..], p, q) + GroupTally(group[1..], p, q)
  }

  function IterationTally(groups: seq<seq<nat>>, p: nat, q: nat): nat
  {
    if groups == [] then 0 else GroupTally(groups[0], p, q) + IterationTally(groups[1..], p, q)
  }

  /** Cell [p][q] of the report for the whole history. */
  function Tally(history: seq<seq<seq<nat>>>, p: nat, q: nat): nat
  {
    if history == [] then 0 else IterationTally(history[0], p, q) + Tally(history[1..], p, q)
  }

  /** The two increments for one pair: [idx1][idx2], then [idx2][idx1]. */
  method AddPair(countMatrix: array2<int>, idx1: nat, idx2: nat)
    requires idx1 < countMatrix.Length0 && idx1 < countMatrix.Length1
    requires idx2 < countMatrix.Length0 && idx2 < countMatrix.Length1
    modifies countMatrix
    ensures forall p, q :: 0 <= p < countMatrix.Length0 && 0 <= q < countMatrix.Length1 ==>
              countMatrix[p, q] == old(countMatrix[p, q]) + PairHits(idx1, idx2, p, q)
  {
    countMatrix[idx1, idx2] := countMatrix[idx1, idx2] + 1;
    countMatrix[idx2, idx1] := countMatrix[idx2, idx1] + 1;
  }

  /** The two innermost loops of `count_groupings` for one group. */
  method AddGroup(countMatrix: array2<int>, nameToIndex: map<Name, nat>, group: seq<Name>)
    requires forall x :: x in group ==> x in nameToIndex
    requires forall x :: x in nameToIndex ==> nameToIndex[x] < countMatrix.Length0 && nameToIndex[x] < countMatrix.Length1
    modifies countMatrix
    ensures forall p, q :: 0 <= p < countMatrix.Length0 && 0 <= q < countMatrix.Length1 ==>
              countMatrix[p, q] == old(countMatrix[p, q]) + GroupTally(Indices(nameToIndex, group), p, q)
  {
    ghost var g := Indices(nameToIndex, group);
    for i := 0 to |group|
      invariant forall p, q :: 0 <= p < countMatrix.Length0 && 0 <= q < countMatrix.Length1 ==>
                  countMatrix[p, q] + GroupTally(g[i..], p, q) == old(countMatrix[p, q]) + GroupTally(g, p, q)
    {
      assert g[i..][1..] == g[i + 1..];
      AddPartners(countMatrix, nameToIndex, group, i);
    }
  }

  /** The innermost loop of `count_groupings`: the pairs group[i], group[j]
      for j > i. */
  method AddPartners(countMatrix: array2<int>, nameToIndex: map<Name, nat>, group: seq<Name>, i: nat)
    requires i < |group| && forall x :: x in group ==> x in nameToIndex
    requires forall x :: x in nameToIndex ==> nameToIndex[x] < countMatrix.Length0 && nameToIndex[x] < countMatrix.Length1
    modifies countMatrix
    ensures forall p, q :: 0 <= p < countMatrix.Length0 && 0 <= q < countMatrix.Length1 ==>
              countMatrix[p, q] == old(countMatrix[p, q]) + PartnerTally(Indices(nameToIndex, group)[i], Indices(nameToIndex, group)[i + 1..], p, q)
  {
    ghost var g := Indices(nameToIndex, group);
    for j := i + 1 to |group|
      invariant forall p, q :: 0 <= p < countMatrix.Length0 && 0 <= q < countMatrix.Length1 ==>
                  countMatrix[p, q] + PartnerTally(g[i], g[j..], p, q) == old(countMatrix[p, q]) + PartnerTally(g[i], g[i + 1..], p, q)
    {
      assert g[j..][1..] == g[j + 1..];
      var idx1, idx2 := nameToIndex[group[i]], nameToIndex[group[j]];
      AddPair(countMatrix, idx1, idx2);
    }
  }

  /** `count_groupings`: an n by n matrix of zeros, then every group of
      every iteration added in. */
  method CountGroupings(names: seq<Name>, iterations: seq<seq<seq<Name>>>) returns (countMatrix: array2<int>)
    requires Listed(names, iterations)
    ensures fresh(countMatrix)
    ensures countMatrix.Length0 == |names| && countMatrix.Length1 == |names|
    ensures forall p, q :: 0 <= p < |names| && 0 <= q < |names| ==>
              countMatrix[p, q] == Tally(IndexHistory(names, iterations), p, q)
    ensures forall p, q :: 0 <= p < |names| && 0 <= q < |names| ==> countMatrix[p, q] == countMatrix[q, p]
  {
    var numStudents := |names|;
    countMatrix := new int[numStudents, numStudents]((_, _) => 0);
    var nameToIndex := NameToIndex(names);
    ghost var history := IndexHistory(names, iterations);
    for t := 0 to |iterations|
      invariant forall p, q :: 0 <= p < numStudents && 0 <= q < numStudents ==>
                  countMatrix[p, q] + Tally(history[t..], p, q) == Tally(history, p, q)
    {
      assert history[t..][1..] == history[t + 1..];
      var groups := iterations[t];
      ghost var indexed := history[t];
      for k := 0 to |groups|
        invariant forall p, q :: 0 <= p < numStudents && 0 <= q < numStudents ==>
                    countMatrix[p, q] + IterationTally(indexed[k..], p, q) + Tally(history[t + 1..], p, q)
                    == Tally(history, p, q)
      {
        assert indexed[k..][1..] == indexed[k + 1..];
        AddGroup(countMatrix, nameToIndex, groups[k]);
      }
    }
    forall p, q | 0 <= p < numStudents && 0 <= q < numStudents
      ensures countMatrix[p, q] == countMatrix[q, p]
    {
      TallySymmetric(history, p, q);
    }
  }

  lemma {:induction false} PartnerTallySymmetric(x: nat, others: seq<nat>, p: nat, q: nat)
    ensures PartnerTally(x, others, p, q) == PartnerTally(x, others, q, p)
  {
    if others != [] {
      PartnerTallySymmetric(x, others[1..], p, q);
    }
  }

  lemma {:induction false} GroupTallySymmetric(group: seq<nat>, p: nat, q: nat)
    ensures GroupTally(group, p, q) == GroupTally(group, q, p)
  {
    if group != [] {
      PartnerTallySymmetric(group[0], group[1..], p, q);
      GroupTallySymmetric(group[1..], p, q);
    }
  }

  lemma {:induction false} IterationTallySymmetric(groups: seq<seq<nat>>, p: nat, q: nat)
    ensures IterationTally(groups, p, q) == IterationTally(groups, q, p)
  {
    if groups != [] {
      GroupTallySymmetric(groups[0], p, q);
      IterationTallySymmetric(groups[1..], p, q);
    }
  }

  /** Every increment of [i][j] comes with one of [j][i]: the report is symmetric. */
  lemma {:induction false} TallySymmetric(history: seq<seq<seq<nat>>>, p: nat, q: nat)
    ensures Tally(history, p, q) == Tally(history, q, p)
  {
    if history != [] {
      IterationTallySymmetric(history[0], p, q);
      TallySymmetric(history[1..], p, q);
    }
  }

  lemma {:induction false} PartnerTallyPair(x: nat, others: seq<nat>, p: nat, q: nat)
    requires p != q && x !in others && NoDuplicates(others)
    ensures PartnerTally(x, others, p, q) == if (x == p && q in others) || (x == q && p in others) then 1 else 0
  {
    if others != [] {
      NoDuplicatesTail(others);
      assert others == [others[0]] + others[1..];
      PartnerTallyPair(x, others[1..], p, q);
    }
  }

  /** In a group without duplicates, two distinct indices are counted once
      when both are members and not at all otherwise. */
  lemma {:induction false} GroupTallyPair(group: seq<nat>, p: nat, q: nat)
    requires p != q && NoDuplicates(group)
    ensures GroupTally(group, p, q) == if p in group && q in group then 1 else 0
  {
    if group != [] {
      NoDuplicatesTail(group);
      assert group == [group[0]] + group[1..];
      PartnerTallyPair(group[0], group[1..], p, q);
      GroupTallyPair(group[1..], p, q);
    }
  }

  lemma {:induction false} PartnerTallyDiagonal(x: nat, others: seq<nat>, p: nat)
    requires x !in others
    ensures PartnerTally(x, others, p, p) == 0
  {
    if others != [] {
      PartnerTallyDiagonal(x, others[1..], p);
    }
  }

  /** Only pairs at distinct positions are visited, so a group without
      duplicates adds nothing to the diagonal. */
  lemma {:induction false} GroupTallyDiagonal(group: seq<nat>, p: nat)
    requires NoDuplicates(group)
    ensures GroupTally(group, p, p) == 0
  {
    if group != [] {
      NoDuplicatesTail(group);
      PartnerTallyDiagonal(group[0], group[1..], p);
      GroupTallyDiagonal(group[1..], p);
    }
  }

  /** Distinct names of a group have distinct indices: `name_to_index` is
      one to one. */
  lemma IndicesNoDuplicates(names: seq<Name>, group: seq<Name>)
    requires forall x :: x in group ==> x in names
    requires NoDuplicates(group)
    ensures NoDuplicates(Indices(NameToIndex(names), group))
  {
    var index := NameToIndex(names);
    var r := Indices(index, group);
    NoDuplicatesIffDistinct(group);
    forall i, j | 0 <= i < j < |r| ensures r[i] != r[j] {
      assert names[index[group[i]]] == group[i] && names[index[group[j]]] == group[j];
    }
    NoDuplicatesIffDistinct(r);
  }

  /** When the roster has distinct names, position p is in the indexed
      group exactly when names[p] is in the group. */
  lemma InIndicesIff(names: seq<Name>, group: seq<Name>, p: nat)
    requires forall x :: x in group ==> x in names
    requires NoDuplicates(names) && p < |names|
    ensures p in Indices(NameToIndex(names), group) <==> names[p] in group
  {
    var index := NameToIndex(names);
    NoDuplicatesIffDistinct(names);
    assert names[index[names[p]]] == names[p];
    assert index[names[p]] == p;
  }

  /** How many groups of one iteration hold both a and b. */
  function GroupsWithBoth(groups: seq<seq<Name>>, a: Name, b: Name): nat
  {
    if groups == [] then 0 else (if a in groups[0] && b in groups[0] then 1 else 0) + GroupsWithBoth(groups[1..], a, b)
  }

  /** Reference count: how many groups of the whole history hold both a and b. */
  function SharedGroups(iterations: seq<seq<seq<Name>>>, a: Name, b: Name): nat
  {
    if iterations == [] then 0 else GroupsWithBoth(iterations[0], a, b) + SharedGroups(iterations[1..], a, b)
  }

  /** No name occurs twice in one group. */
  ghost predicate GroupsDistinct(iterations: seq<seq<seq<Name>>>)
  {
    forall t, k :: 0 <= t < |iterations| && 0 <= k < |iterations[t]| ==> NoDuplicates(iterations[t][k])
  }

  /** With distinct roster names, one group without duplicates counts the
      cell [p][q], p != q, once when it holds both names p and q. */
  lemma GroupTallyShared(names: seq<Name>, group: seq<Name>, p: nat, q: nat)
    requires forall x :: x in group ==> x in names
    requires NoDuplicates(group)
    requires NoDuplicates(names) && p < |names| && q < |names| && p != q
    ensures GroupTally(Indices(NameToIndex(names), group), p, q) == if names[p] in group && names[q] in group then 1 else 0
  {
    IndicesNoDuplicates(names, group);
    GroupTallyPair(Indices(NameToIndex(names), group), p, q);
    InIndicesIff(names, group, p);
    InIndicesIff(names, group, q);
  }

  lemma {:induction false} IterationTallyShared(names: seq<Name>, groups: seq<seq<Name>>, p: nat, q: nat)
    requires GroupsListed(names, groups)
    requires forall k :: 0 <= k < |groups| ==> NoDuplicates(groups[k])
    requires NoDuplicates(names) && p < |names| && q < |names| && p != q
    ensures IterationTally(IndexGroups(NameToIndex(names), groups), p, q) == GroupsWithBoth(groups, names[p], names[q])
  {
    var index := NameToIndex(names);
    if groups != [] {
      var indexed := IndexGroups(index, groups);
      assert indexed[1..] == IndexGroups(index, groups[1..]);
      GroupTallyShared(names, groups[0], p, q);
      IterationTallyShared(names, groups[1..], p, q);
    }
  }

  /** With distinct roster names and no name twice in a group, cell [i][j]
      for i != j counts the groups, over all iterations, holding both
      name i and name j. */
  lemma {:induction false} TallyCountsSharedGroups(names: seq<Name>, iterations: seq<seq<seq<Name>>>, p: nat, q: nat)
    requires Listed(names, iterations) && GroupsDistinct(iterations)
    requires NoDuplicates(names) && p < |names| && q < |names| && p != q
    ensures Tally(IndexHistory(names, iterations), p, q) == SharedGroups(iterations, names[p], names[q])
  {
    if iterations != [] {
      var history := IndexHistory(names, iterations);
      assert history[1..] == IndexHistory(names, iterations[1..]);
      IterationTallyShared(names, iterations[0], p, q);
      TallyCountsSharedGroups(names, iterations[1..], p, q);
    }
  }

  lemma {:induction false} IterationTallyDiagonal(groups: seq<seq<nat>>, p: nat)
    requires forall k :: 0 <= k < |groups| ==> NoDuplicates(groups[k])
    ensures IterationTally(groups, p, p) == 0
  {
    if groups != [] {
      GroupTallyDiagonal(groups[0], p);
      IterationTallyDiagonal(groups[1..], p);
    }
  }

  /** With no name twice in a group, the diagonal of the report stays 0. */
  lemma {:induction false} TallyDiagonal(names: seq<Name>, iterations: seq<seq<seq<Name>>>, p: nat)
    requires Listed(names, iterations) && GroupsDistinct(iterations)
    ensures Tally(IndexHistory(names, iterations), p, p) == 0
  {
    if iterations != [] {
      var history := IndexHistory(names, iterations);
      assert history[1..] == IndexHistory(names, iterations[1..]);
      forall k | 0 <= k < |history[0]| ensures NoDuplicates(history[0][k]) {
        IndicesNoDuplicates(names, iterations[0][k]);
      }
      IterationTallyDiagonal(history[0], p);
      TallyDiagonal(names, iterations[1..], p);
    }
  }

  /* The total of the report. A grid is a function of the cell [p][q];
     GridSum adds it up over a height by width matrix. */

  ghost function RowSum(f: (nat, nat) -> int, p: nat, width: nat): int
  {
    if width == 0 then 0 else RowSum(f, p, width - 1) + f(p, width - 1)
  }

  ghost function GridSum(f: (nat, nat) -> int, height: nat, width: nat): int
  {
    if height == 0 then 0 else GridSum(f, height - 1, width) + RowSum(f, height - 1, width)
  }

  /** The cell [x][y] alone. */
  ghost function PointGrid(x: nat, y: nat): (nat, nat) -> int
  {
    (p: nat, q: nat) => if p == x && q == y then 1 else 0
  }

  ghost function PairGrid(x: nat, y: nat): (nat, nat) -> int
  {
    (p: nat, q: nat) => PairHits(x, y, p, q)
  }

  ghost function PartnerGrid(x: nat, others: seq<nat>): (nat, nat) -> int
  {
    (p: nat, q: nat) => PartnerTally(x, others, p, q)
  }

  ghost function GroupGrid(group: seq<nat>): (nat, nat) -> int
  {
    (p: nat, q: nat) => GroupTally(group, p, q)
  }

  ghost function IterationGrid(groups: seq<seq<nat>>): (nat, nat) -> int
  {
    (p: nat, q: nat) => IterationTally(groups, p, q)
  }

  ghost function HistoryGrid(history: seq<seq<seq<nat>>>): (nat, nat) -> int
  {
    (p: nat, q: nat) => Tally(history, p, q)
  }

  lemma {:induction false} RowSumAdd(f: (nat, nat) -> int, g: (nat, nat) -> int, h: (nat, nat) -> int, p: nat, width: nat)
    requires forall p', q :: h(p', q) == f(p', q) + g(p', q)
    ensures RowSum(h, p, width) == RowSum(f, p, width) + RowSum(g, p, width)
  {
    if width > 0 {
      RowSumAdd(f, g, h, p, width - 1);
    }
  }

  /** Adding two grids cell by cell adds their totals. */
  lemma {:induction false} GridSumAdd(f: (nat, nat) -> int, g: (nat, nat) -> int, h: (nat, nat) -> int, height: nat, width: nat)
    requires forall p, q :: h(p, q) == f(p, q) + g(p, q)
    ensures GridSum(h, height, width) == GridSum(f, height, width) + GridSum(g, height, width)
  {
    if height > 0 {
      RowSumAdd(f, g, h, height - 1, width);
      GridSumAdd(f, g, h, height - 1, width);
    }
  }

  lemma {:induction false} RowSumZero(f: (nat, nat) -> int, p: nat, width: nat)
    requires forall p', q :: f(p', q) == 0
    ensures RowSum(f, p, width) == 0
  {
    if width > 0 {
      RowSumZero(f, p, width - 1);
    }
  }

  lemma {:induction false} GridSumZero(f: (nat, nat) -> int, height: nat, width: nat)
    requires forall p, q :: f(p, q) == 0
    ensures GridSum(f, height, width) == 0
  {
    if height > 0 {
      RowSumZero(f, height - 1, width);
      GridSumZero(f, height - 1, width);
    }
  }

  lemma {:induction false} RowSumPoint(x: nat, y: nat, p: nat, width: nat)
    ensures RowSum(PointGrid(x, y), p, width) == if p == x && y < width then 1 else 0
  {
    if width > 0 {
      RowSumPoint(x, y, p, width - 1);
    }
  }

  /** A single cell inside the matrix adds one to its total. */
  lemma {:induction false} GridSumPoint(x: nat, y: nat, height: nat, width: nat)
    requires y < width
    ensures GridSum(PointGrid(x, y), height, width) == if x < height then 1 else 0
  {
    if height > 0 {
      RowSumPoint(x, y, height - 1, width);
      GridSumPoint(x, y, height - 1, width);
    }
  }

  /** One visited pair adds 2 to the total. */
  lemma PairGridTotal(x: nat, y: nat, n: nat)
    requires x < n && y < n
    ensures GridSum(PairGrid(x, y), n, n) == 2
  {
    GridSumAdd(PointGrid(x, y), PointGrid(y, x), PairGrid(x, y), n, n);
    GridSumPoint(x, y, n, n);
    GridSumPoint(y, x, n, n);
  }

  lemma {:induction false} PartnerGridTotal(x: nat, others: seq<nat>, n: nat)
    requires x < n && forall j :: 0 <= j < |others| ==> others[j] < n
    ensures GridSum(PartnerGrid(x, others), n, n) == 2 * |others|
  {
    if others == [] {
      GridSumZero(PartnerGrid(x, others), n, n);
    } else {
      PairGridTotal(x, others[0], n);
      PartnerGridTotal(x, others[1..], n);
      GridSumAdd(PairGrid(x, others[0]), PartnerGrid(x, others[1..]), PartnerGrid(x, others), n, n);
    }
  }

  /** A group of k members, all inside the matrix, adds exactly k(k - 1)
      to its total; groups of 0 or 1 members add nothing. */
  lemma {:induction false} GroupGridTotal(group: seq<nat>, n: nat)
    requires forall i :: 0 <= i < |group| ==> group[i] < n
    ensures GridSum(GroupGrid(group), n, n) == |group| * (|group| - 1)
  {
    if group == [] {
      GridSumZero(GroupGrid(group), n, n);
    } else {
      var k := |group| - 1;
      PartnerGridTotal(group[0], group[1..], n);
      GroupGridTotal(group[1..], n);
      GridSumAdd(PartnerGrid(group[0], group[1..]), GroupGrid(group[1..]), GroupGrid(group), n, n);
      assert 2 * k + k * (k - 1) == (k + 1) * k;
    }
  }

  /** The pair slots of some groups: k(k - 1) for each group of k members. */
  function PairSlots(groups: seq<seq<Name>>): nat
  {
    if groups == [] then 0 else |groups[0]| * (|groups[0]| - 1) + PairSlots(groups[1..])
  }

  function HistorySlots(iterations: seq<seq<seq<Name>>>): nat
  {
    if iterations == [] then 0 else PairSlots(iterations[0]) + HistorySlots(iterations[1..])
  }

  lemma {:induction false} IterationGridTotal(names: seq<Name>, groups: seq<seq<Name>>)
    requires GroupsListed(names, groups)
    ensures GridSum(IterationGrid(IndexGroups(NameToIndex(names), groups)), |names|, |names|) == PairSlots(groups)
  {
    var n := |names|;
    var indexed := IndexGroups(NameToIndex(names), groups);
    if groups == [] {
      GridSumZero(IterationGrid(indexed), n, n);
    } else {
      assert indexed[1..] == IndexGroups(NameToIndex(names), groups[1..]);
      GroupGridTotal(indexed[0], n);
      IterationGridTotal(names, groups[1..]);
      GridSumAdd(GroupGrid(indexed[0]), IterationGrid(indexed[1..]), IterationGrid(indexed), n, n);
    }
  }

  /** The cells of the report add up to the sum of k(k - 1) over every
      group of every iteration. */
  lemma {:induction false} HistoryGridTotal(names: seq<Name>, iterations: seq<seq<seq<Name>>>)
    requires Listed(names, iterations)
    ensures GridSum(HistoryGrid(IndexHistory(names, iterations)), |names|, |names|) == HistorySlots(iterations)
  {
    var n := |names|;
    var history := IndexHistory(names, iterations);
    if iterations == [] {
      GridSumZero(HistoryGrid(history), n, n);
    } else {
      assert history[1..] == IndexHistory(names, iterations[1..]);
      IterationGridTotal(names, iterations[0]);
      HistoryGridTotal(names, iterations[1..]);
      GridSumAdd(IterationGrid(history[0]), HistoryGrid(history[1..]), HistoryGrid(history), n, n);
    }
  }
}
