/** Pair history: `compute_past_pairings` in group-shuffle-gpt.py. The
    history is every column after Roster and Name. In each column that is not
    all 'x', every value is a group; every two students of a group count one
    more past pairing.

    A column is given as its rows, each the student's roster number and the
    column's cell for that student (a group name, the absence marker 'x', or
    nothing). The pandas operations on it are modelled by functions. */
module PairHistory {
  import opened Basics
  import opened ConflictScorer

  /** A cell of a history column: NaN or a string. */
  datatype Cell = Blank | Text(value: string)

  /** One row of a column. */
  datatype Row = Row(roster: RosterId, cell: Cell)

  type Column = seq<Row>

  /** The cell value that marks a student as absent. */
  const AbsenceMark: string := "x"

  /** `df[col].dropna().isin(['x']).all()`: every non-null cell is 'x'
      (also true of a column holding no value at all). */
  function AbsenceOnly(col: Column): (skip: bool)
    ensures skip <==> forall v :: v in UniqueValues(col) ==> v == AbsenceMark
    ensures UniqueValues(col) == [] ==> skip
  {
    AllMarksIff(col);
    forall k :: 0 <= k < |col| && col[k].cell.Text? ==> col[k].cell.value == AbsenceMark
  }

  /** Every non-null cell is 'x' exactly when every distinct value is. */
  lemma AllMarksIff(col: Column)
    ensures (forall k :: 0 <= k < |col| && col[k].cell.Text? ==> col[k].cell.value == AbsenceMark)
            <==> (forall v :: v in UniqueValues(col) ==> v == AbsenceMark)
  {
    forall k | 0 <= k < |col| && col[k].cell.Text?
      ensures col[k].cell.value in UniqueValues(col)
    {
      assert col[k].cell == Text(col[k].cell.value);
    }
  }

  /** `df[col].dropna().unique()`: the distinct values of the column, in the
      order they first appear. */
  function UniqueValues(col: Column): (values: seq<string>)
    ensures NoDuplicates(values)
    ensures forall v :: v in values <==> exists k :: 0 <= k < |col| && col[k].cell == Text(v)
  {
    if col == [] then []
    else
      var prefix := UniqueValues(col[..|col| - 1]);
      var last := col[|col| - 1].cell;
      assert forall k :: 0 <= k < |col| - 1 ==> col[..|col| - 1][k] == col[k];
      if last.Text? && last.value !in prefix then
        assert multiset(prefix + [last.value]) == multiset(prefix) + multiset{last.value};
        prefix + [last.value]
      else prefix
  }

  /** `df[df[col] == group]['Roster'].tolist()`: the students whose cell is
      the given value, in row order. */
  function Members(col: Column, v: string): (rosters: seq<RosterId>)
    ensures forall r :: r in rosters <==> exists k :: 0 <= k < |col| && col[k] == Row(r, Text(v))
  {
    if col == [] then []
    else
      assert forall k :: 1 <= k < |col| ==> col[k] == col[1..][k - 1];
      (if col[0].cell == Text(v) then [col[0].roster] else []) + Members(col[1..], v)
  }

  /** The roster numbers of a column, in row order. */
  function Rosters(col: Column): (rosters: seq<RosterId>)
    ensures |rosters| == |col|
    ensures forall k :: 0 <= k < |col| ==> rosters[k] == col[k].roster
  {
    if col == [] then [] else [col[0].roster] + Rosters(col[1..])
  }

  /** The cell of student r: that of the first row for r, Blank when the
      column has no row for r. */
  function CellOf(col: Column, r: RosterId): (cell: Cell)
    ensures cell.Text? ==> exists k :: 0 <= k < |col| && col[k] == Row(r, cell)
  {
    if col == [] then Blank
    else if col[0].roster == r then col[0].cell
    else
      assert forall k :: 0 <= k < |col| - 1 ==> col[1..][k] == col[k + 1];
      CellOf(col[1..], r)
  }

  /** No two rows of a column belong to the same student. */
  ghost predicate DistinctRosters(col: Column)
  {
    NoDuplicates(Rosters(col))
  }

  /** Every column of the history has one row per student. */
  ghost predicate WellFormed(history: seq<Column>)
  {
    forall c :: 0 <= c < |history| ==> DistinctRosters(history[c])
  }

  /** In this column a and b carry the same label. */
  predicate SharedLabel(col: Column, a: RosterId, b: RosterId)
  {
    CellOf(col, a).Text? && CellOf(col, a) == CellOf(col, b)
  }

  /** Reference count: the columns, other than those of absence marks only,
      in which a and b carry the same label. */
  function SharedColumns(history: seq<Column>, a: RosterId, b: RosterId): nat
  {
    if history == [] then 0
    else (if !AbsenceOnly(history[0]) && SharedLabel(history[0], a, b) then 1 else 0)
         + SharedColumns(history[1..], a, b)
  }

  /** How many of the pairs a, others[j] have the given key. */
  function PartnerHits(a: RosterId, others: seq<RosterId>, key: PairKey): nat
  {
    if others == [] then 0 else (if {a, others[0]} == key then 1 else 0) + PartnerHits(a, others[1..], key)
  }

  /** How many pairs of `itertools.combinations(group, 2)` have the given key. */
  function GroupHits(group: seq<RosterId>, key: PairKey): nat
  {
    if group == [] then 0 else PartnerHits(group[0], group[1..], key) + GroupHits(group[1..], key)
  }

  /** The pairs with the given key, over the groups of the given values of one column. */
  function ValuesHits(col: Column, values: seq<string>, key: PairKey): nat
  {
    if values == [] then 0 else GroupHits(Members(col, values[0]), key) + ValuesHits(col, values[1..], key)
  }

  /** What one column adds to the count of a pair: nothing for a column of
      absence marks, else the pairs of every group of the column. */
  function ColumnHits(col: Column, key: PairKey): nat
  {
    if AbsenceOnly(col) then 0 else ValuesHits(col, UniqueValues(col), key)
  }

  /** What the whole history adds to the count of a pair. */
  function HistoryHits(history: seq<Column>, key: PairKey): nat
  {
    if history == [] then 0 else ColumnHits(history[0], key) + HistoryHits(history[1..], key)
  }

  /** `pairings[key] += 1` on a defaultdict: a missing key starts at 0. */
  function Increment(pairings: PairWeights, key: PairKey): (updated: PairWeights)
    ensures forall k :: Get(updated, k) == Get(pairings, k) + (if k == key then 1 else 0)
    ensures forall k :: k in updated <==> k in pairings || k == key
  {
    pairings[key := Get(pairings, key) + 1]
  }

  /** The innermost loop of `compute_past_pairings`: one more pairing for
      every pair of the group. Only the pairs it touches gain an entry. */
  method AddGroupPairs(pairings: PairWeights, studentsInGroup: seq<RosterId>) returns (updated: PairWeights)
    ensures forall key :: Get(updated, key) == Get(pairings, key) + GroupHits(studentsInGroup, key)
    ensures forall key :: key in updated <==> key in pairings || GroupHits(studentsInGroup, key) > 0
  {
    var group := studentsInGroup;
    updated := pairings;
    for i := 0 to |group|
      invariant forall key :: Get(updated, key) + GroupHits(group[i..], key) == Get(pairings, key) + GroupHits(group, key)
      invariant forall key :: key in updated <==> key in pairings || Get(updated, key) > Get(pairings, key)
    {
      assert group[i..][1..] == group[i + 1..];
      for j := i + 1 to |group|
        invariant forall key :: Get(updated, key) + PartnerHits(group[i], group[j..], key) + GroupHits(group[i + 1..], key)
                                == Get(pairings, key) + GroupHits(group, key)
        invariant forall key :: key in updated <==> key in pairings || Get(updated, key) > Get(pairings, key)
      {
        assert group[j..][1..] == group[j + 1..];
        updated := Increment(updated, {group[i], group[j]});
      }
    }
  }

  /** The loop over the groups of one column. */
  method AddColumnPairings(pairings: PairWeights, col: Column, groups: seq<string>) returns (updated: PairWeights)
    ensures forall key :: Get(updated, key) == Get(pairings, key) + ValuesHits(col, groups, key)
    ensures forall key :: key in updated <==> key in pairings || ValuesHits(col, groups, key) > 0
  {
    updated := pairings;
    for g := 0 to |groups|
      invariant forall key :: Get(updated, key) + ValuesHits(col, groups[g..], key) == Get(pairings, key) + ValuesHits(col, groups, key)
      invariant forall key :: key in updated <==> key in pairings || Get(updated, key) > Get(pairings, key)
    {
      assert groups[g..][1..] == groups[g + 1..];
      var studentsInGroup := Members(col, groups[g]);
      updated := AddGroupPairs(updated, studentsInGroup);
    }
  }

  /** `compute_past_pairings(df)`: the defaultdict of pair counts. A pair has
      an entry exactly when it was counted at least once. */
  method ComputePastPairings(history: seq<Column>) returns (pairings: PairWeights)
    ensures forall key :: Get(pairings, key) == HistoryHits(history, key)
    ensures forall key :: key in pairings <==> HistoryHits(history, key) > 0
    ensures NonNegative(pairings)
  {
    pairings := map[];
    for c := 0 to |history|
      invariant forall key :: Get(pairings, key) + HistoryHits(history[c..], key) == HistoryHits(history, key)
      invariant forall key :: key in pairings ==> pairings[key] > 0
    {
      var col := history[c];
      assert history[c..][1..] == history[c + 1..];
      if !AbsenceOnly(col) {
        var groups := UniqueValues(col);
        ghost var before := pairings;
        pairings := AddColumnPairings(pairings, col, groups);
        forall key | key in pairings ensures pairings[key] > 0 {
          assert Get(pairings, key) == pairings[key];
          if key in before {
            assert Get(before, key) == before[key];
          }
        }
      }
    }
  }

  /** Two distinct students form the key {a, b} in either order, and only so. */
  lemma PairKeyIff(x: RosterId, y: RosterId, a: RosterId, b: RosterId)
    requires a != b
    ensures {x, y} == {a, b} <==> (x == a && y == b) || (x == b && y == a)
  {
    if {x, y} == {a, b} {
      assert a in {x, y} && b in {x, y};
      assert x in {a, b} && y in {a, b};
    }
  }

  lemma {:induction false} PartnerHitsPair(x: RosterId, others: seq<RosterId>, a: RosterId, b: RosterId)
    requires a != b && x !in others && NoDuplicates(others)
    ensures PartnerHits(x, others, {a, b}) == if (x == a && b in others) || (x == b && a in others) then 1 else 0
  {
    if others != [] {
      var y, rest := others[0], others[1..];
      NoDuplicatesTail(others);
      assert others == [y] + rest;
      PairKeyIff(x, y, a, b);
      PartnerHitsPair(x, rest, a, b);
    }
  }

  /** In a group without duplicates, the pair of two distinct students is
      counted once if both are in the group and not at all otherwise. */
  lemma {:induction false} GroupHitsPair(group: seq<RosterId>, a: RosterId, b: RosterId)
    requires a != b && NoDuplicates(group)
    ensures GroupHits(group, {a, b}) == if a in group && b in group then 1 else 0
  {
    if group != [] {
      var x, rest := group[0], group[1..];
      NoDuplicatesTail(group);
      assert group == [x] + rest;
      PartnerHitsPair(x, rest, a, b);
      GroupHitsPair(rest, a, b);
    }
  }

  lemma {:induction false} PartnerHitsSelf(x: RosterId, others: seq<RosterId>, a: RosterId)
    requires x !in others
    ensures PartnerHits(x, others, {a}) == 0
  {
    if others != [] {
      assert {x, others[0]} != {a} by {
        assert x in {x, others[0]} && others[0] in {x, others[0]};
      }
      PartnerHitsSelf(x, others[1..], a);
    }
  }

  /** A group without duplicates never pairs a student with themselves. */
  lemma {:induction false} GroupHitsSelf(group: seq<RosterId>, a: RosterId)
    requires NoDuplicates(group)
    ensures GroupHits(group, {a}) == 0
  {
    if group != [] {
      NoDuplicatesTail(group);
      PartnerHitsSelf(group[0], group[1..], a);
      GroupHitsSelf(group[1..], a);
    }
  }

  /** Every member of a group has a row in the column. */
  lemma MemberHasRow(col: Column, v: string, r: RosterId)
    ensures r in Members(col, v) ==> r in Rosters(col)
  {
    if r in Members(col, v) {
      var k :| 0 <= k < |col| && col[k] == Row(r, Text(v));
      assert Rosters(col)[k] == r;
    }
  }

  /** A student is in the group of value v exactly when their cell is v. */
  lemma {:induction false} InMembersIff(col: Column, v: string, r: RosterId)
    requires DistinctRosters(col)
    ensures r in Members(col, v) <==> CellOf(col, r) == Text(v)
  {
    if col != [] {
      var rest := col[1..];
      assert Rosters(col) == [col[0].roster] + Rosters(rest);
      assert Rosters(col)[1..] == Rosters(rest);
      NoDuplicatesTail(Rosters(col));
      InMembersIff(rest, v, r);
      MemberHasRow(rest, v, col[0].roster);
    }
  }

  /** `students_in_group` has no duplicates when the rows have distinct rosters. */
  lemma {:induction false} MembersNoDuplicates(col: Column, v: string)
    requires DistinctRosters(col)
    ensures NoDuplicates(Members(col, v))
  {
    if col != [] {
      var rest := col[1..];
      assert Rosters(col) == [col[0].roster] + Rosters(rest);
      assert Rosters(col)[1..] == Rosters(rest);
      NoDuplicatesTail(Rosters(col));
      MembersNoDuplicates(rest, v);
      MemberHasRow(rest, v, col[0].roster);
      if col[0].cell == Text(v) {
        NoDuplicatesCons(col[0].roster, Members(rest, v));
      }
    }
  }

  lemma {:induction false} ValuesHitsShared(col: Column, values: seq<string>, a: RosterId, b: RosterId)
    requires a != b && DistinctRosters(col) && NoDuplicates(values)
    ensures ValuesHits(col, values, {a, b}) == if SharedLabel(col, a, b) && CellOf(col, a).value in values then 1 else 0
  {
    if values != [] {
      var v, rest := values[0], values[1..];
      NoDuplicatesTail(values);
      assert values == [v] + rest;
      MembersNoDuplicates(col, v);
      GroupHitsPair(Members(col, v), a, b);
      InMembersIff(col, v, a);
      InMembersIff(col, v, b);
      ValuesHitsShared(col, rest, a, b);
    }
  }

  lemma {:induction false} ValuesHitsSelf(col: Column, values: seq<string>, a: RosterId)
    requires DistinctRosters(col)
    ensures ValuesHits(col, values, {a}) == 0
  {
    if values != [] {
      MembersNoDuplicates(col, values[0]);
      GroupHitsSelf(Members(col, values[0]), a);
      ValuesHitsSelf(col, values[1..], a);
    }
  }

  /** One column pairs two distinct students once when they carry the same
      label and the column is not one of absence marks only, else not at all. */
  lemma ColumnHitsShared(col: Column, a: RosterId, b: RosterId)
    requires a != b && DistinctRosters(col)
    ensures ColumnHits(col, {a, b}) == if !AbsenceOnly(col) && SharedLabel(col, a, b) then 1 else 0
  {
    if !AbsenceOnly(col) {
      ValuesHitsShared(col, UniqueValues(col), a, b);
    }
  }

  /** `pairings[frozenset((a, b))]` counts the history columns in which a
      and b carry the same label. */
  lemma {:induction false} HistoryHitsShared(history: seq<Column>, a: RosterId, b: RosterId)
    requires a != b && WellFormed(history)
    ensures HistoryHits(history, {a, b}) == SharedColumns(history, a, b)
  {
    if history != [] {
      ColumnHitsShared(history[0], a, b);
      HistoryHitsShared(history[1..], a, b);
    }
  }

  /** As written: the columns of two histories add up. */
  lemma {:induction false} HistoryHitsAppend(h1: seq<Column>, h2: seq<Column>, key: PairKey)
    ensures HistoryHits(h1 + h2, key) == HistoryHits(h1, key) + HistoryHits(h2, key)
  {
    if h1 == [] {
      assert h1 + h2 == h2;
    } else {
      assert (h1 + h2)[0] == h1[0];
      assert (h1 + h2)[1..] == h1[1..] + h2;
      HistoryHitsAppend(h1[1..], h2, key);
    }
  }

  /** As written: the order of the past columns does not matter; any
      rearrangement of the history gives the same counts. */
  lemma {:induction false} HistoryHitsPermutation(h1: seq<Column>, h2: seq<Column>, key: PairKey)
    requires multiset(h1) == multiset(h2)
    ensures HistoryHits(h1, key) == HistoryHits(h2, key)
  {
    SameElementsEmpty(h1, h2);
    if h1 != [] {
      var k := MatchHead(h1, h2);
      var c := h1[0];
      assert h2 == h2[..k] + ([c] + h2[k + 1..]);
      assert ([c] + h2[k + 1..])[0] == c;
      assert ([c] + h2[k + 1..])[1..] == h2[k + 1..];
      HistoryHitsPermutation(h1[1..], h2[..k] + h2[k + 1..], key);
      HistoryHitsAppend(h2[..k], [c] + h2[k + 1..], key);
      HistoryHitsAppend(h2[..k], h2[k + 1..], key);
    }
  }

  /** As written: swapping two blocks of columns changes nothing. */
  lemma HistoryHitsSwap(h1: seq<Column>, h2: seq<Column>, key: PairKey)
    ensures HistoryHits(h1 + h2, key) == HistoryHits(h2 + h1, key)
  {
    HistoryHitsAppend(h1, h2, key);
    HistoryHitsAppend(h2, h1, key);
  }

  /** No student is ever paired with themselves. */
  lemma {:induction false} HistoryHitsSelf(history: seq<Column>, a: RosterId)
    requires WellFormed(history)
    ensures HistoryHits(history, {a}) == 0
  {
    if history != [] {
      ValuesHitsSelf(history[0], UniqueValues(history[0]), a);
      HistoryHitsSelf(history[1..], a);
    }
  }

  /* The absence marker as a group. In a column that holds at least one
     group name, 'x' is one more value of `unique()`, so the students marked
     absent in that iteration are counted as a group of their own. The
     corrected count below leaves the marker out. */

  /** A column of one iteration: students 1 and 2 absent, student 3 in cedar. */
  const AbsenceExample: Column := [Row(1, Text("x")), Row(2, Text("x")), Row(3, Text("cedar"))]

  /** As written, the two absent students of the example count as paired once. */
  lemma AbsenteesPairedAsWritten()
    ensures HistoryHits([AbsenceExample], {1, 2}) == 1
  {
    AbsenceExampleShape();
    HistoryHitsShared([AbsenceExample], 1, 2);
    assert [AbsenceExample][1..] == [];
  }

  /** The facts about the example column that both counts rely on. */
  lemma AbsenceExampleShape()
    ensures WellFormed([AbsenceExample])
    ensures !AbsenceOnly(AbsenceExample)
    ensures CellOf(AbsenceExample, 1) == Text(AbsenceMark) && CellOf(AbsenceExample, 2) == Text(AbsenceMark)
  {
    AbsenceExampleRosters();
    var col := AbsenceExample;
    assert col[2].cell.Text? && col[2].cell.value != AbsenceMark;
    AbsenceExampleCells();
  }

  lemma AbsenceExampleRosters()
    ensures WellFormed([AbsenceExample])
  {
    var col := AbsenceExample;
    var rest := col[1..];
    assert rest == [Row(2, Text("x")), Row(3, Text("cedar"))];
    assert Rosters(rest[1..]) == [3];
    assert Rosters(rest) == [2, 3];
    assert Rosters(col) == [1, 2, 3];
    NoDuplicatesIffDistinct(Rosters(col));
  }

  lemma AbsenceExampleCells()
    ensures CellOf(AbsenceExample, 1) == Text(AbsenceMark) && CellOf(AbsenceExample, 2) == Text(AbsenceMark)
  {
    var col := AbsenceExample;
    assert col[1..] == [Row(2, Text("x")), Row(3, Text("cedar"))];
    assert CellOf(col[1..], 2) == Text("x");
  }

  /** The values of `unique()` without the absence marker. */
  function WithoutMark(values: seq<string>): (r: seq<string>)
    ensures forall v :: v in r <==> v in values && v != AbsenceMark
    ensures multiset(r) <= multiset(values)
  {
    if values == [] then []
    else
      assert values == [values[0]] + values[1..];
      (if values[0] == AbsenceMark then [] else [values[0]]) + WithoutMark(values[1..])
  }

  /** The group names of a column: its distinct values other than 'x'. */
  function GroupValues(col: Column): (values: seq<string>)
    ensures NoDuplicates(values)
    ensures forall v :: v in values <==> v != AbsenceMark && exists k :: 0 <= k < |col| && col[k].cell == Text(v)
  {
    var r := WithoutMark(UniqueValues(col));
    assert forall v :: multiset(r)[v] <= multiset(UniqueValues(col))[v];
    r
  }

  /** What one column adds to a pair once absentees are not a group. */
  function GroupColumnHits(col: Column, key: PairKey): nat
  {
    if AbsenceOnly(col) then 0 else ValuesHits(col, GroupValues(col), key)
  }

  function GroupHistoryHits(history: seq<Column>, key: PairKey): nat
  {
    if history == [] then 0 else GroupColumnHits(history[0], key) + GroupHistoryHits(history[1..], key)
  }

  /** In this column a and b are in the same named group. */
  predicate SharedGroup(col: Column, a: RosterId, b: RosterId)
  {
    SharedLabel(col, a, b) && CellOf(col, a).value != AbsenceMark
  }

  /** Reference count: the columns in which a and b are in the same named group. */
  function SharedGroupColumns(history: seq<Column>, a: RosterId, b: RosterId): nat
  {
    if history == [] then 0
    else (if SharedGroup(history[0], a, b) then 1 else 0) + SharedGroupColumns(history[1..], a, b)
  }

  /** `compute_past_pairings` with the absence marker left out of the groups. */
  method ComputeGroupPairings(history: seq<Column>) returns (pairings: PairWeights)
    ensures forall key :: Get(pairings, key) == GroupHistoryHits(history, key)
    ensures forall key :: key in pairings <==> GroupHistoryHits(history, key) > 0
    ensures NonNegative(pairings)
  {
    pairings := map[];
    for c := 0 to |history|
      invariant forall key :: Get(pairings, key) + GroupHistoryHits(history[c..], key) == GroupHistoryHits(history, key)
      invariant forall key :: key in pairings ==> pairings[key] > 0
    {
      var col := history[c];
      assert history[c..][1..] == history[c + 1..];
      if !AbsenceOnly(col) {
        var groups := GroupValues(col);
        ghost var before := pairings;
        pairings := AddColumnPairings(pairings, col, groups);
        forall key | key in pairings ensures pairings[key] > 0 {
          assert Get(pairings, key) == pairings[key];
          if key in before {
            assert Get(before, key) == before[key];
          }
        }
      }
    }
  }

  lemma GroupColumnHitsShared(col: Column, a: RosterId, b: RosterId)
    requires a != b && DistinctRosters(col)
    ensures GroupColumnHits(col, {a, b}) == if SharedGroup(col, a, b) then 1 else 0
  {
    if !AbsenceOnly(col) {
      ValuesHitsShared(col, GroupValues(col), a, b);
    }
  }

  /** Corrected, the count of a pair is the number of history columns in which
      both students were in the same named group; a shared 'x' never counts. */
  lemma {:induction false} GroupHistoryHitsShared(history: seq<Column>, a: RosterId, b: RosterId)
    requires a != b && WellFormed(history)
    ensures GroupHistoryHits(history, {a, b}) == SharedGroupColumns(history, a, b)
  {
    if history != [] {
      GroupColumnHitsShared(history[0], a, b);
      GroupHistoryHitsShared(history[1..], a, b);
    }
  }

  /** Corrected: the columns of two histories add up. */
  lemma {:induction false} GroupHistoryHitsAppend(h1: seq<Column>, h2: seq<Column>, key: PairKey)
    ensures GroupHistoryHits(h1 + h2, key) == GroupHistoryHits(h1, key) + GroupHistoryHits(h2, key)
  {
    if h1 == [] {
      assert h1 + h2 == h2;
    } else {
      assert (h1 + h2)[0] == h1[0];
      assert (h1 + h2)[1..] == h1[1..] + h2;
      GroupHistoryHitsAppend(h1[1..], h2, key);
    }
  }

  /** Corrected: the order of the past columns does not matter; any
      rearrangement of the history gives the same counts. */
  lemma {:induction false} GroupHistoryHitsPermutation(h1: seq<Column>, h2: seq<Column>, key: PairKey)
    requires multiset(h1) == multiset(h2)
    ensures GroupHistoryHits(h1, key) == GroupHistoryHits(h2, key)
  {
    SameElementsEmpty(h1, h2);
    if h1 != [] {
      var k := MatchHead(h1, h2);
      var c := h1[0];
      assert h2 == h2[..k] + ([c] + h2[k + 1..]);
      assert ([c] + h2[k + 1..])[0] == c;
      assert ([c] + h2[k + 1..])[1..] == h2[k + 1..];
      GroupHistoryHitsPermutation(h1[1..], h2[..k] + h2[k + 1..], key);
      GroupHistoryHitsAppend(h2[..k], [c] + h2[k + 1..], key);
      GroupHistoryHitsAppend(h2[..k], h2[k + 1..], key);
    }
  }

  /** Corrected: swapping two blocks of columns changes nothing. */
  lemma GroupHistoryHitsSwap(h1: seq<Column>, h2: seq<Column>, key: PairKey)
    ensures GroupHistoryHits(h1 + h2, key) == GroupHistoryHits(h2 + h1, key)
  {
    GroupHistoryHitsAppend(h1, h2, key);
    GroupHistoryHitsAppend(h2, h1, key);
  }

  /** Corrected, the two absent students of the example are not paired. */
  lemma AbsenteesNotPairedCorrected()
    ensures GroupHistoryHits([AbsenceExample], {1, 2}) == 0
  {
    AbsenceExampleShape();
    GroupHistoryHitsShared([AbsenceExample], 1, 2);
    assert [AbsenceExample][1..] == [];
  }
}
