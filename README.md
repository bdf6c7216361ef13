# Group shuffling, modelled in Dafny

The repository re-forms a class into small groups every session. It plans
groups of three and four for the present students. It tries many random
orders and keeps the one whose groups repeat the fewest past pairings. It
names the groups after trees. A separate report counts how often every two
students have shared a group. This project models that core:

- `SizePlanner`: `initial_group_structure`. The planning loop is proved equal
  to a closed form: n mod 3 groups of four, the rest threes. That is the
  plan with the fewest fours.
- `ConflictScorer`: `grouping_conflict_score` over a map keyed by unordered
  pairs, and the total over an assignment.
- `RandomAssigner`: `assign_groups`. The random shuffle of attempt k is the
  input `orders[k]`, which may be any permutation of the present students.
- `GroupNamer`: `GROUP_NAMES` and `assign_group_names`.
- `PairHistory`: `compute_past_pairings`. The history is every column after
  Roster and Name, whatever its header. Each such column is a sequence of
  (roster, cell) rows, and the pandas selections on it are functions.
- `GroupReport`: the matrix loop of `count_groupings`, on an `array2`.

The docstring of `initial_group_structure` says 4 students cannot be grouped.
The code returns `[4]` for them, and the model follows the code. It also
returns `[]` for 0 students, so `assign_groups` gives `(None, None)` then.

## Model

| member | source | states |
|---|---|---|
| Basics.SumRepeat | group-shuffle-gpt.py:98 | `[v] * k` adds up to v * k |
| SizePlanner.InitialGroupStructure | group-shuffle-gpt.py:85-100 | the search over y = 0 .. n // 4 returns exactly the closed-form plan, `[]` when no y fits |
| SizePlanner.PlanIsLeastFours | group-shuffle-gpt.py:93-99 | a non-empty plan sums to n, holds only 3s and 4s with every 3 before every 4, is `[3]*x + [4]*y` with 3x + 4y = n, and no solution of 3x' + 4y' = n has fewer fours |
| SizePlanner.FewestFours | group-shuffle-gpt.py:93-96 | no solution of 3x + 4y = n uses fewer than n mod 3 fours |
| SizePlanner.PlanEmptyExactly | group-shuffle-gpt.py:90-100 | the plan is empty exactly for n in {0, 1, 2, 5}, and n = 4 gives `[4]` |
| ConflictScorer.GroupingConflictScore | group-shuffle-gpt.py:102-110 | the loop returns the sum of `past_pairings.get({a, b}, 0)` over the pairs i < j of the group |
| ConflictScorer.Get | group-shuffle-gpt.py:109 | `past_pairings.get(key, 0)` is the recorded count of a present key and 0 for a missing one, so it is never negative when no count is, and 0 when every count is |
| ConflictScorer.AssignmentScore | group-shuffle-gpt.py:149 | summing the group scores gives the total score of the assignment |
| ConflictScorer.GroupScoreOfSmallGroup | group-shuffle-gpt.py:108-110 | a group of fewer than two students scores 0 |
| ConflictScorer.GroupScoreNonNegative | group-shuffle-gpt.py:107-110 | with non-negative weights a group never scores below 0 |
| ConflictScorer.TotalScoreNonNegative | group-shuffle-gpt.py:149 | with non-negative weights an assignment never scores below 0 |
| ConflictScorer.GroupScoreZeroIff | group-shuffle-gpt.py:108-109 | with non-negative weights a group scores 0 exactly when every pair in it has weight 0 |
| ConflictScorer.TotalScoreOfZeroWeights | group-shuffle-gpt.py:149 | when every recorded weight is 0, every assignment scores 0 |
| ConflictScorer.GroupScorePermutation | group-shuffle-gpt.py:108-109 | two orders of the same students give the same group score |
| RandomAssigner.SlicesShape | group-shuffle-gpt.py:137-141 | when the sizes fit, the slices have the planned sizes in order and together are the first Sum(sizes) students of the order |
| RandomAssigner.Slices | group-shuffle-gpt.py:137-141 | one slice per planned size, in the order of the plan |
| RandomAssigner.SliceByPlan | group-shuffle-gpt.py:133-144 | the slicing loop stays valid exactly when the sizes add up to at most the number of students, and then returns the consecutive slices |
| RandomAssigner.SearchAttempts | group-shuffle-gpt.py:131-154 | with no attempt the result is (None, inf). Otherwise the kept candidate is the slicing of one attempt's order and carries its own score. Every earlier attempt scored strictly more; no later attempt scored less. The loop stops early only at score 0, and then at once |
| RandomAssigner.AssignGroups | group-shuffle-gpt.py:112-155 | gives (None, None) exactly when the plan is empty, and (None, inf) with no attempts. Otherwise the result partitions the present students along the plan and carries its own score. The first least candidate wins, and with non-negative weights no attempt scores less. With all-zero weights the first attempt is kept and the search stops |
| RandomAssigner.PartitionOfSlices | group-shuffle-gpt.py:132-141 | slicing any permutation of the students along a plan that sums to their number gives a partition with the planned sizes |
| RandomAssigner.PartitionPlacesEachStudentOnce | group-shuffle-gpt.py:120-141 | for distinct students, every present student is in exactly one group and nobody else is in any group |
| GroupNamer.AssignGroupNames | group-shuffle-gpt.py:157-167 | a student is a key exactly when some group holds them; the value is the name of the last such group |
| GroupNamer.GroupName | group-shuffle-gpt.py:164 | `GROUP_NAMES[i % len(GROUP_NAMES)]` is always one of the names, and is name i for i below 11 |
| GroupNamer.LabelOfSomeIff | group-shuffle-gpt.py:163-166 | a student gets a name exactly when some group of the assignment holds them |
| GroupNamer.LabelOfDisjoint | group-shuffle-gpt.py:163-166 | when no student is in two groups, every student of group i is named `GROUP_NAMES[i % 11]` |
| GroupNamer.GroupNameCycles | group-shuffle-gpt.py:7 | there are 11 names, and groups i and i + 11 get the same one |
| GroupNamer.NameGroup | group-shuffle-gpt.py:165-166 | every roster of the group is mapped to the group name, earlier names of other students are kept, nothing else is added |
| GroupNamer.EveryStudentNamed | group-shuffle-gpt.py:157-167 | for a partition of distinct students, exactly the present students are named, each after the one group holding them |
| PairHistory.UniqueValues | group-shuffle-gpt.py:76 | the distinct non-null values of a column, without duplicates, one for each value that occurs |
| PairHistory.AbsenceOnly | group-shuffle-gpt.py:73 | a column is skipped exactly when every distinct non-null value is 'x', and so also when it has no value at all |
| PairHistory.AllMarksIff | group-shuffle-gpt.py:73 | every non-null cell is 'x' exactly when every distinct non-null value is |
| PairHistory.Members | group-shuffle-gpt.py:79 | the roster numbers of exactly the rows whose cell is the group's value |
| PairHistory.Increment | group-shuffle-gpt.py:82 | the defaultdict increment: only the given key gains one, starting from 0 when missing |
| PairHistory.AddGroupPairs | group-shuffle-gpt.py:81-82 | every pair of the group gains one pairing; a pair gains an entry exactly when it is counted |
| PairHistory.AddColumnPairings | group-shuffle-gpt.py:77-82 | the pairs of every listed group of a column are added to the counts |
| PairHistory.ComputePastPairings | group-shuffle-gpt.py:64-83 | the dictionary holds, for every key, the pairs counted over the columns that are not all 'x'; a key is present exactly when its count is positive; no count is negative |
| PairHistory.GroupHitsPair | group-shuffle-gpt.py:81-82 | in a group without duplicates, the pair of two distinct students is counted once when both are members, else never |
| PairHistory.GroupHitsSelf | group-shuffle-gpt.py:81 | a group without duplicates never pairs a student with themselves |
| PairHistory.InMembersIff | group-shuffle-gpt.py:79 | with distinct rosters, a student is in the group of value v exactly when the student's cell is v |
| PairHistory.MembersNoDuplicates | group-shuffle-gpt.py:79 | with distinct rosters, `students_in_group` has no duplicates |
| PairHistory.ValuesHitsShared | group-shuffle-gpt.py:76-82 | over distinct values, two distinct students are counted once when they share a cell whose value is listed, else never |
| PairHistory.ColumnHitsShared | group-shuffle-gpt.py:73-82 | one column counts two distinct students once when it is not all 'x' and they share a label, else never |
| PairHistory.HistoryHitsShared | group-shuffle-gpt.py:71-82 | the count of {a, b} equals the number of columns, not all 'x', in which a and b carry the same label |
| PairHistory.HistoryHitsSelf | group-shuffle-gpt.py:71-82 | no student is ever counted as paired with themselves |
| PairHistory.HistoryHitsAppend | group-shuffle-gpt.py:71-82 | the counts over two blocks of columns are the sum of the counts over each |
| PairHistory.HistoryHitsSwap | group-shuffle-gpt.py:71-82 | swapping two blocks of columns leaves every count unchanged |
| PairHistory.HistoryHitsPermutation | group-shuffle-gpt.py:71-82 | any reordering of the columns gives the same counts |
| PairHistory.AbsenteesPairedAsWritten | group-shuffle-gpt.py:73-79 | in a column with one named group, two students marked 'x' are counted as paired once |
| PairHistory.GroupValues | group-shuffle-gpt.py:76 | the distinct values of a column other than 'x', without duplicates |
| PairHistory.ComputeGroupPairings | group-shuffle-gpt.py:64-83 | with 'x' left out of the groups, every count is the corrected count; a key is present exactly when its count is positive; no count is negative |
| PairHistory.GroupHistoryHitsShared | group-shuffle-gpt.py:71-82 | corrected, the count of {a, b} is the number of columns in which a and b are in the same named group |
| PairHistory.GroupHistoryHitsAppend | group-shuffle-gpt.py:71-82 | corrected, the counts over two blocks of columns are the sum of the counts over each |
| PairHistory.GroupHistoryHitsSwap | group-shuffle-gpt.py:71-82 | corrected, swapping two blocks of columns leaves every count unchanged |
| PairHistory.GroupHistoryHitsPermutation | group-shuffle-gpt.py:71-82 | corrected, any reordering of the columns gives the same counts |
| PairHistory.AbsenteesNotPairedCorrected | group-shuffle-gpt.py:73-79 | corrected, the two students marked 'x' of the same column are not paired |
| GroupReport.NameToIndex | group-report.py:14 | every roster name is a key; its value is a position holding the name, and the last such position |
| GroupReport.AddPair | group-report.py:22-24 | cells [i][j] and [j][i] each gain one (cell [i][i] gains two) and no other cell changes |
| GroupReport.AddPartners | group-report.py:21-24 | every cell gains what the pairs group[i], group[j] with j > i add to it |
| GroupReport.AddGroup | group-report.py:20-24 | every cell gains what the pairs i < j of the group add to it |
| GroupReport.CountGroupings | group-report.py:9-24 | the matrix is new and n by n, starts at zero, ends equal to the tally of every group of every iteration, and is symmetric |
| GroupReport.TallySymmetric | group-report.py:22-24 | the tally of [p][q] equals that of [q][p] |
| GroupReport.GroupTallyPair | group-report.py:20-24 | in a group without duplicates, two distinct indices are counted once when both are members, else never |
| GroupReport.GroupTallyDiagonal | group-report.py:20-21 | a group without duplicates adds nothing to the diagonal |
| GroupReport.GroupTallyShared | group-report.py:18-24 | with distinct roster names, a group without duplicates counts cell [p][q], p != q, once when it holds both names, else never |
| GroupReport.IndicesNoDuplicates | group-report.py:14 | distinct names get distinct indices |
| GroupReport.InIndicesIff | group-report.py:14 | with distinct roster names, position p is in the indexed group exactly when name p is in the group |
| GroupReport.TallyCountsSharedGroups | group-report.py:17-24 | with distinct roster names and no name twice in a group, cell [i][j] for i != j is the number of groups, over all iterations, that hold both names |
| GroupReport.TallyDiagonal | group-report.py:17-24 | with no name twice in a group, the diagonal stays 0 |
| GroupReport.PairGridTotal | group-report.py:23-24 | one visited pair adds 2 to the total of the tally grid |
| GroupReport.GroupGridTotal | group-report.py:20-24 | a group of k members adds exactly k(k - 1) to the total of the tally grid |
| GroupReport.HistoryGridTotal | group-report.py:17-24 | the cells of the report add up to k(k - 1) summed over every group of every iteration |

## Left out

- Reading and writing the roster CSV, `main`, `update_csv_with_assignment` and every `print` are file and console effects. The present students and the history are inputs instead.
- `get_next_iteration_column` and `extract_absences_and_present` only pick a column and split the rows of a DataFrame. The present students are given directly.
- `random.shuffle` has no model. Attempt k uses the input order `orders[k]`, which may be any permutation of the present students. `AssignGroups` requires one order per attempt.
- `float('inf')` is the `Cost` value `Infinite`.
- The pandas operations of `compute_past_pairings` (`dropna`, `unique`, `isin`, row selection) are the functions `UniqueValues`, `AbsenceOnly` and `Members`. A column is its own list of rows, so two columns of one DataFrame sharing their rows is not modelled. Distinct roster numbers per column are a precondition of the lemmas, since the code does not handle duplicates.
- The `groupby(iteration)["Name"].apply(list)` of `count_groupings` is library behaviour. The groups of each iteration are given as sequences of names. As in `compute_past_pairings`, these groups include the absentees' 'x' group. Reading the CSV, choosing the iteration columns and wrapping the matrix in a DataFrame are left out.
- GroupReport.CountGroupings: does not model numpy's 64-bit wrap-around of the `int` cells, because no count here comes near it.
- GroupReport.HistoryGridTotal: states the matrix total on the tally functions, not as a sum over the array. `CountGroupings` makes every cell equal to its tally, so the two agree.
- GroupReport.PairGridTotal: states the 2 on the tally grid `PairGrid`, not as a sum over the array. `AddPair` makes every cell gain exactly its `PairHits`, so the two totals agree.
- GroupReport.GroupGridTotal: states the k(k - 1) on the tally grid `GroupGrid`, not as a sum over the array. `AddGroup` makes every cell gain exactly its `GroupTally`, so the two totals agree.
- `max_attempts` is a parameter without its default of 1000.

## Findings

| source | as written | input that shows it | evidently intended | confidence | as-written member | corrected member |
|---|---|---|---|---|---|---|
| group-shuffle-gpt.py:73-79 | Only a column whose values are all 'x' is skipped. In any other column, 'x' is one more value of `unique()`, so the students marked absent form a group and are counted as paired. | One column with rows (1, 'x'), (2, 'x'), (3, 'cedar'): `pairings[{1, 2}]` becomes 1. | 'x' marks an absence, not a group, so absent students gain no pairing and the count is 0. | medium, not executed | PairHistory.AbsenteesPairedAsWritten | PairHistory.ComputeGroupPairings |

Both `ComputePastPairings` and `ComputeGroupPairings` return non-negative
weights. `AssignGroups` accepts either one as `pastPairings`.
