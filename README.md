# Group calculator — a Dafny model

A model of the group-assignment core of the GroupCalculator project. The core has two
engines that split a class of students into groups round after round:

- **`GroupCalculator`** (`calculator.dfy`, module `Calculator`). Its roster holds numbered
  or named participants. A round is formed greedily from the *distinct* participants:
  groups of exactly the group size, labelled 'A', 'B', … The leftovers are then handed out
  round-robin to the groups already formed. The round counter is raised *before* the round
  is stored.
- **`GroupDatabaseCSV`** (`csv_database.dfy`, module `CsvDatabase`). Its roster holds names
  or student records. A round cuts the shuffled roster into consecutive slices of the group
  size and keeps a shorter trailing slice as one more group. The round is stored under the
  current round number, which is then raised.
- **`Student`** (`students.dfy`, module `Students`) is the four-field record. Its constructor
  defaults missing or falsy arguments to "" and accepts only exact `str` values. It has two
  string renderings.

`groups.dfy` (module `Groups`) holds the shared vocabulary:
- the exceptions the code raises, as `Error` values inside `Result`/`Option`;
- a round as a sequence of `Group(key, members)` in label order, where `key` is the label's
  code point;
- Python's list indexing with negative indices (`At`) and Python's floor division
  (`FloorDiv`);
- the exact-cover predicate, with the lemma that turns a multiset equation into it.

Nondeterminism is a parameter or a free choice:
- **Shuffling.** `random.shuffle` is the `shuffled` argument of each `CreateGroups`, and the
  method requires it to be a permutation of the roster. Every property is proved for every
  permutation.
- **Set iteration.** The order in which a Python `set` yields its elements is a free choice
  (`:|`) inside `TakeGroup` and `DealLeftovers`.

Both `create_groups` update the objects in place. They are methods of Dafny classes whose
fields are the Python attributes. Each loop is a separate method proved against a
specification:
- for `GroupCalculator`, the predicate `IsGreedyRound`;
- for `GroupDatabaseCSV`, the function `Partition`.

The properties of those specifications are proved as lemmas. They cover exact cover,
group sizes, labels, the round trip, and the example figures from the repository's unit
tests.

Labels are kept as code points (65 = 'A'). Python's `chr` raises ValueError past
0x10FFFF, which leaves 0x10FFFF - 65 + 1 labels. The two engines reach that error
differently:
- `GroupCalculator` computes the next label after every group it forms, the last one
  included. It raises once d // k, the number of full groups, reaches the number of labels.
  With a group size of 0 or less its loop test never fails: it forms empty groups until the
  labels run out, so it always raises.
- `GroupDatabaseCSV` builds its labels before storing anything. It raises when a round
  needs more groups than there are labels.

No roster can reach that size in practice, but the error path is still written out.

## Model

| member | source | states |
|---|---|---|
| Groups.At | GroupCalculator/GroupCalculator.py:96 | `row[i]`: defined exactly when -len(row) <= i < len(row); a negative index counts from the end; otherwise IndexError (None) |
| Groups.FloorDiv | GroupCalculator/GroupCalculator.py:113 | Python `//`: the quotient q with b*q <= a < b*q + b for b > 0 and b*q + b < a <= b*q for b < 0 |
| Groups.ExactCoverOfPool | GroupCalculator/GroupCalculator.py:48-64 | a round whose members, as a multiset, are exactly a set covers the set exactly: everyone in some group, nobody else, nobody twice |
| Students.ValidateStr | GroupCalculator/Student.py:28-30 | accepts exactly a value whose type is `str` (not a subclass) and returns it unchanged; anything else is ValueError("It must be a string") |
| Students.Truthy | GroupCalculator/Student.py:12-15 | Python truthiness of an argument: falsy exactly for the empty `str`, an empty `str` subclass value and a falsy non-string |
| Students.Argument | GroupCalculator/Student.py:12-15 | `kwargs.get(key) or ""`: the empty string exactly when the key is missing or its value falsy; otherwise the value passed |
| Students.NewStudent | GroupCalculator/Student.py:12-15 | the constructor succeeds iff each of the four keyword values is missing, falsy or an exact `str`; each field is its argument or ""; any failure is the validator's ValueError |
| Students.CellsMakeStudent | GroupCalculator/GroupDatabaseCSV.py:52 | four string cells always make a student whose fields are the cells, an empty cell included |
| Students.UserNameKeyIgnored | GroupCalculator/Student.py:10-15 | a value passed as `user_name`, the key the docstring names, is ignored: every field, username included, stays "" |
| Students.NonStringArguments | GroupCalculator/Student.py:12-29 | a truthy non-string argument under any of the four keys is rejected; a falsy one defaults to "" |
| Students.ToStr | GroupCalculator/Student.py:48 | `str(student)` is the first name, one space, the last name (length and positions) |
| Students.Repr | GroupCalculator/Student.py:39 | `repr(student)` is `Student(name=…, last_name=…, email=…, username=…)`: total length and the offset of every field and separator |
| Calculator.NumberedRoster | GroupCalculator/GroupCalculator.py:29 | `list(range(1, n + 1))`: max(n, 0) entries, entry i is the number i + 1 |
| Calculator.Distinct | GroupCalculator/GroupCalculator.py:48 | `set(student_list)` holds exactly the roster's entries |
| Calculator.NumberedRosterDistinct | GroupCalculator/GroupCalculator.py:29 | the numbered roster has n distinct entries, so nothing collapses in `set(...)` |
| Calculator.ShareStep | GroupCalculator/GroupCalculator.py:63-64 | handing leftover j to group j % m raises exactly that group's round-robin share by one |
| Calculator.IsGreedyRound | GroupCalculator/GroupCalculator.py:48-64 | the round `create_groups` records: d // k groups labelled in order, exactly the distinct participants, group i of k plus its round-robin share of the leftovers; such a round holds as many members as there are distinct participants |
| Calculator.GreedyRoundCovers | GroupCalculator/GroupCalculator.py:48-64 | a greedy round holds every distinct participant exactly once, and nobody else |
| Calculator.GreedyRoundSizes | GroupCalculator/GroupCalculator.py:51-64 | with at least k distinct participants: at least one group, every group has at least k members, two groups differ by at most one, and the sizes add up to the distinct count |
| Calculator.TenInThrees | unittest/Groupcalculator.py:11-13 | 10 participants in groups of 3 give groups 'A', 'B', 'C' of sizes 4, 3, 3 |
| Calculator.Choose2 | GroupCalculator/GroupCalculator.py:114 | `math.comb(n, 2)`: twice the result is n * (n - 1) |
| Calculator.Choose2Step | GroupCalculator/GroupCalculator.py:114 | `math.comb(n, 2)` obeys Pascal's rule: comb(n, 2) = comb(n - 1, 2) + n - 1 |
| Calculator.PairsPerRound | GroupCalculator/GroupCalculator.py:113 | `(n // k) * comb(k, 2)` with Python's floor division; for 1 <= k <= n at least comb(k, 2) |
| Calculator.PairsPerRoundFit | GroupCalculator/GroupCalculator.py:113-114 | for 1 <= k <= n the pairs one round's full groups cover lie between 0 and comb(n, 2) |
| Calculator.PairsNeedFullGroup | GroupCalculator/GroupCalculator.py:113-115 | a positive pair count per round implies 1 <= k <= n (a negative group size never gives one) |
| Calculator.CanRepeatEstimate | GroupCalculator/GroupCalculator.py:107-115 | `can_repeat`: ZeroDivisionError iff k = 0; ValueError iff n < 0; otherwise a result r >= 1 with r * p <= comb(n, 2) < (r + 1) * p for p pairs per round, and r = 1 when p <= 0 |
| Calculator.CanRepeatTenInThrees | unittest/Groupcalculator.py:62-65 | 10 students in groups of 3 give 5 rounds |
| Calculator.CanRepeatSingletons | GroupCalculator/GroupCalculator.py:113-115 | groups of one cover no pair, so the estimate is 1 |
| Calculator.RowLabel | GroupCalculator/GroupCalculator.py:96 | one row's label is `row[first] + " " + row[last]`, or IndexError when either index is out of range |
| Calculator.Kept | GroupCalculator/GroupCalculator.py:97 | the comprehension's filter `len(row) > max(first, last)`: a kept row has both indices below its length, and its label fails exactly when an index is below -len(row) |
| Calculator.RowLabels | GroupCalculator/GroupCalculator.py:96-97 | the comprehension: IndexError iff some kept row has an out-of-range (negative) index; rows with too few fields are dropped; when every row is kept and labels without error, one label per row in row order, each that row's label |
| Calculator.RowLabelsAppend | GroupCalculator/GroupCalculator.py:96-97 | the labels of two blocks of rows are the first block's labels followed by the second's |
| Calculator.DataRows | GroupCalculator/GroupCalculator.py:93-94 | with `skip_header` the first row is dropped, and an empty file stays empty |
| Calculator.LoadLabels | GroupCalculator/GroupCalculator.py:93-97 | the roster read from a file's rows: only IndexError can be raised; at most one label per row, and fewer than the rows when a header is skipped |
| Calculator.SampleFileLabels | unittest/Groupcalculator.py:44-57 | a header plus "Max,Mustermann" and "Erika,Musterfrau" load as ["Max Mustermann", "Erika Musterfrau"] |
| Calculator.RowLabelIsStudentStr | GroupCalculator/GroupCalculator.py:96 | a row's label is `str` of the `Student` made from the same two cells |
| Calculator.TakeGroup | GroupCalculator/GroupCalculator.py:52-56 | the inner loop takes exactly k participants out of the set, in any order, losing or adding none |
| Calculator.FullGroupsSoFar | GroupCalculator/GroupCalculator.py:51-58 | the `while` loop's invariant: groups labelled in order, each of the same size, together with the participants left exactly the pool |
| Calculator.AppendGroup | GroupCalculator/GroupCalculator.py:52-58 | storing one more group of k under the next label keeps that invariant |
| Calculator.FormFullGroups | GroupCalculator/GroupCalculator.py:49-58 | d // k groups of exactly k labelled 'A', 'B', … and d % k left over, together exactly the pool; ValueError from `chr` iff k < 1 or d // k reaches the number of labels |
| Calculator.AddMember | GroupCalculator/GroupCalculator.py:64 | `current_groups[key].append(student)`: the named group gains the participant at its end; every label and every other group stays |
| Calculator.DealStep | GroupCalculator/GroupCalculator.py:63-64 | adding leftover i to group i % m keeps the round-robin invariant and adds exactly that participant |
| Calculator.DealLeftovers | GroupCalculator/GroupCalculator.py:60-64 | the leftover loop gives a greedy round of the pool; ZeroDivisionError iff there are leftovers but no group |
| Calculator.GroupCalculator.New | GroupCalculator/GroupCalculator.py:19-33 | ValueError iff num_students < group_size; otherwise roster 1..n, counter 1, no rounds, "," delimiter, no header skipping, columns 0 and 1 |
| Calculator.GroupCalculator.ResetGroups | GroupCalculator/GroupCalculator.py:35-38 | history empty and counter 0, so the current round is empty and the round count 0 |
| Calculator.GroupCalculator.GetCurrentGroups | GroupCalculator/GroupCalculator.py:75 | the round stored under the counter, or no groups |
| Calculator.GroupCalculator.GetRoundCount | GroupCalculator/GroupCalculator.py:83 | the counter, which CreateGroups raises by one and ResetGroups sets to 0 |
| Calculator.GroupCalculator.CanRepeat | GroupCalculator/GroupCalculator.py:107-115 | the estimate for the stored `num_students`, not the current roster length |
| Calculator.GroupCalculator.SelectFromFile | GroupCalculator/GroupCalculator.py:91-97 | the roster is replaced by the labels of the kept data rows; an IndexError leaves it unchanged |
| Calculator.GroupCalculator.CreateGroups | GroupCalculator/GroupCalculator.py:40-67 | empty roster: nothing changes; otherwise the roster is the shuffle, and ValueError iff k < 1 or too many groups to label, ZeroDivisionError iff otherwise fewer distinct participants than k; on success the counter rises by one and a greedy round of the distinct participants is stored under the new, previously unused number, other rounds untouched |
| CsvDatabase.Chunks | GroupCalculator/GroupDatabaseCSV.py:64-77 | a round by recursion: the first k members under the first label, then the round of the rest; its properties are the Chunks and Partition lemmas below |
| CsvDatabase.Partition | GroupCalculator/GroupDatabaseCSV.py:64-77 | the round `create_groups` records for the shuffled roster; it has exactly as many groups as labels needed |
| CsvDatabase.LabelsNeeded | GroupCalculator/GroupDatabaseCSV.py:64-67 | `num_groups + (1 if remainder > 0 else 0)`, the length of `group_labels` |
| CsvDatabase.LabelsNeededIsCeiling | GroupCalculator/GroupDatabaseCSV.py:64-67 | the number of labels is n / k rounded up: 0 for no students, otherwise k * (r - 1) < n <= k * r |
| CsvDatabase.ChunksCount | GroupCalculator/GroupDatabaseCSV.py:64-67 | a round has n // k groups plus one when k does not divide n |
| CsvDatabase.ChunksAt | GroupCalculator/GroupDatabaseCSV.py:70-77 | group i has label key + i and the slice `s[i*k:(i+1)*k]` |
| CsvDatabase.ChunksSizes | GroupCalculator/GroupDatabaseCSV.py:69-77 | every group of a round has between 1 and k members |
| CsvDatabase.PartitionFullGroup | GroupCalculator/GroupDatabaseCSV.py:71-73 | group i < n // k holds exactly the k members from position i * k on |
| CsvDatabase.PartitionPrefixStep | GroupCalculator/GroupDatabaseCSV.py:71-73 | the first i + 1 groups are the first i followed by the k members from position i * k on |
| CsvDatabase.PartitionLastGroup | GroupCalculator/GroupDatabaseCSV.py:76-77 | when n % k > 0 the last group holds exactly the n % k members after the full groups |
| CsvDatabase.PartitionShape | GroupCalculator/GroupDatabaseCSV.py:64-77 | labels `chr(65 + i)` in order, n // k groups of exactly k consecutive members, and one last group of n % k when that is positive |
| CsvDatabase.ChunksRoundTrip | GroupCalculator/GroupDatabaseCSV.py:69-77 | concatenating the groups in label order gives back the shuffled roster exactly |
| CsvDatabase.RoundCoversRoster | GroupCalculator/GroupDatabaseCSV.py:63-77 | the round holds the roster's entries, each as often as the roster does |
| CsvDatabase.TenInThreesSlices | GroupCalculator/GroupDatabaseCSV.py:64-77 | 10 students in groups of 3: 'A', 'B', 'C' of three consecutive students, then 'D' with the tenth alone |
| CsvDatabase.FullGroupCount | GroupCalculator/GroupDatabaseCSV.py:97-102 | `max(1, n // k)`: at least 1; for n >= k, k * r <= n < k * r + k; for n < k, 1 |
| CsvDatabase.FullGroupCountIsFullGroups | GroupCalculator/GroupDatabaseCSV.py:97-102 | with n >= k the estimate is the number of full groups a round makes, each of exactly k |
| CsvDatabase.RowStudent | GroupCalculator/GroupDatabaseCSV.py:52 | a row makes the student of its four cells, or IndexError iff a column index is out of range |
| CsvDatabase.LoadRows | GroupCalculator/GroupDatabaseCSV.py:51-53 | the students of the leading rows that convert, in order, and the IndexError of the first row that does not |
| CsvDatabase.LoadRowsComplete | GroupCalculator/GroupDatabaseCSV.py:51-53 | when every row has all four columns, every row becomes the student of its cells and nothing is raised |
| CsvDatabase.GroupDatabaseCSV.New | GroupCalculator/GroupDatabaseCSV.py:12-18 | ValueError iff group_size < 1; otherwise empty roster, no rounds, round 1 next |
| CsvDatabase.GroupDatabaseCSV.AddStudents | GroupCalculator/GroupDatabaseCSV.py:21-29 | an empty list raises ValueError and leaves the roster; any other list replaces it |
| CsvDatabase.GroupDatabaseCSV.SelectFromFile | GroupCalculator/GroupDatabaseCSV.py:47-53 | a header with an empty file raises StopIteration; otherwise the data rows' students are appended to the roster, up to the first bad row, whose IndexError is raised |
| CsvDatabase.GroupDatabaseCSV.AppendRows | GroupCalculator/GroupDatabaseCSV.py:51-53 | the loop appends the students of the leading convertible rows and reports the first row's error |
| CsvDatabase.GroupDatabaseCSV.CreateGroups | GroupCalculator/GroupDatabaseCSV.py:56-79 | empty roster: ValueError and nothing changes; otherwise the roster is the shuffle; ValueError from `chr` iff more labels than code points; on success the partition is stored under the previously unused round number, which then rises by one, and becomes the current round, other rounds untouched |
| CsvDatabase.GroupDatabaseCSV.StoreRound | GroupCalculator/GroupDatabaseCSV.py:69-77 | the writing loop stores exactly the partition of the roster under the given round number |
| CsvDatabase.GroupDatabaseCSV.GetCurrentGroups | GroupCalculator/GroupDatabaseCSV.py:84-85 | a one-entry map from current_round - 1 to that round, or to no groups when it is absent |
| CsvDatabase.GroupDatabaseCSV.GetAllGroups | GroupCalculator/GroupDatabaseCSV.py:87-88 | every recorded round |
| CsvDatabase.GroupDatabaseCSV.ResetGroup | GroupCalculator/GroupDatabaseCSV.py:90-95 | no rounds, round 1 next, and the current groups are `{0: {}}` |
| CsvDatabase.GroupDatabaseCSV.CanRepeat | GroupCalculator/GroupDatabaseCSV.py:97-102 | `max(1, len(students) // group_size)`, at least 1 |

## Left out

- The wxPython window `GroupApp` and all other GUI code. It is layout, event binding and
  message boxes.
- `GroupInterface` has abstract methods only.
- The Sphinx configuration is not part of this model.
- File I/O, CSV tokenisation and `configparser`. Each `select_from_file` takes the rows as
  already split lists of cells. `GroupDatabaseCSV.SelectFromFile` takes the header flag and
  the `[columns]` indices of `config.ini` as parameters. The delimiter only steers the
  tokeniser. Missing files, missing configuration keys and decoding errors are not modelled.
- The randomness of `random.shuffle` is not modelled. Only its outcome is: a permutation
  passed as `shuffled`. No claim is made about the distribution.
- `visualize_groups` of `GroupCalculator` only prints to the console.
- `visualise_groups` of `GroupDatabaseCSV` returns the same dict as `get_all_groups`, so
  `GetAllGroups` models both.
- The field `previous_combinations` is never read.
- Labels are code points, not one-character strings. Python's `chr` also yields surrogate
  code points, which Dafny's `char` cannot hold.
- Object identity and aliasing are not modelled. Students and participants compare by
  value, and rounds are values. The source hands out its own dicts: `get_all_groups`
  returns `self.groups`, and `add_students` keeps the caller's list. A caller that mutates
  those objects afterwards changes the engine; the model cannot express that.
- `GroupCalculator` stores a round as a dict from one-letter labels to lists. The model
  keeps the groups as a sequence in insertion order, with each label inside its group.
- The source has no type checks on the roster of `GroupDatabaseCSV`. The model's roster
  holds names (from `add_students`) and student records (from `select_from_file`), nothing
  else.
