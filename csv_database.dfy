/** The `GroupDatabaseCSV` engine of GroupCalculator/GroupDatabaseCSV.py: a
    roster of names or student records and a group size.  A round cuts the
    shuffled roster into consecutive slices of the group size and keeps a
    shorter trailing slice as one more group. */
module CsvDatabase {
  import opened Groups
  import opened Students

  /** A roster entry: a name given by hand, or a student loaded from a file. */
  datatype Member = Name(text: string) | Record(student: Student)

  /** Message of the ValueError the constructor raises. */
  const GroupSizeMessage: string := "Group size must be at least 1."
  /** Message of the ValueError `add_students` raises. */
  const EmptyListMessage: string := "Student list cannot be empty."
  /** Message of the ValueError `create_groups` raises. */
  const NoStudentsMessage: string := "No students available. Add students manually or load from CSV."

  // ---------------------------------------------------------------------
  // The partition of one round
  // ---------------------------------------------------------------------

  /** The slice `s[i*k : (i+1)*k]` of a Python list (cut at the end). */
  function Slice(s: seq<Member>, i: nat, k: nat): seq<Member>
    requires i * k <= |s|
  {
    s[i * k..if i * k + k <= |s| then i * k + k else |s|]
  }

  /** The roster cut into consecutive slices of k, labelled from `key` on;
      the last slice may be shorter. */
  function Chunks(s: seq<Member>, k: int, key: int): (r: seq<Group<Member>>)
    requires k >= 1
    decreases |s|
  {
    if s == [] then []
    else if |s| <= k then [Group(key, s)]
    else [Group(key, s[..k])] + Chunks(s[k..], k, key + 1)
  }

  /** The round `create_groups` records for the shuffled roster. */
  function Partition(s: seq<Member>, k: int): (r: seq<Group<Member>>)
    requires k >= 1
    ensures |r| == LabelsNeeded(|s|, k)
  {
    ChunksCount(s, k, FirstLabel);
    Chunks(s, k, FirstLabel)
  }

  /** How many labels `create_groups` makes: one per full group and one
      more for a remainder. */
  function LabelsNeeded(n: nat, k: int): nat
    requires k >= 1
  {
    n / k + (if n % k > 0 then 1 else 0)
  }

  /** The number of labels is n / k rounded up: the fewest groups of at
      most k that hold n students. */
  lemma LabelsNeededIsCeiling(n: nat, k: int)
    requires k >= 1
    ensures n == 0 ==> LabelsNeeded(n, k) == 0
    ensures n > 0 ==> k * (LabelsNeeded(n, k) - 1) < n <= k * LabelsNeeded(n, k)
  {
    var q := n / k;
    assert n == k * q + n % k;
    assert k * (q + 1) == k * q + k && k * (q - 1) == k * q - k;
  }

  /** Cutting k members off the front of n >= k leaves one full group
      fewer and the same remainder. */
  lemma DivStep(n: int, k: int)
    requires k >= 1 && n >= k
    ensures (n - k) / k == n / k - 1 && (n - k) % k == n % k
  {
    var m := n - k;
    assert m == k * (m / k) + m % k;
    assert n == k * (m / k + 1) + m % k;
    DivUnique(n, k, m / k + 1, m % k);
  }

  lemma {:induction false} ChunksCount(s: seq<Member>, k: int, key: int)
    requires k >= 1
    ensures |Chunks(s, k, key)| == LabelsNeeded(|s|, k)
    decreases |s|
  {
    if s == [] {
      DivUnique(0, k, 0, 0);
    } else if |s| < k {
      DivUnique(|s|, k, 0, |s|);
    } else if |s| == k {
      DivUnique(|s|, k, 1, 0);
    } else {
      ChunksCount(s[k..], k, key + 1);
      DivStep(|s|, k);
    }
  }

  lemma {:induction false} ChunksAt(s: seq<Member>, k: int, key: int, i: nat)
    requires k >= 1 && i < |Chunks(s, k, key)|
    ensures i * k <= |s| && Chunks(s, k, key)[i] == Group(key + i, Slice(s, i, k))
    decreases i
  {
    if i > 0 {
      var rest := s[k..];
      assert |s| > k;
      assert Chunks(s, k, key)[i] == Chunks(rest, k, key + 1)[i - 1];
      ChunksAt(rest, k, key + 1, i - 1);
      assert i * k == (i - 1) * k + k;
      assert Slice(rest, i - 1, k) == Slice(s, i, k);
    }
  }

  lemma MulStep(i: int, k: int)
    ensures i * k + k == (i + 1) * k
  {
  }

  /** The first i + 1 groups of a round are the first i and then the k
      members from position i * k on, under label i. */
  lemma PartitionPrefixStep(s: seq<Member>, k: int, i: nat)
    requires k >= 1 && i < |s| / k
    ensures i * k + k == (i + 1) * k <= |s|
    ensures Partition(s, k)[..i + 1] == Partition(s, k)[..i] + [Group(FirstLabel + i, s[i * k..i * k + k])]
  {
    PartitionFullGroup(s, k, i);
    MulStep(i, k);
    assert Partition(s, k)[..i + 1] == Partition(s, k)[..i] + [Partition(s, k)[i]];
  }

  /** Group i < n // k of a round holds exactly the k members from
      position i * k on. */
  lemma PartitionFullGroup(s: seq<Member>, k: int, i: nat)
    requires k >= 1 && i < |s| / k
    ensures |Partition(s, k)| == LabelsNeeded(|s|, k)
    ensures i * k + k <= |s| && Partition(s, k)[i] == Group(FirstLabel + i, s[i * k..i * k + k])
  {
    var n, q := |s|, |s| / k;
    assert n == k * q + n % k;
    MulMono(i + 1, q, k);
    assert k * (i + 1) == i * k + k;
    assert i * k + k <= n;
    ChunksCount(s, k, FirstLabel);
    ChunksAt(s, k, FirstLabel, i);
    assert Slice(s, i, k) == s[i * k..i * k + k];
  }

  /** When k does not divide n, the last group holds the n % k members
      left after the full groups. */
  lemma PartitionLastGroup(s: seq<Member>, k: int)
    requires k >= 1 && |s| % k > 0
    ensures |Partition(s, k)| == |s| / k + 1
    ensures Partition(s, k)[|s| / k] == Group(FirstLabel + |s| / k, s[(|s| / k) * k..])
    ensures |Partition(s, k)[|s| / k].members| == |s| % k
  {
    ChunksCount(s, k, FirstLabel);
    ChunksAt(s, k, FirstLabel, |s| / k);
    assert |s| == k * (|s| / k) + |s| % k;
  }

  /** The shape of a round: labels 'A', 'B', ... in order; n // k groups
      of exactly k consecutive members; when k does not divide n, one more
      group of the n % k members left at the end. */
  lemma PartitionShape(s: seq<Member>, k: int)
    requires k >= 1
    ensures |Partition(s, k)| == LabelsNeeded(|s|, k)
    ensures ConsecutiveLabels(Partition(s, k))
    ensures forall i :: 0 <= i < |s| / k ==>
      i * k + k <= |s| && Partition(s, k)[i] == Group(FirstLabel + i, s[i * k..i * k + k])
    ensures |s| % k > 0 ==>
      Partition(s, k)[|s| / k] == Group(FirstLabel + |s| / k, s[(|s| / k) * k..])
      && |Partition(s, k)[|s| / k].members| == |s| % k
  {
    ChunksCount(s, k, FirstLabel);
    forall i | 0 <= i < |s| / k
      ensures i * k + k <= |s| && Partition(s, k)[i] == Group(FirstLabel + i, s[i * k..i * k + k])
    {
      PartitionFullGroup(s, k, i);
    }
    if |s| % k > 0 {
      PartitionLastGroup(s, k);
    }
  }

  /** Concatenating a round's groups in label order gives back the
      shuffled roster: nobody is left out, added or moved. */
  lemma {:induction false} ChunksRoundTrip(s: seq<Member>, k: int, key: int)
    requires k >= 1
    ensures Flatten(Chunks(s, k, key)) == s
    decreases |s|
  {
    if |s| > k {
      var rest := Chunks(s[k..], k, key + 1);
      assert ([Group(key, s[..k])] + rest)[1..] == rest;
      ChunksRoundTrip(s[k..], k, key + 1);
    }
  }

  /** No group of a round is empty, and none has more than k members. */
  lemma {:induction false} ChunksSizes(s: seq<Member>, k: int, key: int)
    requires k >= 1
    ensures forall i :: 0 <= i < |Chunks(s, k, key)| ==> 1 <= |Chunks(s, k, key)[i].members| <= k
    decreases |s|
  {
    if |s| > k {
      var rest := Chunks(s[k..], k, key + 1);
      ChunksSizes(s[k..], k, key + 1);
      assert forall i :: 1 <= i < |Chunks(s, k, key)| ==> Chunks(s, k, key)[i] == rest[i - 1];
    }
  }

  /** Shuffling and cutting lose nobody and add nobody: the round holds
      the roster's entries, each as often as the roster does. */
  lemma RoundCoversRoster(shuffled: seq<Member>, roster: seq<Member>, k: int)
    requires k >= 1 && multiset(shuffled) == multiset(roster)
    ensures multiset(Flatten(Partition(shuffled, k))) == multiset(roster)
  {
    ChunksRoundTrip(shuffled, k, FirstLabel);
  }

  /** Ten students in groups of 3: groups 'A', 'B', 'C' of three and a
      last group 'D' holding the tenth student alone. */
  lemma TenInThreesSlices(s: seq<Member>)
    requires |s| == 10
    ensures |Partition(s, 3)| == 4
    ensures forall i :: 0 <= i < 3 ==> Partition(s, 3)[i] == Group(FirstLabel + i, s[3 * i..3 * i + 3])
    ensures Partition(s, 3)[3] == Group(68, [s[9]])
  {
    PartitionShape(s, 3);
    assert s[9..] == [s[9]];
  }

  /** `can_repeat`: max(1, n // k). */
  function FullGroupCount(n: nat, k: int): (r: int)
    requires k >= 1
    ensures r >= 1
    ensures n >= k ==> k * r <= n < k * r + k
    ensures n < k ==> r == 1
  {
    DivAtLeast(n, k, 1);
    assert n == k * (n / k) + n % k;
    if n / k > 1 then n / k else 1
  }

  /** With at least k students the estimate is the number of full groups
      a round makes. */
  lemma FullGroupCountIsFullGroups(s: seq<Member>, k: int)
    requires k >= 1 && |s| >= k
    ensures FullGroupCount(|s|, k) == |s| / k
    ensures |Partition(s, k)| >= FullGroupCount(|s|, k)
    ensures forall i :: 0 <= i < FullGroupCount(|s|, k) ==> |Partition(s, k)[i].members| == k
  {
    DivAtLeast(|s|, k, 1);
    PartitionShape(s, k);
  }

  // ---------------------------------------------------------------------
  // Rows of a delimited file to students
  // ---------------------------------------------------------------------

  /** The [columns] section of the configuration: which field of a row
      holds which attribute. */
  datatype Columns = Columns(name: int, lastName: int, email: int, username: int)

  /** `Student(name=row[name], ...)` for one row: an IndexError when a
      column is out of range; the cells are strings, so the student is
      always built. */
  function RowStudent(row: seq<string>, c: Columns): (r: Result<Student>)
    ensures r.Err? <==> At(row, c.name).None? || At(row, c.lastName).None?
                        || At(row, c.email).None? || At(row, c.username).None?
    ensures r.Err? ==> r.error == IndexError
    ensures r.Ok? ==> r.value == Student(At(row, c.name).value, At(row, c.lastName).value,
                                         At(row, c.email).value, At(row, c.username).value)
  {
    match (At(row, c.name), At(row, c.lastName), At(row, c.email), At(row, c.username))
    case (Some(a), Some(b), Some(e), Some(u)) =>
      CellsMakeStudent(a, b, e, u);
      NewStudent(CellArguments(a, b, e, u))
    case _ => Err(IndexError)
  }

  /** How far the load loop gets. */
  datatype Loaded = Loaded(students: seq<Student>, error: Option<Error>)

  /** The students of the leading rows that convert, and the error of the
      first row that does not (if any). */
  function LoadRows(rows: seq<seq<string>>, c: Columns): (r: Loaded)
    ensures |r.students| <= |rows|
    ensures r.error.None? <==> |r.students| == |rows|
    ensures forall i :: 0 <= i < |r.students| ==> RowStudent(rows[i], c) == Ok(r.students[i])
    ensures r.error.Some? ==> RowStudent(rows[|r.students|], c).Err?
                              && r.error == Some(RowStudent(rows[|r.students|], c).error)
    decreases |rows|
  {
    if rows == [] then Loaded([], None)
    else
      match RowStudent(rows[0], c)
      case Err(e) => Loaded([], Some(e))
      case Ok(st) =>
        var rest := LoadRows(rows[1..], c);
        assert forall i :: 1 <= i < |rows| ==> rows[i] == rows[1..][i - 1];
        Loaded([st] + rest.students, rest.error)
  }

  /** When every row has all four columns, every row becomes the student
      of its cells, in row order. */
  lemma LoadRowsComplete(rows: seq<seq<string>>, c: Columns)
    requires c.name >= 0 && c.lastName >= 0 && c.email >= 0 && c.username >= 0
    requires forall i :: 0 <= i < |rows| ==>
      c.name < |rows[i]| && c.lastName < |rows[i]| && c.email < |rows[i]| && c.username < |rows[i]|
    ensures LoadRows(rows, c).error == None
    ensures forall i :: 0 <= i < |rows| ==>
      LoadRows(rows, c).students[i] == Student(rows[i][c.name], rows[i][c.lastName], rows[i][c.email], rows[i][c.username])
  {
    forall i | 0 <= i < |rows| ensures RowStudent(rows[i], c).Ok? {
    }
  }

  /** Row i of a load that got at least that far: either the row converts
      and its student is the i-th loaded one, or its error is the load's. */
  lemma LoadRowsAt(rows: seq<seq<string>>, c: Columns, i: nat)
    requires i < |rows| && i <= |LoadRows(rows, c).students|
    ensures RowStudent(rows[i], c).Ok? ==>
      i < |LoadRows(rows, c).students| && LoadRows(rows, c).students[i] == RowStudent(rows[i], c).value
    ensures RowStudent(rows[i], c).Err? ==>
      i == |LoadRows(rows, c).students| && LoadRows(rows, c).error == Some(RowStudent(rows[i], c).error)
  {
  }

  function AsRecords(sts: seq<Student>): (r: seq<Member>)
    ensures |r| == |sts| && forall i :: 0 <= i < |r| ==> r[i] == Record(sts[i])
  {
    seq(|sts|, i requires 0 <= i < |sts| => Record(sts[i]))
  }

  /** One more loaded student extends the appended records by one. */
  lemma AppendedStep(base: seq<Member>, sts: seq<Student>, i: nat)
    requires i < |sts|
    ensures base + AsRecords(sts[..i]) + [Record(sts[i])] == base + AsRecords(sts[..i + 1])
  {
    assert sts[..i + 1] == sts[..i] + [sts[i]];
  }

  function AsNames(names: seq<string>): (r: seq<Member>)
    ensures |r| == |names| && forall i :: 0 <= i < |r| ==> r[i] == Name(names[i])
  {
    seq(|names|, i requires 0 <= i < |names| => Name(names[i]))
  }

  // ---------------------------------------------------------------------
  // The engine
  // ---------------------------------------------------------------------

  class GroupDatabaseCSV {
    var groupSize: int
    var students: seq<Member>
    /** round number -> the round's groups, in label order */
    var groups: map<int, seq<Group<Member>>>
    var currentRound: int

    /** The group size is positive, and every recorded round has a number
        below `currentRound`, so the next round number is unused. */
    ghost predicate Valid()
      reads this
    {
      groupSize >= 1 && currentRound >= 1 && forall r :: r in groups ==> 1 <= r < currentRound
    }

    constructor Init(groupSize: int)
      requires groupSize >= 1
      ensures Valid() && this.groupSize == groupSize
      ensures students == [] && groups == map[] && currentRound == 1
    {
      this.groupSize := groupSize;
      students := [];
      groups := map[];
      currentRound := 1;
    }

    /** `GroupDatabaseCSV(group_size)`: a ValueError for a group size below
        1; otherwise no students, no rounds and round 1 next. */
    static method New(groupSize: int) returns (r: Result<GroupDatabaseCSV>)
      ensures r.Err? <==> groupSize < 1
      ensures r.Err? ==> r.error == ValueError(GroupSizeMessage)
      ensures r.Ok? ==> fresh(r.value) && r.value.Valid() && r.value.groupSize == groupSize
      ensures r.Ok? ==> r.value.students == [] && r.value.groups == map[] && r.value.currentRound == 1
    {
      if groupSize < 1 {
        return Err(ValueError(GroupSizeMessage));
      }
      var db := new GroupDatabaseCSV.Init(groupSize);
      return Ok(db);
    }

    /** `add_students`: an empty list raises; any other list replaces the
        roster. */
    method AddStudents(names: seq<string>) returns (err: Option<Error>)
      modifies this`students
      ensures names == [] ==> err == Some(ValueError(EmptyListMessage)) && students == old(students)
      ensures names != [] ==> err == None && students == AsNames(names)
    {
      if names == [] {
        return Some(ValueError(EmptyListMessage));
      }
      students := AsNames(names);
      return None;
    }

    /** `select_from_file` after the file has been split into rows, with the
        header flag and the columns of the configuration as parameters.  A
        header with an empty file raises StopIteration; otherwise the data
        rows are appended as students (see AppendRows). */
    method SelectFromFile(rows: seq<seq<string>>, header: bool, c: Columns) returns (err: Option<Error>)
      modifies this`students
      ensures header && rows == [] ==> err == Some(StopIteration) && students == old(students)
      ensures !(header && rows == []) ==>
        var loaded := LoadRows(if header then rows[1..] else rows, c);
        && err == loaded.error
        && students == old(students) + AsRecords(loaded.students)
    {
      var data := rows;
      if header {
        if rows == [] {
          return Some(StopIteration);
        }
        data := rows[1..];
      }
      err := AppendRows(data, c);
    }

    /** The reading loop: each row in turn is APPENDED as a student until a
        row lacks a column, which raises IndexError with the earlier rows
        already appended. */
    method AppendRows(data: seq<seq<string>>, c: Columns) returns (err: Option<Error>)
      modifies this`students
      ensures err == LoadRows(data, c).error
      ensures students == old(students) + AsRecords(LoadRows(data, c).students)
    {
      ghost var loaded := LoadRows(data, c);
      var i := 0;
      while i < |data|
        invariant 0 <= i <= |loaded.students| && i <= |data|
        invariant students == old(students) + AsRecords(loaded.students[..i])
      {
        var st := RowStudent(data[i], c);
        LoadRowsAt(data, c, i);
        if st.Err? {
          return Some(st.error);
        }
        AppendedStep(old(students), loaded.students, i);
        students := students + [Record(st.value)];
        i := i + 1;
      }
      assert loaded.students[..i] == loaded.students;
      return None;
    }

    /** `create_groups`, with `shuffled` the order `random.shuffle` leaves
        the roster in.  An empty roster raises ValueError before anything
        changes.  Otherwise the roster is shuffled; more labels than `chr`
        can make raise ValueError; in every other case the partition of
        the shuffled roster is stored under `currentRound`, which then
        advances by one, the other rounds untouched. */
    method CreateGroups(shuffled: seq<Member>) returns (err: Option<Error>)
      requires Valid()
      requires multiset(shuffled) == multiset(students)
      modifies this`students, this`groups, this`currentRound
      ensures Valid()
      ensures shuffled == [] ==> err == Some(ValueError(NoStudentsMessage)) && students == old(students)
      ensures shuffled != [] ==> students == shuffled
      ensures err.Some? ==> groups == old(groups) && currentRound == old(currentRound)
      ensures shuffled != [] ==> (err.Some? <==> LabelsNeeded(|shuffled|, groupSize) > LabelCount)
      ensures shuffled != [] && err.Some? ==> err == Some(ValueError(ChrRangeMessage))
      ensures err.None? ==>
        && old(currentRound) !in old(groups)
        && groups == old(groups)[old(currentRound) := Partition(shuffled, groupSize)]
        && currentRound == old(currentRound) + 1
        && GetCurrentGroups() == map[old(currentRound) := Partition(shuffled, groupSize)]
    {
      assert |shuffled| == |multiset(shuffled)| == |multiset(students)| == |students|;
      assert currentRound !in groups;
      if students == [] {
        return Some(ValueError(NoStudentsMessage));
      }
      students := shuffled;
      var k := groupSize;
      var numGroups := |students| / k;
      var remainder := |students| % k;
      var labelCount := numGroups + (if remainder > 0 then 1 else 0);
      if FirstLabel + labelCount - 1 > MaxCodePoint {
        return Some(ValueError(ChrRangeMessage));
      }
      var labels := seq(labelCount, i => FirstLabel + i);
      StoreRound(currentRound, labels);
      currentRound := currentRound + 1;
      return None;
    }

    /** The writing loop of `create_groups`: under round number `r`, the
        labels in order, each with the next slice of `groupSize` students,
        and the last label with the remainder when there is one. */
    method StoreRound(r: int, labels: seq<int>)
      requires groupSize >= 1 && students != []
      requires labels == seq(LabelsNeeded(|students|, groupSize), i => FirstLabel + i)
      modifies this`groups
      ensures groups == old(groups)[r := Partition(students, groupSize)]
    {
      var k := groupSize;
      var numGroups := |students| / k;
      var remainder := |students| % k;
      ChunksCount(students, k, FirstLabel);
      ghost var round := Partition(students, k);
      groups := groups[r := []];
      var index := 0;
      var i := 0;
      var full := if remainder > 0 then |labels| - 1 else |labels|;
      while i < full
        invariant 0 <= i <= full == numGroups && index == i * k
        invariant groups == old(groups)[r := round[..i]]
      {
        PartitionPrefixStep(students, k, i);
        groups := groups[r := groups[r] + [Group(labels[i], students[index..index + k])]];
        index := index + k;
        i := i + 1;
      }
      assert index == numGroups * k;
      if remainder > 0 {
        PartitionLastGroup(students, k);
        assert |labels| == |round| == i + 1;
        assert round[i] == Group(labels[|labels| - 1], students[index..]);
        assert round[..i] + [round[i]] == round;
        groups := groups[r := groups[r] + [Group(labels[|labels| - 1], students[index..])]];
      } else {
        assert |round| == i;
        assert round[..i] == round;
      }
    }

    /** `get_current_groups`: the round before `currentRound`, under its
        number, or no groups under that number. */
    function GetCurrentGroups(): (r: map<int, seq<Group<Member>>>)
      reads this
      ensures r.Keys == {currentRound - 1}
      ensures currentRound - 1 in groups ==> r[currentRound - 1] == groups[currentRound - 1]
      ensures currentRound - 1 !in groups ==> r[currentRound - 1] == []
    {
      map[currentRound - 1 := if currentRound - 1 in groups then groups[currentRound - 1] else []]
    }

    /** `get_all_groups`: every recorded round. */
    function GetAllGroups(): (r: map<int, seq<Group<Member>>>)
      reads this
      ensures r == groups
    {
      groups
    }

    /** `reset_group`: forgets every round; round 1 is next. */
    method ResetGroup()
      requires Valid()
      modifies this`groups, this`currentRound
      ensures Valid()
      ensures groups == map[] && currentRound == 1
      ensures GetCurrentGroups() == map[0 := []]
    {
      groups := map[];
      currentRound := 1;
    }

    /** `can_repeat`: the number of full groups a round of the current
        roster makes, at least 1. */
    function CanRepeat(): (r: int)
      requires Valid()
      reads this
      ensures r == FullGroupCount(|students|, groupSize)
    {
      FullGroupCount(|students|, groupSize)
    }
  }
}
