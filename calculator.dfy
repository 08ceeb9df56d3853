/** The `GroupCalculator` engine of GroupCalculator/GroupCalculator.py: a
    roster of numbered or named participants, a group size, a round counter
    and a history of rounds.  A round is formed greedily from the distinct
    participants in groups of exactly the group size, and the leftovers are
    then handed out round-robin to the groups already formed. */
module Calculator {
  import opened Groups
  import Students

  /** A roster entry: a generated number, or a "First Last" label read from
      a file.  Entries compare by value, as Python ints and strs do. */
  datatype Participant = Num(n: int) | Text(text: string)

  /** Message of the ValueError raised by the constructor. */
  const TooFewStudentsMessage: string :=
    "Die Anzahl der Sch\U{fc}ler muss gr\U{f6}\U{df}er oder gleich der Gruppengr\U{f6}\U{df}e sein."

  /** Message of the ValueError `math.comb` raises for a negative count. */
  const NegativeCountMessage: string := "n must be a non-negative integer"

  /** `list(range(1, n + 1))`: the participants 1..n, empty when n <= 0. */
  function NumberedRoster(n: int): (r: seq<Participant>)
    ensures |r| == Max(n, 0)
    ensures forall i :: 0 <= i < |r| ==> r[i] == Num(i + 1)
  {
    if n <= 0 then [] else seq(n, i => Num(i + 1))
  }

  /** `set(student_list)`: the distinct participants of a roster. */
  function Distinct(s: seq<Participant>): (d: set<Participant>)
    ensures forall x :: x in d <==> x in s
  {
    set x | x in s
  }

  /** The numbered roster has no duplicates, so none of it collapses. */
  lemma {:induction false} NumberedRosterDistinct(n: nat)
    ensures |Distinct(NumberedRoster(n))| == n
  {
    if n > 0 {
      var prev := NumberedRoster(n - 1);
      NumberedRosterDistinct(n - 1);
      assert NumberedRoster(n) == prev + [Num(n)];
      assert Distinct(NumberedRoster(n)) == Distinct(prev) + {Num(n)};
      assert Num(n) !in Distinct(prev);
    }
  }

  // ---------------------------------------------------------------------
  // The shape of one round
  // ---------------------------------------------------------------------

  /** How many of the first `j` leftovers the round-robin hands to group
      `g` of `m`: leftover number t goes to group t % m. */
  function Share(j: nat, m: nat, g: nat): nat
  {
    if m == 0 then 0 else j / m + (if g < j % m then 1 else 0)
  }

  lemma ShareStep(j: nat, m: nat, g: nat)
    requires g < m
    ensures Share(j + 1, m, g) == Share(j, m, g) + (if g == j % m then 1 else 0)
  {
    assert j == m * (j / m) + j % m;
    if j % m + 1 < m {
      DivUnique(j + 1, m, j / m, j % m + 1);
      assert Share(j + 1, m, g) == j / m + (if g < j % m + 1 then 1 else 0);
    } else {
      assert m * (j / m + 1) == m * (j / m) + m;
      DivUnique(j + 1, m, j / m + 1, 0);
    }
  }

  /** What `create_groups` records for the distinct participants `pool`
      and group size k: d / k groups labelled 'A', 'B', ... in order, which
      together hold every participant of the pool exactly once; group i
      has k members plus its round-robin share of the d % k leftovers. */
  predicate IsGreedyRound(round: seq<Group<Participant>>, pool: set<Participant>, k: int)
    ensures IsGreedyRound(round, pool, k) ==> |Flatten(round)| == |pool|
  {
    var m := if k >= 1 then |pool| / k else 0;
    && k >= 1
    && |round| == m
    && ConsecutiveLabels(round)
    && multiset(Flatten(round)) == multiset(pool)
    && (assert |multiset(Flatten(round))| == |Flatten(round)|;
        forall i :: 0 <= i < m ==> |round[i].members| == k + Share(|pool| % k, m, i))
  }

  /** Every distinct participant is in exactly one group, once. */
  lemma GreedyRoundCovers(round: seq<Group<Participant>>, pool: set<Participant>, k: int)
    requires IsGreedyRound(round, pool, k)
    ensures ExactCover(round, pool)
  {
    ExactCoverOfPool(round, pool);
  }

  /** With at least k distinct participants, every group has at least k
      members, two groups differ in size by at most one, and the sizes add
      up to the number of distinct participants. */
  lemma {:induction false} GreedyRoundSizes(round: seq<Group<Participant>>, pool: set<Participant>, k: int)
    requires IsGreedyRound(round, pool, k) && |pool| >= k
    ensures |round| >= 1
    ensures forall i :: 0 <= i < |round| ==> |round[i].members| >= k
    ensures forall i, j :: 0 <= i < |round| && 0 <= j < |round| ==> |round[i].members| <= |round[j].members| + 1
    ensures |Flatten(round)| == |pool|
  {
    DivAtLeast(|pool|, k, 1);
    assert |multiset(Flatten(round))| == |multiset(pool)|;
  }

  /** The example of the test suite: 10 participants in groups of 3 make
      three groups of sizes 4, 3 and 3. */
  lemma TenInThrees(round: seq<Group<Participant>>, pool: set<Participant>)
    requires |pool| == 10 && IsGreedyRound(round, pool, 3)
    ensures |round| == 3
    ensures |round[0].members| == 4 && |round[1].members| == 3 && |round[2].members| == 3
    ensures round[0].key == 65 && round[1].key == 66 && round[2].key == 67
  {
  }

  // ---------------------------------------------------------------------
  // The repeat estimate
  // ---------------------------------------------------------------------

  /** `math.comb(n, 2)`: the number of unordered pairs of n participants. */
  function Choose2(n: nat): (r: nat)
    ensures 2 * r == n * (n - 1)
  {
    EvenProduct(n);
    n * (n - 1) / 2
  }

  /** Pascal's rule for pairs: a new participant adds one pair with each of
      the n - 1 others. */
  lemma Choose2Step(n: nat)
    requires n >= 1
    ensures Choose2(n) == Choose2(n - 1) + (n - 1)
  {
    assert n * (n - 1) == (n - 1) * (n - 2) + 2 * (n - 1);
    assert (n - 1) * (n - 2) % 2 == 0 by { EvenProduct(n - 1); }
  }

  lemma EvenProduct(n: int)
    ensures n * (n - 1) % 2 == 0
  {
    var m := n / 2;
    var p;
    if n % 2 == 0 {
      assert n == 2 * m;
      p := m * (n - 1);
      assert n * (n - 1) == 2 * p;
    } else {
      assert n - 1 == 2 * m;
      p := n * m;
      assert n * (n - 1) == 2 * p;
    }
  }

  /** Pairs that one round's full groups of k cover:
      (n // k) * (k * (k - 1) // 2), with Python's floor division. */
  function PairsPerRound(n: int, k: int): (r: int)
    requires k != 0
    ensures k >= 1 ==> r == FloorDiv(n, k) * Choose2(k)
    ensures 1 <= k <= n ==> r >= Choose2(k)
  {
    if 1 <= k <= n then
      DivAtLeast(n, k, 1);
      MulMono(1, FloorDiv(n, k), Choose2(k));
      FloorDiv(n, k) * (k * (k - 1) / 2)
    else FloorDiv(n, k) * (k * (k - 1) / 2)
  }

  /** The rounds' pairs fit into all pairs when n >= k >= 1. */
  lemma {:induction false} PairsPerRoundFit(n: nat, k: int)
    requires 1 <= k <= n
    ensures 0 <= PairsPerRound(n, k) <= Choose2(n)
  {
    var q := FloorDiv(n, k);
    var c := Choose2(k);
    assert PairsPerRound(n, k) == q * c;
    assert q == n / k;
    assert k * q <= n by { assert n == k * q + n % k; }
    DivAtLeast(n, k, 1);
    MulMono(0, c, q);
    // 2 * (q * c) == (q * k) * (k - 1) <= n * (k - 1) <= n * (n - 1)
    assert 2 * (q * c) == q * (2 * c);
    assert q * (k * (k - 1)) == (q * k) * (k - 1);
    MulMono(q * k, n, k - 1);
    MulMono(k - 1, n - 1, n);
  }

  /** A round covers a pair only when the group size is at least 1 and
      there are at least that many students. */
  lemma PairsNeedFullGroup(n: nat, k: int)
    requires k != 0
    ensures PairsPerRound(n, k) > 0 ==> 1 <= k <= n
  {
    var q := FloorDiv(n, k);
    var c := k * (k - 1) / 2;
    if k < 0 {
      // k * q >= n >= 0 > k, so q < 1; and c >= 0
      MulCancelLt(q, 1, -k);
      assert k * (k - 1) == (-k) * (1 - k);
      MulMono(0, 1 - k, -k);
      MulMono(q, 0, c);
    } else if n < k {
      DivUnique(n, k, 0, n);
    }
  }

  /** `can_repeat`: the number of rounds whose full groups' pairs fit into
      all C(n, 2) pairs, or 1 when a round covers no pair.  Division by a
      group size of 0 and `math.comb` of a negative count raise. */
  function CanRepeatEstimate(n: int, k: int): (r: Result<int>)
    ensures r.Err? <==> k == 0 || n < 0
    ensures k == 0 ==> r == Err(ZeroDivisionError)
    ensures k != 0 && n < 0 ==> r == Err(ValueError(NegativeCountMessage))
    ensures r.Ok? ==> r.value >= 1
    ensures r.Ok? && PairsPerRound(n, k) > 0 ==>
      r.value * PairsPerRound(n, k) <= Choose2(n) < (r.value + 1) * PairsPerRound(n, k)
    ensures r.Ok? && PairsPerRound(n, k) <= 0 ==> r.value == 1
  {
    if k == 0 then Err(ZeroDivisionError)
    else
      var pairs := PairsPerRound(n, k);
      if n < 0 then Err(ValueError(NegativeCountMessage))
      else if pairs > 0 then
        PairsNeedFullGroup(n, k);
        PairsPerRoundFit(n, k);
        DivAtLeast(Choose2(n), pairs, 1);
        assert Choose2(n) == pairs * (Choose2(n) / pairs) + Choose2(n) % pairs;
        Ok(Choose2(n) / pairs)
      else Ok(1)
  }

  /** The example of the test suite: 10 participants in groups of 3 give
      45 pairs, 9 per round, so 5 rounds. */
  lemma CanRepeatTenInThrees()
    ensures CanRepeatEstimate(10, 3) == Ok(5)
  {
    assert PairsPerRound(10, 3) == 9;
    assert Choose2(10) == 45;
  }

  /** A group size of 1 covers no pair, so the estimate is 1. */
  lemma CanRepeatSingletons(n: nat)
    ensures CanRepeatEstimate(n, 1) == Ok(1)
  {
    assert PairsPerRound(n, 1) == 0;
  }

  // ---------------------------------------------------------------------
  // Rows of a delimited file to labels
  // ---------------------------------------------------------------------

  /** `f"{row[f]} {row[l]}"` for one row, an IndexError when a (negative)
      index is out of range. */
  function RowLabel(row: seq<string>, f: int, l: int): (r: Result<string>)
    ensures r.Ok? <==> At(row, f).Some? && At(row, l).Some?
    ensures r.Ok? ==> r.value == At(row, f).value + " " + At(row, l).value
    ensures r.Err? ==> r.error == IndexError
  {
    match (At(row, f), At(row, l))
    case (Some(first), Some(last)) => Ok(first + " " + last)
    case _ => Err(IndexError)
  }

  /** Whether the comprehension keeps a row: it has more than max(f, l) fields. */
  predicate Kept(row: seq<string>, f: int, l: int)
    ensures Kept(row, f, l) ==> f < |row| && l < |row|
    ensures Kept(row, f, l) ==> (RowLabel(row, f, l).Err? <==> f < -|row| || l < -|row|)
  {
    |row| > Max(f, l)
  }

  /** The list comprehension of `select_from_file`: one label per kept row,
      in row order. */
  function RowLabels(rows: seq<seq<string>>, f: int, l: int): (r: Result<seq<string>>)
    ensures r.Err? <==> exists i :: 0 <= i < |rows| && Kept(rows[i], f, l) && RowLabel(rows[i], f, l).Err?
    ensures r.Err? ==> r.error == IndexError
    ensures r.Ok? ==> |r.value| <= |rows|
    ensures (forall i :: 0 <= i < |rows| ==> !Kept(rows[i], f, l)) ==> r == Ok([])
    ensures (forall i :: 0 <= i < |rows| ==> Kept(rows[i], f, l) && RowLabel(rows[i], f, l).Ok?) ==>
      r.Ok? && |r.value| == |rows| && forall i :: 0 <= i < |rows| ==> r.value[i] == RowLabel(rows[i], f, l).value
    decreases |rows|
  {
    if rows == [] then Ok([])
    else
      var rest := RowLabels(rows[1..], f, l);
      assert forall i :: 1 <= i < |rows| ==> rows[i] == rows[1..][i - 1];
      if !Kept(rows[0], f, l) then rest
      else
        var head := RowLabel(rows[0], f, l);
        if head.Err? then Err(head.error)
        else if rest.Err? then rest
        else Ok([head.value] + rest.value)
  }

  /** Two results of the comprehension, one after the other. */
  function Concat(x: Result<seq<string>>, y: Result<seq<string>>): Result<seq<string>>
  {
    if x.Err? then x else if y.Err? then y else Ok(x.value + y.value)
  }

  lemma ConcatAssoc(x: Result<seq<string>>, y: Result<seq<string>>, z: Result<seq<string>>)
    ensures Concat(x, Concat(y, z)) == Concat(Concat(x, y), z)
  {
    if x.Ok? && y.Ok? && z.Ok? {
      assert x.value + (y.value + z.value) == (x.value + y.value) + z.value;
    }
  }

  /** What the comprehension yields for one row on its own. */
  function RowResult(row: seq<string>, f: int, l: int): Result<seq<string>>
  {
    if !Kept(row, f, l) then Ok([])
    else if RowLabel(row, f, l).Err? then Err(RowLabel(row, f, l).error)
    else Ok([RowLabel(row, f, l).value])
  }

  lemma RowLabelsCons(rows: seq<seq<string>>, f: int, l: int)
    requires rows != []
    ensures RowLabels(rows, f, l) == Concat(RowResult(rows[0], f, l), RowLabels(rows[1..], f, l))
  {
    var rest := RowLabels(rows[1..], f, l);
    if !Kept(rows[0], f, l) && rest.Ok? {
      assert [] + rest.value == rest.value;
    }
  }

  /** The comprehension works row by row: the labels of two blocks of rows
      are the labels of the first block followed by those of the second. */
  lemma {:induction false} RowLabelsAppend(a: seq<seq<string>>, b: seq<seq<string>>, f: int, l: int)
    ensures RowLabels(a + b, f, l) == Concat(RowLabels(a, f, l), RowLabels(b, f, l))
  {
    if a == [] {
      assert a + b == b;
      var rb := RowLabels(b, f, l);
      assert rb.Ok? ==> [] + rb.value == rb.value;
    } else {
      assert (a + b)[0] == a[0] && (a + b)[1..] == a[1..] + b;
      var head := RowResult(a[0], f, l);
      RowLabelsCons(a + b, f, l);
      RowLabelsAppend(a[1..], b, f, l);
      RowLabelsCons(a, f, l);
      ConcatAssoc(head, RowLabels(a[1..], f, l), RowLabels(b, f, l));
    }
  }

  /** The rows `select_from_file` reads: the first is dropped when
      `skip_header` is set (an empty file stays empty). */
  function DataRows(rows: seq<seq<string>>, skipHeader: bool): (r: seq<seq<string>>)
    ensures skipHeader && rows != [] ==> r == rows[1..]
    ensures !skipHeader || rows == [] ==> r == rows
  {
    if skipHeader && rows != [] then rows[1..] else rows
  }

  /** The roster `select_from_file` builds from a file's rows. */
  function LoadLabels(rows: seq<seq<string>>, skipHeader: bool, f: int, l: int): (r: Result<seq<string>>)
    ensures r.Err? ==> r.error == IndexError
    ensures r.Ok? ==> |r.value| <= |rows|
    ensures r.Ok? && skipHeader && rows != [] ==> |r.value| < |rows|
  {
    RowLabels(DataRows(rows, skipHeader), f, l)
  }

  /** The example of the test suite: a header row and two name rows. */
  lemma SampleFileLabels()
    ensures LoadLabels([["Vorname", "Nachname"], ["Max", "Mustermann"], ["Erika", "Musterfrau"]], true, 0, 1)
         == Ok(["Max Mustermann", "Erika Musterfrau"])
  {
    var rows := [["Max", "Mustermann"], ["Erika", "Musterfrau"]];
    var file := [["Vorname", "Nachname"], ["Max", "Mustermann"], ["Erika", "Musterfrau"]];
    assert file[1..] == rows;
    assert DataRows(file, true) == rows;
    var tail := rows[1..];
    assert tail[0] == rows[1] && tail[1..] == [];
    assert RowLabels([], 0, 1) == Ok([]);
    assert Kept(rows[1], 0, 1) && Kept(rows[0], 0, 1);
    assert RowLabel(rows[1], 0, 1) == Ok("Erika" + " " + "Musterfrau");
    assert "Erika" + " " + "Musterfrau" == "Erika Musterfrau";
    assert RowLabels(tail, 0, 1) == Ok(["Erika Musterfrau"] + []);
    assert ["Erika Musterfrau"] + [] == ["Erika Musterfrau"];
    assert RowLabel(rows[0], 0, 1) == Ok("Max" + " " + "Mustermann");
    assert "Max" + " " + "Mustermann" == "Max Mustermann";
    assert RowLabels(rows, 0, 1) == Ok(["Max Mustermann"] + ["Erika Musterfrau"]);
    assert ["Max Mustermann"] + ["Erika Musterfrau"] == ["Max Mustermann", "Erika Musterfrau"];
  }

  /** A row's label is the `str` of the student GroupDatabaseCSV would
      build from the same two cells. */
  lemma RowLabelIsStudentStr(row: seq<string>, f: nat, l: nat)
    requires Kept(row, f, l)
    ensures Students.NewStudent(Students.CellArguments(row[f], row[l], "", "")).Ok?
    ensures RowLabel(row, f, l)
         == Ok(Students.ToStr(Students.NewStudent(Students.CellArguments(row[f], row[l], "", "")).value))
  {
    Students.CellsMakeStudent(row[f], row[l], "", "");
  }

  /** The labels as roster entries. */
  function AsTexts(labels: seq<string>): (r: seq<Participant>)
    ensures |r| == |labels| && forall i :: 0 <= i < |r| ==> r[i] == Text(labels[i])
  {
    seq(|labels|, i requires 0 <= i < |labels| => Text(labels[i]))
  }

  // ---------------------------------------------------------------------
  // The three phases of create_groups, on values
  // ---------------------------------------------------------------------

  /** The inner `for` loop: takes k participants, in whatever order the set
      yields them, out of `available`; a group size of 0 or less takes
      nobody. */
  method TakeGroup(available: set<Participant>, k: int) returns (group: seq<Participant>, rest: set<Participant>)
    requires k <= |available|
    ensures |group| == Max(k, 0) && |rest| == |available| - |group|
    ensures multiset(group) + multiset(rest) == multiset(available)
  {
    group, rest := [], available;
    while |group| < k
      invariant |group| <= Max(k, 0) && |rest| == |available| - |group|
      invariant multiset(group) + multiset(rest) == multiset(available)
      decreases k - |group|
    {
      var s :| s in rest;
      group := group + [s];
      rest := rest - {s};
    }
  }

  /** The `while` loop's invariant: the groups formed so far are labelled
      in order and hold `size` members each, and together with the
      participants left they are exactly the pool. */
  ghost predicate FullGroupsSoFar(round: seq<Group<Participant>>, left: set<Participant>,
                                  pool: set<Participant>, size: nat)
  {
    && ConsecutiveLabels(round)
    && (forall i :: 0 <= i < |round| ==> |round[i].members| == size)
    && multiset(Flatten(round)) + multiset(left) == multiset(pool)
    && |left| + size * |round| == |pool|
  }

  /** Moving one group of `size` members out of the participants left, under
      the next label, keeps the invariant. */
  lemma AppendGroup(round: seq<Group<Participant>>, g: Group<Participant>, left: set<Participant>,
                    rest: set<Participant>, pool: set<Participant>, size: nat)
    requires FullGroupsSoFar(round, left, pool, size)
    requires multiset(g.members) + multiset(rest) == multiset(left) && |rest| == |left| - size
    requires g.key == FirstLabel + |round| && |g.members| == size
    ensures FullGroupsSoFar(round + [g], rest, pool, size)
  {
    FlattenAppend(round, g);
    assert size * (|round| + 1) == size * |round| + size;
  }

  /** The `while` loop: forms groups of exactly k labelled 'A', 'B', ...
      while at least k participants are left.  Computing the label after
      the one for MaxCodePoint raises ValueError: after d // k groups of k
      when that reaches the number of labels, and always for a group size
      of 0 or less, where the test never fails and every group is empty. */
  method FormFullGroups(pool: set<Participant>, k: int)
    returns (round: seq<Group<Participant>>, left: set<Participant>, err: Option<Error>)
    ensures err.Some? <==> k < 1 || |pool| / k >= LabelCount
    ensures err.Some? ==> err == Some(ValueError(ChrRangeMessage))
    ensures err.None? ==> |round| == |pool| / k && |left| == |pool| % k
    ensures err.None? ==> ConsecutiveLabels(round) && forall i :: 0 <= i < |round| ==> |round[i].members| == k
    ensures err.None? ==> multiset(Flatten(round)) + multiset(left) == multiset(pool)
  {
    round, left, err := [], pool, None;
    var groupId := FirstLabel;
    ghost var size: nat := Max(k, 0);
    while |left| >= k
      invariant FullGroupsSoFar(round, left, pool, size)
      invariant groupId == FirstLabel + |round| && |round| < LabelCount
      decreases MaxCodePoint - groupId
    {
      var group, rest := TakeGroup(left, k);
      AppendGroup(round, Group(groupId, group), left, rest, pool, size);
      round := round + [Group(groupId, group)];
      left := rest;
      groupId := groupId + 1;
      if groupId > MaxCodePoint {
        if k >= 1 {
          DivAtLeast(|pool|, k, |round|);
        }
        return round, left, Some(ValueError(ChrRangeMessage));
      }
    }
    DivUnique(|pool|, k, |round|, |left|);
  }

  /** `round` with participant `s` appended to group `g`. */
  function AddMember(round: seq<Group<Participant>>, g: nat, s: Participant): (r: seq<Group<Participant>>)
    requires g < |round|
    ensures |r| == |round| && r[g].members == round[g].members + [s]
    ensures forall h :: 0 <= h < |round| ==> r[h].key == round[h].key
    ensures forall h :: 0 <= h < |round| && h != g ==> r[h] == round[h]
  {
    round[g := Group(round[g].key, round[g].members + [s])]
  }

  /** The leftover loop's invariant after `i` leftovers: m groups labelled
      in order, group g holding k members plus its share of the i. */
  predicate Dealt(round: seq<Group<Participant>>, m: nat, k: int, i: nat)
  {
    && |round| == m
    && ConsecutiveLabels(round)
    && forall g :: 0 <= g < m ==> |round[g].members| == k + Share(i, m, g)
  }

  /** Handing leftover number i to group i % m keeps the invariant and adds
      exactly that participant to the round. */
  lemma DealStep(round: seq<Group<Participant>>, k: int, i: nat, s: Participant)
    requires |round| > 0 && Dealt(round, |round|, k, i)
    ensures Dealt(AddMember(round, i % |round|, s), |round|, k, i + 1)
    ensures multiset(Flatten(AddMember(round, i % |round|, s))) == multiset(Flatten(round)) + multiset{s}
  {
    var m := |round|;
    var r := AddMember(round, i % m, s);
    forall g | 0 <= g < m ensures |r[g].members| == k + Share(i + 1, m, g) {
      ShareStep(i, m, g);
    }
    FlattenAddMember(round, i % m, s);
  }

  /** The leftover loop: the t-th leftover, in set order, joins group
      t % m; with no group at all the modulo raises ZeroDivisionError. */
  method DealLeftovers(full: seq<Group<Participant>>, left: set<Participant>, ghost pool: set<Participant>, k: int)
    returns (round: seq<Group<Participant>>, err: Option<Error>)
    requires k >= 1 && |full| == |pool| / k && |left| == |pool| % k
    requires ConsecutiveLabels(full) && forall i :: 0 <= i < |full| ==> |full[i].members| == k
    requires multiset(Flatten(full)) + multiset(left) == multiset(pool)
    ensures err.Some? <==> full == [] && left != {}
    ensures err.Some? ==> err == Some(ZeroDivisionError)
    ensures err.None? ==> IsGreedyRound(round, pool, k)
  {
    var m := |full|;
    round, err := full, None;
    var remaining := left;
    var i := 0;
    assert Dealt(round, m, k, 0);
    while remaining != {}
      invariant |remaining| + i == |left| && (m == 0 ==> remaining == left)
      invariant Dealt(round, m, k, i)
      invariant multiset(Flatten(round)) + multiset(remaining) == multiset(pool)
      decreases |remaining|
    {
      if m == 0 {
        return round, Some(ZeroDivisionError);
      }
      var s :| s in remaining;
      DealStep(round, k, i, s);
      round := AddMember(round, i % m, s);
      remaining := remaining - {s};
      i := i + 1;
    }
    assert multiset(remaining) == multiset{} && i == |pool| % k;
  }

  // ---------------------------------------------------------------------
  // The engine
  // ---------------------------------------------------------------------

  class GroupCalculator {
    var numStudents: int
    var groupSize: int
    /** round number -> the round's groups, in label order */
    var groups: map<int, seq<Group<Participant>>>
    var roundCounter: int
    var studentList: seq<Participant>
    var delimiter: string
    var skipHeader: bool
    var firstNameCol: int
    var lastNameCol: int

    /** Every recorded round has a number between 1 and the counter, so
        the next round number is always unused. */
    ghost predicate Valid()
      reads this
    {
      roundCounter >= 0 && forall r :: r in groups ==> 1 <= r <= roundCounter
    }

    constructor Init(numStudents: int, groupSize: int)
      requires numStudents >= groupSize
      ensures Valid()
      ensures this.numStudents == numStudents && this.groupSize == groupSize
      ensures groups == map[] && roundCounter == 1
      ensures studentList == NumberedRoster(numStudents)
      ensures delimiter == "," && !skipHeader && firstNameCol == 0 && lastNameCol == 1
    {
      this.numStudents := numStudents;
      this.groupSize := groupSize;
      groups := map[];
      roundCounter := 1;
      studentList := NumberedRoster(numStudents);
      delimiter := ",";
      skipHeader := false;
      firstNameCol := 0;
      lastNameCol := 1;
    }

    /** `GroupCalculator(num_students, group_size)`: a ValueError when there
        are fewer students than the group size; otherwise students 1..n,
        round counter 1 and no rounds. */
    static method New(numStudents: int, groupSize: int) returns (r: Result<GroupCalculator>)
      ensures r.Err? <==> numStudents < groupSize
      ensures r.Err? ==> r.error == ValueError(TooFewStudentsMessage)
      ensures r.Ok? ==> fresh(r.value) && r.value.Valid()
      ensures r.Ok? ==> r.value.numStudents == numStudents && r.value.groupSize == groupSize
      ensures r.Ok? ==> r.value.groups == map[] && r.value.roundCounter == 1
      ensures r.Ok? ==> r.value.studentList == NumberedRoster(numStudents)
      ensures r.Ok? ==> r.value.delimiter == "," && !r.value.skipHeader
      ensures r.Ok? ==> r.value.firstNameCol == 0 && r.value.lastNameCol == 1
    {
      if numStudents < groupSize {
        return Err(ValueError(TooFewStudentsMessage));
      }
      var gc := new GroupCalculator.Init(numStudents, groupSize);
      return Ok(gc);
    }

    /** `reset_groups`: forgets every round; the counter restarts at 0. */
    method ResetGroups()
      modifies this`groups, this`roundCounter
      ensures Valid()
      ensures groups == map[] && roundCounter == 0
      ensures GetCurrentGroups() == [] && GetRoundCount() == 0
    {
      groups := map[];
      roundCounter := 0;
    }

    /** `get_current_groups`: the round stored under the counter, or no
        groups. */
    function GetCurrentGroups(): (r: seq<Group<Participant>>)
      reads this
      ensures roundCounter in groups ==> r == groups[roundCounter]
      ensures roundCounter !in groups ==> r == []
    {
      if roundCounter in groups then groups[roundCounter] else []
    }

    /** `get_round_count`. */
    function GetRoundCount(): (r: int)
      reads this
      ensures r == roundCounter
    {
      roundCounter
    }

    /** `can_repeat`: the estimate for the STORED student count, which a
        file load does not update. */
    function CanRepeat(): (r: Result<int>)
      reads this
      ensures r == CanRepeatEstimate(numStudents, groupSize)
    {
      CanRepeatEstimate(numStudents, groupSize)
    }

    /** `select_from_file` after the file has been split into rows: the
        roster becomes the labels of the kept rows; an IndexError leaves it
        as it was. */
    method SelectFromFile(rows: seq<seq<string>>) returns (err: Option<Error>)
      modifies this`studentList
      ensures var loaded := LoadLabels(rows, skipHeader, firstNameCol, lastNameCol);
        && (loaded.Ok? ==> err == None && studentList == AsTexts(loaded.value))
        && (loaded.Err? ==> err == Some(IndexError) && studentList == old(studentList))
    {
      var loaded := LoadLabels(rows, skipHeader, firstNameCol, lastNameCol);
      if loaded.Err? {
        return Some(loaded.error);
      }
      studentList := AsTexts(loaded.value);
      return None;
    }

    /** `create_groups`, with `shuffled` the order `random.shuffle` leaves
        the roster in and the order of set iteration chosen freely.  An
        empty roster records nothing.  Otherwise the roster is shuffled, and
        then: fewer distinct participants than the group size raise
        ZeroDivisionError (no group to take the leftovers); running past the
        last code point for a label raises ValueError, which a group size of
        0 or less always does; in every other case
        the counter advances by one and a greedy round of the distinct
        participants is stored under it, the earlier rounds untouched. */
    method CreateGroups(shuffled: seq<Participant>) returns (err: Option<Error>)
      requires Valid()
      requires multiset(shuffled) == multiset(studentList)
      modifies this`studentList, this`groups, this`roundCounter
      ensures Valid()
      ensures shuffled == [] ==> err == None && studentList == old(studentList)
      ensures shuffled != [] ==> studentList == shuffled
      ensures err.Some? || shuffled == [] ==> groups == old(groups) && roundCounter == old(roundCounter)
      ensures err == Some(ZeroDivisionError) <==> shuffled != [] && |Distinct(shuffled)| < groupSize
      ensures err == Some(ValueError(ChrRangeMessage)) <==>
        shuffled != [] && (groupSize < 1 || (|Distinct(shuffled)| >= groupSize && |Distinct(shuffled)| / groupSize >= LabelCount))
      ensures shuffled != [] && groupSize < 1 ==> err == Some(ValueError(ChrRangeMessage))
      ensures err == None || err == Some(ZeroDivisionError) || err == Some(ValueError(ChrRangeMessage))
      ensures shuffled != [] && err == None ==>
        && GetRoundCount() == old(roundCounter) + 1
        && roundCounter !in old(groups)
        && groups == old(groups)[roundCounter := GetCurrentGroups()]
        && IsGreedyRound(GetCurrentGroups(), Distinct(shuffled), groupSize)
    {
      if studentList == [] {
        return None;
      }
      assert |shuffled| == |multiset(shuffled)| == |multiset(studentList)| == |studentList|;
      studentList := shuffled;
      var available := Distinct(studentList);
      assert shuffled[0] in available;
      if 1 <= groupSize && |available| < groupSize {
        DivUnique(|available|, groupSize, 0, |available|);
      } else if 1 <= groupSize {
        DivAtLeast(|available|, groupSize, 1);
      }
      var current;
      current, available, err := FormFullGroups(available, groupSize);
      if err.Some? {
        return;
      }
      current, err := DealLeftovers(current, available, Distinct(shuffled), groupSize);
      if err.Some? {
        return;
      }
      roundCounter := roundCounter + 1;
      groups := groups[roundCounter := current];
      return None;
    }
  }
}
