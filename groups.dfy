/** Shared vocabulary of both group engines: error values standing for the
    exceptions the engines raise, rounds as ordered label -> members lists,
    and the two pieces of Python semantics the engines rely on (indexing a
    row with a possibly negative index, and floor division). */
module Groups {

  datatype Option<T> = None | Some(value: T)

  /** The exceptions the modelled code raises. */
  datatype Error =
    | ValueError(message: string)
    | ZeroDivisionError
    | IndexError
    | StopIteration

  datatype Result<T> = Ok(value: T) | Err(error: Error)

  /** One group of a round: the code point of its one-character label
      ('A' is 65) and its members in list order.  A round is a sequence of
      groups in the insertion order of the dictionary that holds it. */
  datatype Group<T> = Group(key: int, members: seq<T>)

  /** Code point of 'A', the first group label of every round. */
  const FirstLabel: int := 65

  /** Largest argument `chr` accepts. */
  const MaxCodePoint: int := 0x10FFFF

  /** Message of the ValueError that `chr` raises past MaxCodePoint. */
  const ChrRangeMessage: string := "chr() arg not in range(0x110000)"

  /** All members of a round, group after group. */
  function Flatten<T>(round: seq<Group<T>>): (r: seq<T>)
    ensures round == [] ==> r == []
  {
    if round == [] then [] else round[0].members + Flatten(round[1..])
  }

  /** The labels of a round are 'A', 'B', 'C', ... in order. */
  predicate ConsecutiveLabels<T>(round: seq<Group<T>>)
  {
    forall i :: 0 <= i < |round| ==> round[i].key == FirstLabel + i
  }

  lemma {:induction false} FlattenAppend<T>(round: seq<Group<T>>, g: Group<T>)
    ensures Flatten(round + [g]) == Flatten(round) + g.members
  {
    if round == [] {
      assert [g][1..] == [];
    } else {
      assert (round + [g])[1..] == round[1..] + [g];
      FlattenAppend(round[1..], g);
    }
  }

  /** Appending one participant to one group adds exactly that participant
      to the round's pool of members. */
  lemma {:induction false} FlattenAddMember<T>(round: seq<Group<T>>, i: nat, x: T)
    requires i < |round|
    ensures multiset(Flatten(round[i := Group(round[i].key, round[i].members + [x])]))
         == multiset(Flatten(round)) + multiset{x}
  {
    var round' := round[i := Group(round[i].key, round[i].members + [x])];
    if i == 0 {
      assert round'[1..] == round[1..];
    } else {
      assert round'[1..] == round[1..][i - 1 := Group(round[i].key, round[i].members + [x])];
      FlattenAddMember(round[1..], i - 1, x);
    }
  }

  /** How many groups a round can label before `chr` runs past MaxCodePoint. */
  const LabelCount: int := MaxCodePoint - FirstLabel + 1

  /** A round covers `pool` exactly: every participant of the pool is in
      some group, nobody else is, and no participant appears twice, neither
      in one group nor across two. */
  predicate ExactCover<T>(round: seq<Group<T>>, pool: set<T>)
  {
    && (forall x :: x in pool ==> exists i :: 0 <= i < |round| && x in round[i].members)
    && (forall i, a :: 0 <= i < |round| && 0 <= a < |round[i].members| ==> round[i].members[a] in pool)
    && (forall i, a, j, b ::
          0 <= i < |round| && 0 <= j < |round| && 0 <= a < |round[i].members| && 0 <= b < |round[j].members|
          && (i != j || a != b)
          ==> round[i].members[a] != round[j].members[b])
  }

  lemma {:induction false} FlattenHas<T>(round: seq<Group<T>>, x: T)
    ensures x in Flatten(round) <==> exists i :: 0 <= i < |round| && x in round[i].members
  {
    if round != [] {
      FlattenHas(round[1..], x);
      if x in round[0].members {
      } else if x in Flatten(round[1..]) {
        var i :| 0 <= i < |round[1..]| && x in round[1..][i].members;
        assert x in round[i + 1].members;
      } else {
        forall i | 0 <= i < |round| ensures x !in round[i].members {
          if i > 0 { assert round[i] == round[1..][i - 1]; }
        }
      }
    }
  }

  /** Two different positions of a sequence are two elements of its multiset. */
  lemma {:induction false} TwoSlots<T>(s: seq<T>, a: nat, b: nat)
    requires a < |s| && b < |s| && a != b
    ensures multiset{s[a], s[b]} <= multiset(s)
  {
    assert s == [s[0]] + s[1..];
    if a == 0 {
      assert s[b] == s[1..][b - 1];
    } else if b == 0 {
      assert s[a] == s[1..][a - 1];
    } else {
      assert s[a] == s[1..][a - 1] && s[b] == s[1..][b - 1];
      TwoSlots(s[1..], a - 1, b - 1);
    }
  }

  /** Any two member slots of a round are two distinct elements of its
      flattening. */
  lemma {:induction false} FlattenHasBoth<T>(round: seq<Group<T>>, i: nat, a: nat, j: nat, b: nat)
    requires i < |round| && j < |round| && a < |round[i].members| && b < |round[j].members|
    requires i != j || a != b
    ensures multiset{round[i].members[a], round[j].members[b]} <= multiset(Flatten(round))
  {
    var x, y := round[i].members[a], round[j].members[b];
    var head, rest := round[0].members, round[1..];
    assert multiset(Flatten(round)) == multiset(head) + multiset(Flatten(rest));
    if i == 0 && j == 0 {
      TwoSlots(head, a, b);
    } else if i == 0 {
      assert round[j] == rest[j - 1];
      FlattenHas(rest, y);
      assert x in multiset(head) && y in multiset(Flatten(rest));
    } else if j == 0 {
      assert round[i] == rest[i - 1];
      FlattenHas(rest, x);
      assert y in multiset(head) && x in multiset(Flatten(rest));
    } else {
      assert round[i] == rest[i - 1] && round[j] == rest[j - 1];
      FlattenHasBoth(rest, i - 1, a, j - 1, b);
    }
  }

  /** A round whose flattening is, as a multiset, exactly the set `pool`
      covers `pool` exactly. */
  lemma ExactCoverOfPool<T>(round: seq<Group<T>>, pool: set<T>)
    requires multiset(Flatten(round)) == multiset(pool)
    ensures ExactCover(round, pool)
  {
    forall x | x in pool ensures exists i :: 0 <= i < |round| && x in round[i].members {
      FlattenHas(round, x);
      assert x in multiset(Flatten(round));
    }
    forall i, a | 0 <= i < |round| && 0 <= a < |round[i].members| ensures round[i].members[a] in pool {
      FlattenHas(round, round[i].members[a]);
      assert round[i].members[a] in multiset(Flatten(round));
    }
    forall i, a, j, b |
      0 <= i < |round| && 0 <= j < |round| && 0 <= a < |round[i].members| && 0 <= b < |round[j].members|
      && (i != j || a != b)
      ensures round[i].members[a] != round[j].members[b]
    {
      FlattenHasBoth(round, i, a, j, b);
      var x := round[i].members[a];
      assert multiset(pool)[x] <= 1;
      assert multiset{x, round[j].members[b]}[x] <= 1;
    }
  }

  /** The element `row[i]` of a Python list: a negative index counts from
      the end; None stands for the IndexError an out-of-range index raises. */
  function At<T>(row: seq<T>, i: int): (r: Option<T>)
    ensures r.Some? <==> -|row| <= i < |row|
    ensures 0 <= i < |row| ==> r == Some(row[i])
    ensures -|row| <= i < 0 ==> r == Some(row[|row| + i])
  {
    if 0 <= i < |row| then Some(row[i])
    else if -|row| <= i < 0 then Some(row[|row| + i])
    else None
  }

  /** Python's `a // b`, which rounds toward negative infinity (Dafny's `/`
      is Euclidean and differs when b is negative). */
  function FloorDiv(a: int, b: int): (q: int)
    requires b != 0
    ensures b > 0 ==> b * q <= a < b * q + b
    ensures b < 0 ==> b * q + b < a <= b * q
  {
    if b > 0 || a % b == 0 then a / b else a / b - 1
  }

  // Multiplication and division facts the solver does not find alone.

  lemma MulMono(a: int, b: int, k: int)
    requires a <= b && k >= 0
    ensures k * a <= k * b
  {
    assert k * b - k * a == k * (b - a);
  }

  lemma MulCancelLt(a: int, b: int, k: int)
    ensures k > 0 && k * a < k * b ==> a < b
  {
    if k > 0 && a >= b {
      MulMono(b, a, k);
    }
  }

  /** d == k * q + r with 0 <= r < k pins down d / k and d % k. */
  lemma DivUnique(d: int, k: int, q: int, r: int)
    requires k > 0 && d == k * q + r && 0 <= r < k
    ensures d / k == q && d % k == r
  {
    var q0, r0 := d / k, d % k;
    assert d == k * q0 + r0 && 0 <= r0 < k;
    assert k * (q + 1) == k * q + k && k * (q0 + 1) == k * q0 + k;
    MulCancelLt(q0, q + 1, k);
    MulCancelLt(q, q0 + 1, k);
  }

  /** m whole multiples of k fit into d exactly when d / k >= m. */
  lemma DivAtLeast(d: int, k: int, m: int)
    requires k > 0
    ensures k * m <= d ==> m <= d / k
  {
    var q0 := d / k;
    assert d == k * q0 + d % k;
    assert k * (q0 + 1) == k * q0 + k;
    MulCancelLt(m, q0 + 1, k);
  }

  function Max(a: int, b: int): (r: int)
    ensures r >= a && r >= b && (r == a || r == b)
  {
    if a >= b then a else b
  }
}
