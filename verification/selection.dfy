/**
 * The balanced selection of `clean_sort_rename`: the quota table, the
 * per-cell check that every cell holds at least twice its quota, the two
 * disjoint slices taken from each shuffled cell, and `random.shuffle` itself.
 */
module Selection {
  import opened Wrappers
  import opened Naming

  /** One entry of the quota table: how many identities of a cell each experiment needs. */
  datatype Target = Target(cell: Cell, needed: nat)

  /** `TARGETS`, in its dictionary iteration order (races A, W, L, B; F before M). */
  const Targets: seq<Target> := [
    Target(Cell(Asian, Female), 15), Target(Cell(Asian, Male), 15),
    Target(Cell(White, Female), 15), Target(Cell(White, Male), 15),
    Target(Cell(Latino, Female), 10), Target(Cell(Latino, Male), 10),
    Target(Cell(Black, Female), 10), Target(Cell(Black, Male), 10)
  ]

  /** Identities per experiment: the sum of all quotas. */
  function TotalNeeded(targets: seq<Target>): nat
  {
    if |targets| == 0 then 0 else targets[0].needed + TotalNeeded(targets[1..])
  }

  /** The quota of one cell, summed over the entries that name it. */
  function QuotaOf(targets: seq<Target>, c: Cell): nat
  {
    if |targets| == 0 then 0
    else (if targets[0].cell == c then targets[0].needed else 0) + QuotaOf(targets[1..], c)
  }

  /** No cell appears twice (a dictionary's keys). */
  predicate DistinctCells(targets: seq<Target>)
  {
    forall i, j :: 0 <= i < j < |targets| ==> targets[i].cell != targets[j].cell
  }

  /** With distinct cells, a listed cell's quota is its entry's count. */
  lemma {:induction false} QuotaOfEntry(targets: seq<Target>, k: nat)
    requires DistinctCells(targets) && k < |targets|
    ensures QuotaOf(targets, targets[k].cell) == targets[k].needed
  {
    var c := targets[k].cell;
    if k == 0 {
      QuotaOfAbsent(targets[1..], c);
    } else {
      assert targets[1..][k - 1] == targets[k];
      QuotaOfEntry(targets[1..], k - 1);
    }
  }

  /** A cell the table does not list has quota 0. */
  lemma {:induction false} QuotaOfAbsent(targets: seq<Target>, c: Cell)
    requires forall t :: t in targets ==> t.cell != c
    ensures QuotaOf(targets, c) == 0
  {
    if |targets| > 0 {
      assert targets[0] in targets;
      QuotaOfAbsent(targets[1..], c);
    }
  }

  /** Each cell appears once in the table, as in the source's nested dictionary. */
  lemma TargetsDistinct()
    ensures DistinctCells(Targets)
  {
  }

  /** 15 + 15 + 15 + 15 + 10 + 10 + 10 + 10 identities per experiment. */
  lemma TargetsTotal()
    ensures TotalNeeded(Targets) == 100
  {
    var t := Targets;
    assert TotalNeeded(t[8..]) == 0;
    assert TotalNeeded(t[7..]) == 10;
    assert TotalNeeded(t[6..]) == 20;
    assert TotalNeeded(t[5..]) == 30;
    assert TotalNeeded(t[4..]) == 40;
    assert TotalNeeded(t[3..]) == 55;
    assert TotalNeeded(t[2..]) == 70;
    assert TotalNeeded(t[1..]) == 85;
  }

  /** Where a cell's entry sits in the table. */
  function TargetIndex(c: Cell): (k: nat)
    ensures k < |Targets| && Targets[k].cell == c
  {
    (match c.race case Asian => 0 case White => 2 case Latino => 4 case Black => 6)
      + (if c.gender == Female then 0 else 1)
  }

  /** 15 per Asian and White cell, 10 per Latino and Black cell. */
  lemma TargetsQuotas()
    ensures forall c: Cell :: QuotaOf(Targets, c) == if c.race == Asian || c.race == White then 15 else 10
  {
    TargetsDistinct();
    forall c: Cell
      ensures QuotaOf(Targets, c) == if c.race == Asian || c.race == White then 15 else 10
    {
      QuotaOfEntry(Targets, TargetIndex(c));
    }
  }

  /** The configured table: 100 identities per experiment, 30/30/20/20 by race, half of each by gender. */
  lemma TargetsFacts()
    ensures DistinctCells(Targets)
    ensures TotalNeeded(Targets) == 100
    ensures forall c: Cell :: QuotaOf(Targets, c) == if c.race == Asian || c.race == White then 15 else 10
  {
    TargetsDistinct();
    TargetsTotal();
    TargetsQuotas();
  }

  /** No element occurs twice. */
  ghost predicate Distinct<T(!new)>(s: seq<T>)
  {
    forall x :: multiset(s)[x] <= 1
  }

  /** The head of a repeat-free sequence is not in its tail, and the tail is repeat-free. */
  lemma DistinctTail<T(!new)>(s: seq<T>)
    requires Distinct(s) && |s| > 0
    ensures s[0] !in s[1..] && Distinct(s[1..])
  {
    assert s == [s[0]] + s[1..];
    assert multiset(s) == multiset{s[0]} + multiset(s[1..]);
    assert multiset(s)[s[0]] <= 1;
    forall y ensures multiset(s[1..])[y] <= 1 {
      assert multiset(s)[y] <= 1;
    }
  }

  /** The last element of a repeat-free sequence is not in the rest, and the rest is repeat-free. */
  lemma DistinctInit<T(!new)>(s: seq<T>)
    requires Distinct(s) && |s| > 0
    ensures s[|s| - 1] !in s[..|s| - 1] && Distinct(s[..|s| - 1])
  {
    var n := |s| - 1;
    assert s == s[..n] + [s[n]];
    assert multiset(s) == multiset(s[..n]) + multiset{s[n]};
    assert multiset(s)[s[n]] <= 1;
    forall y ensures multiset(s[..n])[y] <= 1 {
      assert multiset(s)[y] <= 1;
    }
  }

  ghost predicate Disjoint<T(!new)>(a: seq<T>, b: seq<T>)
  {
    forall x :: x in a ==> x !in b
  }

  /** `x[i], x[j] = x[j], x[i]` */
  function Swap<T>(s: seq<T>, i: nat, j: nat): (r: seq<T>)
    requires i < |s| && j < |s|
    ensures |r| == |s| && multiset(r) == multiset(s)
  {
    s[i := s[j]][j := s[i]]
  }

  /**
   * The `k`-th value `randbelow(bound)` returned during one shuffle. The
   * random source is an input: any sequence of draws is allowed, a draw is
   * folded into range and a missing draw reads as 0.
   */
  function Draw(draws: seq<nat>, k: nat, bound: nat): (r: nat)
    requires bound > 0
    ensures r < bound
  {
    if k < |draws| then draws[k] % bound else 0
  }

  /** The loop of `random.shuffle` from position `i` down to 1. */
  function ShuffleDown<T>(s: seq<T>, draws: seq<nat>, i: nat): (r: seq<T>)
    requires i < |s|
    ensures |r| == |s| && multiset(r) == multiset(s)
    decreases i
  {
    if i == 0 then s
    else ShuffleDown(Swap(s, i, Draw(draws, |s| - 1 - i, i + 1)), draws, i - 1)
  }

  /**
   * `random.shuffle(x)`: CPython's Fisher-Yates pass, which swaps position
   * `i` with a drawn `j <= i` for `i` from the end down to 1. Whatever the
   * draws, the result is a permutation of the input.
   */
  function Shuffle<T>(s: seq<T>, draws: seq<nat>): (r: seq<T>)
    ensures |r| == |s| && multiset(r) == multiset(s)
  {
    if |s| == 0 then s else ShuffleDown(s, draws, |s| - 1)
  }

  /** Every identity listed under a cell has a name that places it in that cell. */
  predicate WellClassified(lists: map<Cell, seq<string>>)
  {
    forall c, x :: c in lists && x in lists[c] ==> CellOfBase(x) == Some(c)
  }

  /** Every cell list is free of repeats. */
  ghost predicate DistinctLists(lists: map<Cell, seq<string>>)
  {
    forall c :: c in lists ==> Distinct(lists[c])
  }

  /** `len(available) < needed * 2` */
  predicate Short(t: Target, lists: map<Cell, seq<string>>)
    requires t.cell in lists
  {
    |lists[t.cell]| < 2 * t.needed
  }

  predicate Covers(targets: seq<Target>, lists: map<Cell, seq<string>>)
  {
    forall t :: t in targets ==> t.cell in lists
  }

  /** The outcome of the allocation loop: two experiment lists, or the first cell found short. */
  datatype Allocation =
    | Allocated(exp1: seq<string>, exp2: seq<string>)
    | Shortfall(cell: Cell, needed: nat, found: nat)

  /**
   * The allocation loop over the quota table, given each cell's list as it
   * stands after its shuffle: a short cell stops the whole loop; otherwise
   * experiment 1 gets `available[:needed]` and experiment 2
   * `available[needed:needed*2]` of every cell, in table order.
   */
  function Allocate(targets: seq<Target>, lists: map<Cell, seq<string>>): (r: Allocation)
    requires Covers(targets, lists)
    ensures r.Shortfall? <==> exists k :: 0 <= k < |targets| && Short(targets[k], lists)
    ensures r.Shortfall? ==>
      exists k :: 0 <= k < |targets|
        && (forall j :: 0 <= j < k ==> !Short(targets[j], lists))
        && Short(targets[k], lists)
        && r == Shortfall(targets[k].cell, targets[k].needed, |lists[targets[k].cell]|)
    ensures r.Allocated? ==> |r.exp1| == TotalNeeded(targets) && |r.exp2| == TotalNeeded(targets)
  {
    if |targets| == 0 then Allocated([], [])
    else
      var t := targets[0];
      var available := lists[t.cell];
      if |available| < 2 * t.needed then Shortfall(t.cell, t.needed, |available|)
      else
        assert forall k :: 1 <= k < |targets| ==> targets[k] == targets[1..][k - 1];
        match Allocate(targets[1..], lists)
        case Shortfall(c, n, f) => Shortfall(c, n, f)
        case Allocated(rest1, rest2) =>
          Allocated(available[..t.needed] + rest1, available[t.needed..2 * t.needed] + rest2)
  }
}

module SelectionProperties {
  import opened Wrappers
  import opened Naming
  import opened Selection

  /** How many identities of a sequence name cell `c`. */
  function CellCount(s: seq<string>, c: Cell): nat
  {
    if |s| == 0 then 0
    else (if CellOfBase(s[0]) == Some(c) then 1 else 0) + CellCount(s[1..], c)
  }

  lemma {:induction false} CellCountConcat(a: seq<string>, b: seq<string>, c: Cell)
    ensures CellCount(a + b, c) == CellCount(a, c) + CellCount(b, c)
    decreases |a|
  {
    if |a| > 0 {
      assert (a + b)[1..] == a[1..] + b;
      CellCountConcat(a[1..], b, c);
    } else {
      assert a + b == b;
    }
  }

  lemma {:induction false} CellCountUniform(s: seq<string>, d: Cell, c: Cell)
    requires forall x :: x in s ==> CellOfBase(x) == Some(d)
    ensures CellCount(s, c) == if c == d then |s| else 0
    decreases |s|
  {
    if |s| > 0 {
      assert s[0] in s;
      CellCountUniform(s[1..], d, c);
    }
  }

  /** Taking one element out of a sequence takes its contribution out of the count. */
  lemma CellCountRemove(b: seq<string>, k: nat, c: Cell)
    requires k < |b|
    ensures CellCount(b, c) == CellCount(b[..k] + b[k + 1..], c) + (if CellOfBase(b[k]) == Some(c) then 1 else 0)
  {
    assert b == b[..k] + ([b[k]] + b[k + 1..]);
    CellCountConcat(b[..k], [b[k]] + b[k + 1..], c);
    CellCountConcat(b[..k], b[k + 1..], c);
    assert ([b[k]] + b[k + 1..])[1..] == b[k + 1..];
  }

  lemma MultisetRemove<T>(b: seq<T>, k: nat)
    requires k < |b|
    ensures multiset(b[..k] + b[k + 1..]) == multiset(b) - multiset{b[k]}
  {
    assert b == b[..k] + [b[k]] + b[k + 1..];
  }

  /** Counting by cell ignores order: a permutation has the same count in every cell. */
  lemma {:induction false} CellCountPermutation(a: seq<string>, b: seq<string>, c: Cell)
    requires multiset(a) == multiset(b)
    ensures CellCount(a, c) == CellCount(b, c)
    decreases |a|
  {
    if |a| == 0 {
      assert |b| == |multiset(b)| == 0;
    } else {
      var x := a[0];
      assert x in multiset(b);
      var k :| 0 <= k < |b| && b[k] == x;
      MultisetRemove(b, k);
      MultisetRemove(a, 0);
      assert a[..0] + a[1..] == a[1..];
      CellCountPermutation(a[1..], b[..k] + b[k + 1..], c);
      CellCountRemove(b, k, c);
    }
  }

  lemma DistinctConcat<T(!new)>(a: seq<T>, b: seq<T>)
    requires Distinct(a) && Distinct(b) && Disjoint(a, b)
    ensures Distinct(a + b)
  {
    forall x ensures multiset(a + b)[x] <= 1 {
      if x in a {
        assert x !in b;
      }
    }
  }

  /** The two slices `[:n]` and `[n:2n]` of a repeat-free list are repeat-free and share nothing. */
  lemma SlicesDisjoint<T(!new)>(s: seq<T>, n: nat)
    requires Distinct(s) && 2 * n <= |s|
    ensures Distinct(s[..n]) && Distinct(s[n..2 * n])
    ensures Disjoint(s[..n], s[n..2 * n])
  {
    var p, q, r := s[..n], s[n..2 * n], s[2 * n..];
    assert s == p + q + r;
    assert multiset(s) == multiset(p) + multiset(q) + multiset(r);
    forall x
      ensures multiset(p)[x] <= 1 && multiset(q)[x] <= 1
      ensures x in p ==> x !in q
    {
      assert multiset(s)[x] == multiset(p)[x] + multiset(q)[x] + multiset(r)[x];
    }
  }

  function CellsOf(targets: seq<Target>): set<Cell>
  {
    set t | t in targets :: t.cell
  }

  /** `x` is in the first slice `[:needed]` of entry `t`'s cell. */
  predicate InFirstSlice(x: string, t: Target, lists: map<Cell, seq<string>>)
  {
    t.cell in lists && 2 * t.needed <= |lists[t.cell]| && x in lists[t.cell][..t.needed]
  }

  /** `x` is in the second slice `[needed:needed*2]` of entry `t`'s cell. */
  predicate InSecondSlice(x: string, t: Target, lists: map<Cell, seq<string>>)
  {
    t.cell in lists && 2 * t.needed <= |lists[t.cell]| && x in lists[t.cell][t.needed..2 * t.needed]
  }

  /**
   * Experiment 1 holds only members of the first slice, and experiment 2 only
   * members of the second slice, of some cell of the table; so every selected
   * name comes from the pool.
   */
  lemma {:induction false} AllocateFromSlices(targets: seq<Target>, lists: map<Cell, seq<string>>)
    requires Covers(targets, lists)
    ensures var r := Allocate(targets, lists);
      r.Allocated? ==>
        && (forall x :: x in r.exp1 ==> exists t :: t in targets && InFirstSlice(x, t, lists))
        && (forall x :: x in r.exp2 ==> exists t :: t in targets && InSecondSlice(x, t, lists))
  {
    var r := Allocate(targets, lists);
    if |targets| > 0 && r.Allocated? {
      var t := targets[0];
      var available := lists[t.cell];
      var rest := Allocate(targets[1..], lists);
      AllocateFromSlices(targets[1..], lists);
      assert rest.Allocated?;
      assert forall y :: y in rest.exp1 ==> exists u :: u in targets[1..] && InFirstSlice(y, u, lists);
      assert forall y :: y in rest.exp2 ==> exists u :: u in targets[1..] && InSecondSlice(y, u, lists);
      assert r.exp1 == available[..t.needed] + rest.exp1;
      assert r.exp2 == available[t.needed..2 * t.needed] + rest.exp2;
      forall x | x in r.exp1
        ensures exists u :: u in targets && InFirstSlice(x, u, lists)
      {
        if x in available[..t.needed] {
          assert InFirstSlice(x, t, lists);
        } else {
          assert x in rest.exp1;
          var u :| u in targets[1..] && InFirstSlice(x, u, lists);
          assert u in targets;
        }
      }
      forall x | x in r.exp2
        ensures exists u :: u in targets && InSecondSlice(x, u, lists)
      {
        if x in available[t.needed..2 * t.needed] {
          assert InSecondSlice(x, t, lists);
        } else {
          assert x in rest.exp2;
          var u :| u in targets[1..] && InSecondSlice(x, u, lists);
          assert u in targets;
        }
      }
    }
  }

  lemma InSliceInList(s: seq<string>, i: nat, j: nat, x: string)
    requires i <= j <= |s| && x in s[i..j]
    ensures x in s
  {
    var k :| 0 <= k < |s[i..j]| && s[i..j][k] == x;
    assert s[i + k] == x;
  }

  /** Every selected identity's name places it in a cell of the table. */
  lemma AllocateCells(targets: seq<Target>, lists: map<Cell, seq<string>>)
    requires Covers(targets, lists) && WellClassified(lists)
    ensures var r := Allocate(targets, lists);
      r.Allocated? ==> forall x :: x in r.exp1 + r.exp2 ==>
        CellOfBase(x).Some? && CellOfBase(x).value in CellsOf(targets)
  {
    var r := Allocate(targets, lists);
    AllocateFromSlices(targets, lists);
    if r.Allocated? {
      forall x | x in r.exp1 + r.exp2
        ensures CellOfBase(x).Some? && CellOfBase(x).value in CellsOf(targets)
      {
        var t;
        if x in r.exp1 {
          t :| t in targets && InFirstSlice(x, t, lists);
          InSliceInList(lists[t.cell], 0, t.needed, x);
        } else {
          t :| t in targets && InSecondSlice(x, t, lists);
          InSliceInList(lists[t.cell], t.needed, 2 * t.needed, x);
        }
        assert CellOfBase(x) == Some(t.cell);
      }
    }
  }

  /** Balance: each cell contributes exactly its quota to each experiment. */
  lemma {:induction false} AllocateBalanced(targets: seq<Target>, lists: map<Cell, seq<string>>)
    requires Covers(targets, lists) && WellClassified(lists)
    ensures var r := Allocate(targets, lists);
      r.Allocated? ==> forall c :: CellCount(r.exp1, c) == QuotaOf(targets, c)
                                && CellCount(r.exp2, c) == QuotaOf(targets, c)
  {
    var r := Allocate(targets, lists);
    if |targets| > 0 && r.Allocated? {
      var t := targets[0];
      var available := lists[t.cell];
      var rest := Allocate(targets[1..], lists);
      AllocateBalanced(targets[1..], lists);
      var b1 := available[..t.needed];
      var b2 := available[t.needed..2 * t.needed];
      forall x | x in b1 ensures CellOfBase(x) == Some(t.cell) {
        InSliceInList(available, 0, t.needed, x);
      }
      forall x | x in b2 ensures CellOfBase(x) == Some(t.cell) {
        InSliceInList(available, t.needed, 2 * t.needed, x);
      }
      forall c
        ensures CellCount(r.exp1, c) == QuotaOf(targets, c)
             && CellCount(r.exp2, c) == QuotaOf(targets, c)
      {
        CellCountUniform(b1, t.cell, c);
        CellCountUniform(b2, t.cell, c);
        CellCountConcat(b1, rest.exp1, c);
        CellCountConcat(b2, rest.exp2, c);
      }
    }
  }

  /** Names of one cell share nothing with names of cells outside a set that excludes it. */
  lemma CellSeparated(a: seq<string>, d: Cell, b: seq<string>, others: set<Cell>)
    requires forall x :: x in a ==> CellOfBase(x) == Some(d)
    requires forall y :: y in b ==> CellOfBase(y).Some? && CellOfBase(y).value in others
    requires d !in others
    ensures Disjoint(a, b)
  {
  }

  /**
   * No identity is in both experiments, and neither experiment repeats one,
   * provided the cells are distinct table keys and each cell list is free of
   * repeats.
   */
  lemma {:induction false} AllocateDisjoint(targets: seq<Target>, lists: map<Cell, seq<string>>)
    requires Covers(targets, lists) && WellClassified(lists) && DistinctLists(lists)
    requires DistinctCells(targets)
    ensures var r := Allocate(targets, lists);
      r.Allocated? ==> Distinct(r.exp1) && Distinct(r.exp2) && Disjoint(r.exp1, r.exp2)
  {
    var r := Allocate(targets, lists);
    if |targets| > 0 && r.Allocated? {
      var t := targets[0];
      var available := lists[t.cell];
      var rest := Allocate(targets[1..], lists);
      var b1 := available[..t.needed];
      var b2 := available[t.needed..2 * t.needed];
      assert DistinctCells(targets[1..]);
      AllocateDisjoint(targets[1..], lists);
      AllocateCells(targets[1..], lists);
      SlicesDisjoint(available, t.needed);
      assert t.cell !in CellsOf(targets[1..]) by {
        forall u | u in targets[1..] ensures u.cell != t.cell {
          var j :| 0 <= j < |targets[1..]| && targets[1..][j] == u;
          assert targets[j + 1] == u;
        }
      }
      forall x | x in b1 ensures CellOfBase(x) == Some(t.cell) {
        InSliceInList(available, 0, t.needed, x);
      }
      forall x | x in b2 ensures CellOfBase(x) == Some(t.cell) {
        InSliceInList(available, t.needed, 2 * t.needed, x);
      }
      CellSeparated(b1, t.cell, rest.exp1 + rest.exp2, CellsOf(targets[1..]));
      CellSeparated(b2, t.cell, rest.exp1 + rest.exp2, CellsOf(targets[1..]));
      assert Disjoint(b1, rest.exp1) && Disjoint(b2, rest.exp2);
      DistinctConcat(b1, rest.exp1);
      DistinctConcat(b2, rest.exp2);
      assert r.exp1 == b1 + rest.exp1 && r.exp2 == b2 + rest.exp2;
      forall x | x in r.exp1 ensures x !in r.exp2 {
        if x in b1 {
          assert x !in b2 && x !in rest.exp1 + rest.exp2;
        } else {
          assert x in rest.exp1;
          assert x in rest.exp1 + rest.exp2;
          assert x !in b2;
        }
      }
    }
  }

  /** Two pools whose cells hold the same identities, in any order. */
  ghost predicate SamePoolUpToOrder(lists: map<Cell, seq<string>>, lists': map<Cell, seq<string>>)
  {
    lists.Keys == lists'.Keys
    && forall c :: c in lists ==> multiset(lists[c]) == multiset(lists'[c])
  }

  /**
   * Shuffling a cell does not change whether, or where, the run aborts, and
   * keeps the hypotheses the balance and disjointness lemmas need; so those
   * lemmas hold for every permutation of every cell.
   */
  lemma {:induction false} ShuffleInvariance(targets: seq<Target>, lists: map<Cell, seq<string>>, lists': map<Cell, seq<string>>)
    requires Covers(targets, lists) && SamePoolUpToOrder(lists, lists')
    ensures Covers(targets, lists')
    ensures Allocate(targets, lists).Shortfall? ==> Allocate(targets, lists') == Allocate(targets, lists)
    ensures Allocate(targets, lists).Allocated? <==> Allocate(targets, lists').Allocated?
    ensures WellClassified(lists) ==> WellClassified(lists')
    ensures DistinctLists(lists) ==> DistinctLists(lists')
  {
    forall c | c in lists ensures |lists[c]| == |lists'[c]| {
      assert |multiset(lists[c])| == |multiset(lists'[c])|;
    }
    if |targets| > 0 {
      ShuffleInvariance(targets[1..], lists, lists');
    }
    forall c, x | c in lists' && x in lists'[c]
      ensures x in lists[c]
    {
      assert x in multiset(lists'[c]);
    }
  }
}
