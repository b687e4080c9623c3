/**
 * `clean_sort_rename` end to end: scan the directory listing into the pool,
 * check the quotas, shuffle and slice each cell, shuffle each experiment,
 * rename and delete per experiment, then clean up.
 */
module SortingRun {
  import opened Wrappers
  import opened Strings
  import opened Naming
  import opened Selection
  import opened SelectionProperties
  import opened Renaming

  const AllCells: set<Cell> := {
    Cell(Asian, Female), Cell(Asian, Male), Cell(White, Female), Cell(White, Male),
    Cell(Latino, Female), Cell(Latino, Male), Cell(Black, Female), Cell(Black, Male)
  }

  lemma AllCellsComplete()
    ensures forall c: Cell :: c in AllCells
  {
    forall c: Cell ensures c in AllCells {
      match c
      case Cell(Asian, Female) =>
      case Cell(Asian, Male) =>
      case Cell(White, Female) =>
      case Cell(White, Male) =>
      case Cell(Latino, Female) =>
      case Cell(Latino, Male) =>
      case Cell(Black, Female) =>
      case Cell(Black, Male) =>
    }
  }

  /** What one scanned file adds to cell `c`. */
  function Joins(f: string, c: Cell): seq<string>
  {
    match ScanFile(f)
    case Classified(b, d) => if d == c then [b] else []
    case _ => []
  }

  /** `pool[race][gender]` after the scan: the bases classified under `c`, in listing order. */
  function Members(listing: seq<string>, c: Cell): seq<string>
    decreases |listing|
  {
    if |listing| == 0 then []
    else Members(listing[..|listing| - 1], c) + Joins(listing[|listing| - 1], c)
  }

  /** The warnings the scan prints: every colour file it could not place, in listing order. */
  function Rejections(listing: seq<string>): seq<Scan>
    decreases |listing|
  {
    if |listing| == 0 then []
    else
      var s := ScanFile(listing[|listing| - 1]);
      Rejections(listing[..|listing| - 1]) + (if s.Unparsed? || s.UnknownCategory? then [s] else [])
  }

  /**
   * A cell holds exactly the bases of the listed files classified under it:
   * a file joins `pool[r][g]` if and only if it ends in `_color.jpg`, its
   * base matches the pattern and its letters name that cell.
   */
  lemma {:induction false} MembersSpec(listing: seq<string>, c: Cell)
    ensures forall x :: x in Members(listing, c) ==> CellOfBase(x) == Some(c)
    ensures forall x :: x in Members(listing, c) <==>
      exists f :: f in listing && ScanFile(f) == Classified(x, c)
    decreases |listing|
  {
    if |listing| > 0 {
      var init, last := listing[..|listing| - 1], listing[|listing| - 1];
      MembersSpec(init, c);
      assert listing == init + [last];
      forall x
        ensures x in Members(listing, c) <==> exists f :: f in listing && ScanFile(f) == Classified(x, c)
      {
        if x in Members(listing, c) && x !in Members(init, c) {
          assert ScanFile(last) == Classified(x, c);
        }
        if exists f :: f in listing && ScanFile(f) == Classified(x, c) {
          var f :| f in listing && ScanFile(f) == Classified(x, c);
          if f != last {
            assert f in init;
          }
        }
      }
    }
  }

  lemma MembersWellClassified(listing: seq<string>)
    ensures forall c: Cell, x :: x in Members(listing, c) ==> CellOfBase(x) == Some(c)
  {
    forall c: Cell
      ensures forall x :: x in Members(listing, c) ==> CellOfBase(x) == Some(c)
    {
      MembersSpec(listing, c);
    }
  }

  lemma ScannedPoolWellClassified(listing: seq<string>, pool: map<Cell, seq<string>>)
    requires forall c: Cell :: c in pool && pool[c] == Members(listing, c)
    ensures WellClassified(pool)
  {
    MembersWellClassified(listing);
  }

  /** Before the scan every cell of the table is an empty list. */
  lemma PoolStart(listing: seq<string>)
    ensures (map c | c in AllCells :: []) == PoolOf(listing[..0])
  {
    var none: seq<string> := [];
    assert listing[..0] == none;
  }

  /** Scanning one more file appends its base to its cell when it is classified, and changes nothing otherwise. */
  lemma PoolStep(listing: seq<string>, i: nat)
    requires i < |listing|
    ensures var s, before := ScanFile(listing[i]), PoolOf(listing[..i]);
      && (s.Classified? ==> s.cell in before)
      && PoolOf(listing[..i + 1]) == if s.Classified? then before[s.cell := before[s.cell] + [s.base]] else before
  {
    var s := ScanFile(listing[i]);
    if s.Classified? {
      PoolStepAppends(listing, i, s.base, s.cell);
    } else {
      PoolStepKeeps(listing, i);
    }
  }

  lemma PoolStepAppends(listing: seq<string>, i: nat, b: string, c: Cell)
    requires i < |listing| && ScanFile(listing[i]) == Classified(b, c)
    ensures c in PoolOf(listing[..i])
    ensures PoolOf(listing[..i + 1]) == PoolOf(listing[..i])[c := PoolOf(listing[..i])[c] + [b]]
  {
    MembersStep(listing, i);
    AllCellsComplete();
    var before, after := PoolOf(listing[..i]), PoolOf(listing[..i + 1]);
    var expected := before[c := before[c] + [b]];
    assert forall d: Cell :: Joins(listing[i], d) == if d == c then [b] else [];
    assert forall d: Cell :: d in after && after[d] == expected[d];
  }

  lemma PoolStepKeeps(listing: seq<string>, i: nat)
    requires i < |listing| && !ScanFile(listing[i]).Classified?
    ensures PoolOf(listing[..i + 1]) == PoolOf(listing[..i])
  {
    MembersStep(listing, i);
    AllCellsComplete();
    var before, after := PoolOf(listing[..i]), PoolOf(listing[..i + 1]);
    assert forall d: Cell :: Joins(listing[i], d) == [];
    assert forall d: Cell :: d in after && after[d] == before[d];
  }

  /** Scanning one more file extends each cell by that file's contribution. */
  lemma MembersStep(listing: seq<string>, i: nat)
    requires i < |listing|
    ensures forall c: Cell :: Members(listing[..i + 1], c) == Members(listing[..i], c) + Joins(listing[i], c)
  {
    assert listing[..i + 1][..i] == listing[..i];
  }

  /** Scanning one more file adds it to the warnings exactly when it is unparsable or of unknown category. */
  lemma RejectionsStep(listing: seq<string>, i: nat)
    requires i < |listing|
    ensures var s := ScanFile(listing[i]);
      Rejections(listing[..i + 1]) == Rejections(listing[..i]) + (if s.Unparsed? || s.UnknownCategory? then [s] else [])
  {
    assert listing[..i + 1][..i] == listing[..i];
  }

  lemma {:induction false} RejectionsAreWarnings(listing: seq<string>)
    ensures forall k :: 0 <= k < |Rejections(listing)| ==>
      Rejections(listing)[k].Unparsed? || Rejections(listing)[k].UnknownCategory?
    decreases |listing|
  {
    if |listing| > 0 {
      RejectionsAreWarnings(listing[..|listing| - 1]);
    }
  }

  /** Every colour file's base is followed by the colour suffix only: `base + "_color.jpg"` is the file. */
  ghost predicate CleanColorNames(listing: seq<string>)
  {
    forall f :: f in listing && EndsWith(f, ColorSuffix) ==> ColorBase(f) + ColorSuffix == f
  }

  /** With clean colour names, a classified file is its base followed by the colour suffix. */
  lemma ClassifiedIsBaseAndSuffix(listing: seq<string>, f: string)
    requires CleanColorNames(listing) && f in listing && ScanFile(f).Classified?
    ensures f == ScanFile(f).base + ColorSuffix
  {
  }

  /** A directory lists each name once; with clean colour names, no cell repeats an identity. */
  lemma {:induction false} MembersDistinct(listing: seq<string>, c: Cell)
    requires Distinct(listing) && CleanColorNames(listing)
    ensures Distinct(Members(listing, c))
    decreases |listing|
  {
    if |listing| > 0 {
      var init, last := listing[..|listing| - 1], listing[|listing| - 1];
      DistinctInit(listing);
      assert forall f :: f in init ==> f in listing;
      MembersDistinct(init, c);
      var m := Members(init, c);
      if ScanFile(last).Classified? && ScanFile(last).cell == c {
        var b := ScanFile(last).base;
        ClassifiedIsBaseAndSuffix(listing, last);
        MembersSpec(init, c);
        forall f | f in init && ScanFile(f) == Classified(b, c) ensures f == last {
          ClassifiedIsBaseAndSuffix(listing, f);
        }
        assert b !in m;
        DistinctConcat(m, [b]);
      } else {
        assert Members(listing, c) == m;
      }
    }
  }

  /**
   * Because `replace` removes every occurrence of the suffix, a stray
   * `<base>_color.jpg_color.jpg` next to `<base>_color.jpg` puts the same
   * identity in its cell twice, which is why the disjointness results assume
   * clean colour names.
   */
  lemma DoubledSuffixDuplicatesIdentity(b: string, c: Cell)
    requires OnlyAtEnd(b, ColorSuffix) && CellOfBase(b) == Some(c)
    ensures Members([b + ColorSuffix, b + ColorSuffix + ColorSuffix], c) == [b, b]
  {
    DoubledSuffixSameBase(b);
    var f1, f2 := b + ColorSuffix, b + ColorSuffix + ColorSuffix;
    assert f1[|f1| - |ColorSuffix|..] == ColorSuffix;
    assert f2[|f2| - |ColorSuffix|..] == ColorSuffix;
    assert MatchesCfdPattern(b) && CellOfCode(b[4], b[5]) == Some(c);
    assert ScanFile(f1) == Classified(b, c);
    assert ScanFile(f2) == Classified(b, c);
    assert Joins(f1, c) == [b] && Joins(f2, c) == [b];
    assert [f1, f2][..1] == [f1];
    var none: seq<string> := [];
    assert [f1][..0] == none;
    assert Members([f1], c) == Members(none, c) + Joins(f1, c) == [b];
    assert Members([f1, f2], c) == Members([f1], c) + Joins(f2, c);
  }

  /** The pool after the scan: every cell of the table, each with its members. */
  function PoolOf(listing: seq<string>): (pool: map<Cell, seq<string>>)
    ensures forall c: Cell :: c in pool && pool[c] == Members(listing, c)
  {
    AllCellsComplete();
    map c | c in AllCells :: Members(listing, c)
  }

  /**
   * The scanning loop with its dictionary of lists: each colour file is
   * classified once and its base appended to its cell; unparsable names and
   * unknown categories are collected as warnings.
   */
  method BuildPool(listing: seq<string>) returns (pool: map<Cell, seq<string>>, warnings: seq<Scan>)
    ensures forall c: Cell :: c in pool && pool[c] == Members(listing, c)
    ensures WellClassified(pool)
    ensures warnings == Rejections(listing)
    ensures forall k :: 0 <= k < |warnings| ==> warnings[k].Unparsed? || warnings[k].UnknownCategory?
  {
    pool := map c | c in AllCells :: [];
    warnings := [];
    PoolStart(listing);
    var i := 0;
    while i < |listing|
      invariant 0 <= i <= |listing|
      invariant pool == PoolOf(listing[..i])
      invariant warnings == Rejections(listing[..i])
    {
      var f := listing[i];
      PoolStep(listing, i);
      RejectionsStep(listing, i);
      var s := ScanFile(f);
      match s {
        case NotColorFile =>
        case Unparsed(_) =>
          warnings := warnings + [s];
        case UnknownCategory(_, _, _) =>
          warnings := warnings + [s];
        case Classified(b, c) =>
          pool := pool[c := pool[c] + [b]];
      }
      i := i + 1;
    }
    assert listing[..i] == listing;
    ScannedPoolWellClassified(listing, pool);
    RejectionsAreWarnings(listing);
  }

  /** The random draws each `random.shuffle` call consumes: one sequence per cell and one per experiment. */
  datatype Randomness = Randomness(cellDraws: map<Cell, seq<nat>>, exp1Draws: seq<nat>, exp2Draws: seq<nat>)

  function CellDraws(rnd: Randomness, c: Cell): seq<nat>
  {
    if c in rnd.cellDraws then rnd.cellDraws[c] else []
  }

  /** Each cell after its `random.shuffle(available)`. */
  function ShuffledPool(pool: map<Cell, seq<string>>, rnd: Randomness): (r: map<Cell, seq<string>>)
    ensures SamePoolUpToOrder(pool, r)
  {
    map c | c in pool :: Shuffle(pool[c], CellDraws(rnd, c))
  }

  /** The run's printed outcome: the first short cell, or the two final experiment lists. */
  datatype Report =
    | Aborted(cell: Cell, needed: nat, found: nat)
    | Completed(exp1: seq<string>, exp2: seq<string>)

  datatype RunResult = RunResult(report: Report, files: set<string>)

  function ListingSet(listing: seq<string>): set<string>
  {
    set f | f in listing
  }

  /** The allocation loop run on the scanned pool after every cell's shuffle. */
  function Selected(listing: seq<string>, rnd: Randomness): Allocation
  {
    var lists := ShuffledPool(PoolOf(listing), rnd);
    assert Covers(Targets, lists);
    Allocate(Targets, lists)
  }

  /**
   * `clean_sort_rename()` on a directory whose `os.listdir` is `listing`.
   * An abort leaves the directory exactly as it was; a completed run selects
   * 100 identities for each experiment and leaves no `CFD-` file behind.
   */
  function Run(listing: seq<string>, rnd: Randomness): (r: RunResult)
    ensures r.report.Aborted? ==> r.files == ListingSet(listing)
    ensures r.report.Completed? ==>
      |r.report.exp1| == 100 && |r.report.exp2| == 100
      && forall f :: f in r.files ==> !IsSourceName(f)
  {
    var fs := ListingSet(listing);
    TargetsFacts();
    match Selected(listing, rnd)
    case Shortfall(c, needed, found) => RunResult(Aborted(c, needed, found), fs)
    case Allocated(e1, e2) =>
      var exp1 := Shuffle(e1, rnd.exp1Draws);
      var exp2 := Shuffle(e2, rnd.exp2Draws);
      var fs1 := ProcessExperiment(fs, exp1, 1, Exp1Plan);
      var fs2 := ProcessExperiment(fs1, exp2, 101, Exp2Plan);
      RunResult(Completed(exp1, exp2), Cleanup(fs2))
  }

  /** A completed run's lists are permutations of what the allocation selected. */
  lemma RunReportsSelection(listing: seq<string>, rnd: Randomness)
    ensures var r, a := Run(listing, rnd), Selected(listing, rnd);
      && (r.report.Completed? <==> a.Allocated?)
      && (a.Allocated? ==>
            multiset(r.report.exp1) == multiset(a.exp1) && multiset(r.report.exp2) == multiset(a.exp2))
  {
  }

  /** With each cell's list WellClassified and repeat-free, so are the shuffled ones. */
  lemma PoolFacts(listing: seq<string>, rnd: Randomness)
    ensures WellClassified(PoolOf(listing))
    ensures WellClassified(ShuffledPool(PoolOf(listing), rnd))
    ensures Distinct(listing) && CleanColorNames(listing) ==> DistinctLists(ShuffledPool(PoolOf(listing), rnd))
  {
    var pool := PoolOf(listing);
    forall c: Cell
      ensures forall x :: x in Members(listing, c) ==> CellOfBase(x) == Some(c)
    {
      MembersSpec(listing, c);
    }
    if Distinct(listing) && CleanColorNames(listing) {
      forall c: Cell ensures Distinct(Members(listing, c)) {
        MembersDistinct(listing, c);
      }
    }
    TargetsFacts();
    ShuffleInvariance(Targets, pool, ShuffledPool(pool, rnd));
  }

  /** A name in a shuffled cell was scanned into that cell. */
  lemma ShuffledMember(listing: seq<string>, rnd: Randomness, c: Cell, x: string)
    requires c in ShuffledPool(PoolOf(listing), rnd) && x in ShuffledPool(PoolOf(listing), rnd)[c]
    ensures x in Members(listing, c)
  {
    var pool := PoolOf(listing);
    var lists := ShuffledPool(pool, rnd);
    assert multiset(lists[c]) == multiset(pool[c]);
    assert x in multiset(lists[c]);
  }

  /** Every identity the allocation selects is a member of the pool cell its name places it in. */
  lemma SelectedFromPool(listing: seq<string>, rnd: Randomness)
    ensures var a := Selected(listing, rnd);
      a.Allocated? ==> forall x :: x in a.exp1 + a.exp2 ==>
        CellOfBase(x).Some? && x in Members(listing, CellOfBase(x).value)
  {
    var lists := ShuffledPool(PoolOf(listing), rnd);
    var a := Selected(listing, rnd);
    if a.Allocated? {
      PoolFacts(listing, rnd);
      AllocateFromSlices(Targets, lists);
      AllocateCells(Targets, lists);
      forall x | x in a.exp1 + a.exp2
        ensures x in Members(listing, CellOfBase(x).value)
      {
        var t;
        if x in a.exp1 {
          t :| t in Targets && InFirstSlice(x, t, lists);
          InSliceInList(lists[t.cell], 0, t.needed, x);
        } else {
          t :| t in Targets && InSecondSlice(x, t, lists);
          InSliceInList(lists[t.cell], t.needed, 2 * t.needed, x);
        }
        ShuffledMember(listing, rnd, t.cell, x);
        assert CellOfBase(x) == Some(t.cell);
      }
    }
  }

  /** Every cell is an entry of `TARGETS`. */
  lemma TargetIndexOf(c: Cell) returns (k: nat)
    ensures k < |Targets| && Targets[k].cell == c
    ensures Targets[k].needed == QuotaOf(Targets, c)
  {
    k := TargetIndex(c);
    TargetsFacts();
    QuotaOfEntry(Targets, k);
  }

  /** Shuffling keeps every cell's size. */
  lemma ShuffledSizes(listing: seq<string>, rnd: Randomness)
    ensures var lists := ShuffledPool(PoolOf(listing), rnd);
      forall c: Cell :: c in lists && |lists[c]| == |Members(listing, c)|
  {
    var pool := PoolOf(listing);
    var lists := ShuffledPool(pool, rnd);
    forall c: Cell ensures c in lists && |lists[c]| == |Members(listing, c)| {
      assert |multiset(lists[c])| == |multiset(pool[c])|;
    }
  }

  /** Some entry of the table is short exactly when some cell has fewer than twice its quota. */
  lemma ShortEntryIffShortCell(listing: seq<string>, lists: map<Cell, seq<string>>)
    requires forall c: Cell :: c in lists && |lists[c]| == |Members(listing, c)|
    ensures (exists k :: 0 <= k < |Targets| && Short(Targets[k], lists))
        <==> exists c: Cell :: |Members(listing, c)| < 2 * QuotaOf(Targets, c)
  {
    if exists c: Cell :: |Members(listing, c)| < 2 * QuotaOf(Targets, c) {
      var c: Cell :| |Members(listing, c)| < 2 * QuotaOf(Targets, c);
      var k := TargetIndexOf(c);
      assert Short(Targets[k], lists);
    }
    if exists k :: 0 <= k < |Targets| && Short(Targets[k], lists) {
      var k :| 0 <= k < |Targets| && Short(Targets[k], lists);
      TargetsDistinct();
      QuotaOfEntry(Targets, k);
      assert |Members(listing, Targets[k].cell)| < 2 * QuotaOf(Targets, Targets[k].cell);
    }
  }

  /**
   * Quota validation: the run aborts exactly when some cell has fewer than
   * twice its quota, so exactly twice is enough.
   */
  lemma RunAbortsIffShort(listing: seq<string>, rnd: Randomness)
    ensures Run(listing, rnd).report.Aborted?
        <==> exists c: Cell :: |Members(listing, c)| < 2 * QuotaOf(Targets, c)
  {
    var lists := ShuffledPool(PoolOf(listing), rnd);
    ShuffledSizes(listing, rnd);
    ShortEntryIffShortCell(listing, lists);
    assert Selected(listing, rnd).Shortfall? <==> Run(listing, rnd).report.Aborted?;
  }

  /** An abort reports a short cell with its quota and the number of identities found. */
  lemma AbortReportsShortCell(listing: seq<string>, rnd: Randomness)
    ensures var r := Run(listing, rnd);
      r.report.Aborted? ==>
        && r.report.needed == QuotaOf(Targets, r.report.cell)
        && r.report.found == |Members(listing, r.report.cell)|
        && r.report.found < 2 * r.report.needed
  {
    var lists := ShuffledPool(PoolOf(listing), rnd);
    var a := Selected(listing, rnd);
    if a.Shortfall? {
      ShuffledSizes(listing, rnd);
      var k :| 0 <= k < |Targets| && Short(Targets[k], lists)
        && a == Shortfall(Targets[k].cell, Targets[k].needed, |lists[Targets[k].cell]|);
      TargetsDistinct();
      QuotaOfEntry(Targets, k);
    }
  }

  /** The exact boundary: a pool with exactly twice each quota completes and uses every identity count. */
  lemma ExactPoolCompletes(listing: seq<string>, rnd: Randomness)
    requires forall c: Cell :: |Members(listing, c)| == 2 * QuotaOf(Targets, c)
    ensures Run(listing, rnd).report.Completed?
  {
    RunAbortsIffShort(listing, rnd);
  }

  /**
   * Balance, for every outcome of the shuffles: each cell contributes exactly
   * its quota to each experiment.
   */
  lemma RunBalanced(listing: seq<string>, rnd: Randomness)
    ensures var r := Run(listing, rnd);
      r.report.Completed? ==>
        forall c: Cell :: CellCount(r.report.exp1, c) == QuotaOf(Targets, c)
                       && CellCount(r.report.exp2, c) == QuotaOf(Targets, c)
  {
    var r := Run(listing, rnd);
    var a := Selected(listing, rnd);
    RunReportsSelection(listing, rnd);
    if a.Allocated? {
      var lists := ShuffledPool(PoolOf(listing), rnd);
      PoolFacts(listing, rnd);
      TargetsFacts();
      AllocateBalanced(Targets, lists);
      var exp1, exp2 := r.report.exp1, r.report.exp2;
      forall c: Cell
        ensures CellCount(exp1, c) == QuotaOf(Targets, c) && CellCount(exp2, c) == QuotaOf(Targets, c)
      {
        CellCountPermutation(exp1, a.exp1, c);
        CellCountPermutation(exp2, a.exp2, c);
      }
    }
  }

  /**
   * Every selected identity was scanned into the cell its race/gender code
   * names, so a file with an unknown code such as `CFD-QF-...` is never
   * selected.
   */
  lemma RunSelectsFromPool(listing: seq<string>, rnd: Randomness)
    ensures var r := Run(listing, rnd);
      r.report.Completed? ==>
        forall x :: x in r.report.exp1 + r.report.exp2 ==>
          CellOfBase(x).Some? && x in Members(listing, CellOfBase(x).value)
  {
    var r := Run(listing, rnd);
    var a := Selected(listing, rnd);
    RunReportsSelection(listing, rnd);
    if a.Allocated? {
      SelectedFromPool(listing, rnd);
      var exp1, exp2 := r.report.exp1, r.report.exp2;
      forall x | x in exp1 + exp2
        ensures CellOfBase(x).Some? && x in Members(listing, CellOfBase(x).value)
      {
        if x in exp1 {
          assert x in multiset(a.exp1);
        } else {
          assert x in multiset(a.exp2);
        }
        assert x in a.exp1 + a.exp2;
      }
    }
  }

  /**
   * Disjointness: on a directory that lists each name once and whose colour
   * files carry the suffix only at their end, no identity is in both
   * experiments and neither experiment repeats one, whatever the shuffles.
   */
  lemma RunDisjoint(listing: seq<string>, rnd: Randomness)
    requires Distinct(listing) && CleanColorNames(listing)
    ensures var r := Run(listing, rnd);
      r.report.Completed? ==>
        Distinct(r.report.exp1) && Distinct(r.report.exp2) && Disjoint(r.report.exp1, r.report.exp2)
  {
    var r := Run(listing, rnd);
    var a := Selected(listing, rnd);
    RunReportsSelection(listing, rnd);
    if a.Allocated? {
      var lists := ShuffledPool(PoolOf(listing), rnd);
      PoolFacts(listing, rnd);
      TargetsFacts();
      AllocateDisjoint(Targets, lists);
      var exp1, exp2 := r.report.exp1, r.report.exp2;
      forall x | x in exp1 ensures x !in exp2 {
        assert x in multiset(a.exp1);
        assert x !in a.exp2;
        assert x !in multiset(exp2);
      }
    }
  }

  /** Names that start with `face_` never reach a cell, whatever suffix follows. */
  lemma {:induction false} OutputsNeverScanned(listing: seq<string>, c: Cell)
    requires forall f :: f in listing ==> StartsWith(f, "face_")
    ensures Members(listing, c) == []
    decreases |listing|
  {
    if |listing| > 0 {
      var last := listing[|listing| - 1];
      assert last in listing;
      assert forall f :: f in listing[..|listing| - 1] ==> f in listing;
      OutputsNeverScanned(listing[..|listing| - 1], c);
      if EndsWith(last, ColorSuffix) {
        RemoveAllKeepsHead(last, ColorSuffix);
        assert ColorBase(last)[0] == 'f';
        assert !MatchesCfdPattern(ColorBase(last));
      }
    }
  }

  /**
   * Running the script a second time, on a directory that holds only its
   * own `face_` output, finds no identity and stops at the first entry of the
   * table, changing nothing.
   */
  lemma RunOnOutputAborts(listing: seq<string>, rnd: Randomness)
    requires forall f :: f in listing ==> StartsWith(f, "face_")
    ensures Run(listing, rnd) == RunResult(Aborted(Cell(Asian, Female), 15, 0), ListingSet(listing))
  {
    var lists := ShuffledPool(PoolOf(listing), rnd);
    var c := Cell(Asian, Female);
    OutputsNeverScanned(listing, c);
    assert multiset(lists[c]) == multiset(Members(listing, c));
    assert |lists[c]| == 0;
    assert Targets[0] == Target(c, 15);
    assert Selected(listing, rnd) == Shortfall(c, 15, 0);
  }

  /** Every selected identity is a `CFD-` name. */
  lemma SelectedAreSources(listing: seq<string>, rnd: Randomness)
    ensures var r := Run(listing, rnd);
      r.report.Completed? ==> forall x :: x in r.report.exp1 + r.report.exp2 ==> IsSourceName(x)
  {
    RunSelectsFromPool(listing, rnd);
  }

  /**
   * The directory after a completed run: every file that does not start with
   * `CFD-` is kept, and to it are added exactly the new names of the kept
   * variants of each selected identity, as found in the starting directory.
   * Every `CFD-` file is gone.
   */
  lemma RunFinalDirectory(listing: seq<string>, rnd: Randomness)
    requires Distinct(listing) && CleanColorNames(listing)
    ensures var r := Run(listing, rnd);
      var fs := ListingSet(listing);
      r.report.Completed? ==>
        r.files == Cleanup(fs) + Produced(fs, r.report.exp1, 1, Exp1Plan) + Produced(fs, r.report.exp2, 101, Exp2Plan)
  {
    var r := Run(listing, rnd);
    if r.report.Completed? {
      var exp1, exp2 := r.report.exp1, r.report.exp2;
      RunDisjoint(listing, rnd);
      SelectedAreSources(listing, rnd);
      assert forall x :: x in exp1 ==> x in exp1 + exp2;
      assert forall x :: x in exp2 ==> x in exp1 + exp2;
      RenamePhaseEffect(ListingSet(listing), exp1, exp2);
    }
  }
}
