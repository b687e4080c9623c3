/**
 * The rename-and-clean-up phase of `clean_sort_rename`, over a directory
 * abstracted as the set of its file names. Renaming a missing file and
 * deleting a missing file do nothing, as `safe_rename` and `delete_file`
 * check `os.path.exists` first.
 */
module Renaming {
  import opened Strings
  import opened Naming
  import opened FaceIds
  import opened Selection

  /** The four files generated for each identity. */
  datatype Variant = Color | Grey | RgPlus | RgMinus

  function VariantSuffix(v: Variant): string
  {
    match v
    case Color => ColorSuffix
    case Grey => "_grey.jpg"
    case RgPlus => "_rg_plus.jpg"
    case RgMinus => "_rg_minus.jpg"
  }

  /** `f"{face_name}_color.jpg"` and its siblings. */
  function VariantFile(identity: string, v: Variant): string
  {
    identity + VariantSuffix(v)
  }

  /** `f"face_{new_id}_color.jpg"` and its siblings. */
  function TargetFile(id: string, v: Variant): string
  {
    VariantFile("face_" + id, v)
  }

  lemma SuffixOfEqualConcat(a: string, s: string, b: string, t: string)
    requires a + s == b + t && |s| <= |t|
    ensures t[|t| - |s|..] == s
  {
    assert (a + s)[|a + s| - |s|..] == s;
    assert (b + t)[|b + t| - |s|..] == t[|t| - |s|..];
  }

  /** A variant file name determines both its identity and its variant. */
  lemma VariantFileInjective(a: string, v: Variant, b: string, w: Variant)
    ensures VariantFile(a, v) == VariantFile(b, w) <==> a == b && v == w
  {
    if VariantFile(a, v) == VariantFile(b, w) {
      var s, t := VariantSuffix(v), VariantSuffix(w);
      if |s| <= |t| {
        SuffixOfEqualConcat(a, s, b, t);
      } else {
        SuffixOfEqualConcat(b, t, a, s);
      }
      assert v == w;
      assert a == (a + s)[..|a|] && b == (b + t)[..|b|];
    }
  }

  /** The variants of a database identity are database files, so the final clean-up would catch them. */
  lemma VariantOfSourceIsSource(x: string, v: Variant)
    requires IsSourceName(x)
    ensures IsSourceName(VariantFile(x, v))
  {
    assert VariantFile(x, v)[..4] == x[..4];
  }

  /** Output names start with `face_`, never with `CFD-`. */
  lemma TargetIsNotSource(id: string, v: Variant)
    ensures !IsSourceName(TargetFile(id, v))
  {
    assert TargetFile(id, v)[0] == 'f';
  }

  /** Two output names coincide only for the same number and variant. */
  lemma TargetFileInjective(m: nat, v: Variant, n: nat, w: Variant)
    ensures TargetFile(FaceId(m), v) == TargetFile(FaceId(n), w) <==> m == n && v == w
  {
    VariantFileInjective("face_" + FaceId(m), v, "face_" + FaceId(n), w);
    if "face_" + FaceId(m) == "face_" + FaceId(n) {
      assert FaceId(m) == ("face_" + FaceId(m))[5..];
      assert FaceId(n) == ("face_" + FaceId(n))[5..];
    }
  }

  /** `safe_rename(src, dst)`: renames when `src` exists (replacing any `dst`), else changes nothing. */
  function SafeRename(fs: set<string>, src: string, dst: string): (r: set<string>)
    ensures src !in fs ==> r == fs
    ensures src in fs ==> dst in r && (src != dst ==> src !in r)
    ensures forall f :: f != src && f != dst ==> (f in r <==> f in fs)
  {
    if src in fs then fs - {src} + {dst} else fs
  }

  /** `delete_file(f)`: removes `f` when it exists, else changes nothing. */
  function DeleteFile(fs: set<string>, f: string): (r: set<string>)
    ensures f !in r
    ensures f !in fs ==> r == fs
    ensures forall g :: g != f ==> (g in r <==> g in fs)
  {
    if f in fs then fs - {f} else fs
  }

  /** Which two variants an experiment renames and which two it deletes. */
  datatype Plan = Plan(keep1: Variant, keep2: Variant, drop1: Variant, drop2: Variant)

  /** Experiment 1 keeps colour and greyscale and deletes both red-green variants. */
  const Exp1Plan: Plan := Plan(Color, Grey, RgPlus, RgMinus)

  /** Experiment 2 is the inverse: it keeps the red-green variants and deletes colour and greyscale. */
  const Exp2Plan: Plan := Plan(RgPlus, RgMinus, Color, Grey)

  predicate ValidPlan(plan: Plan)
  {
    plan == Exp1Plan || plan == Exp2Plan
  }

  predicate Keeps(plan: Plan, v: Variant)
  {
    v == plan.keep1 || v == plan.keep2
  }

  /** The body of one loop iteration: two guarded renames, then two guarded deletes. */
  function ProcessFace(fs: set<string>, x: string, id: string, plan: Plan): set<string>
  {
    var fs1 := SafeRename(fs, VariantFile(x, plan.keep1), TargetFile(id, plan.keep1));
    var fs2 := SafeRename(fs1, VariantFile(x, plan.keep2), TargetFile(id, plan.keep2));
    var fs3 := DeleteFile(fs2, VariantFile(x, plan.drop1));
    DeleteFile(fs3, VariantFile(x, plan.drop2))
  }

  /** One experiment's loop: position `i` gets the identifier `str(first + i).zfill(3)`. */
  function ProcessExperiment(fs: set<string>, exp: seq<string>, first: nat, plan: Plan): set<string>
    decreases |exp|
  {
    if |exp| == 0 then fs
    else ProcessExperiment(ProcessFace(fs, exp[0], FaceId(first), plan), exp[1..], first + 1, plan)
  }

  /** The final clean-up: every file whose name starts with `CFD-` is removed. */
  function Cleanup(fs: set<string>): (r: set<string>)
    ensures forall f :: f in r ==> !IsSourceName(f)
    ensures forall f :: !IsSourceName(f) ==> (f in r <==> f in fs)
  {
    set f | f in fs && !IsSourceName(f)
  }

  /** The four files of one identity. */
  function Sources(x: string): set<string>
  {
    {VariantFile(x, Color), VariantFile(x, Grey), VariantFile(x, RgPlus), VariantFile(x, RgMinus)}
  }

  /** The output files one identity yields: a kept variant's new name, when that variant exists. */
  function KeptTargets(fs: set<string>, x: string, id: string, plan: Plan): set<string>
  {
    (if VariantFile(x, plan.keep1) in fs then {TargetFile(id, plan.keep1)} else {})
    + (if VariantFile(x, plan.keep2) in fs then {TargetFile(id, plan.keep2)} else {})
  }

  function AllSources(exp: seq<string>): set<string>
  {
    if |exp| == 0 then {} else Sources(exp[0]) + AllSources(exp[1..])
  }

  /** Every output file an experiment yields from the directory `fs` it starts from. */
  function Produced(fs: set<string>, exp: seq<string>, first: nat, plan: Plan): set<string>
    decreases |exp|
  {
    if |exp| == 0 then {}
    else KeptTargets(fs, exp[0], FaceId(first), plan) + Produced(fs, exp[1..], first + 1, plan)
  }

  /**
   * Processing one identity removes all four of its files, whichever exist,
   * and adds the new names of the kept variants that existed; nothing else
   * changes.
   */
  lemma ProcessFaceEffect(fs: set<string>, x: string, id: string, plan: Plan)
    requires IsSourceName(x) && ValidPlan(plan)
    ensures ProcessFace(fs, x, id, plan) == (fs - Sources(x)) + KeptTargets(fs, x, id, plan)
  {
    DistinctFaceNames(x, id, plan);
    RenameRenameDeleteDelete(fs,
      VariantFile(x, plan.keep1), VariantFile(x, plan.keep2),
      VariantFile(x, plan.drop1), VariantFile(x, plan.drop2),
      TargetFile(id, plan.keep1), TargetFile(id, plan.keep2));
  }

  /** Two guarded renames then two guarded deletes, on six different names. */
  lemma RenameRenameDeleteDelete(fs: set<string>, k1: string, k2: string, d1: string, d2: string, t1: string, t2: string)
    requires k1 != k2 && k1 != d1 && k1 != d2 && k2 != d1 && k2 != d2 && d1 != d2
    requires t1 != t2 && t1 !in {k1, k2, d1, d2} && t2 !in {k1, k2, d1, d2}
    ensures DeleteFile(DeleteFile(SafeRename(SafeRename(fs, k1, t1), k2, t2), d1), d2)
         == (fs - {k1, k2, d1, d2}) + (if k1 in fs then {t1} else {}) + (if k2 in fs then {t2} else {})
  {
    var fs1 := SafeRename(fs, k1, t1);
    assert fs1 == (fs - {k1}) + (if k1 in fs then {t1} else {});
    var fs2 := SafeRename(fs1, k2, t2);
    assert fs2 == (fs - {k1, k2}) + (if k1 in fs then {t1} else {}) + (if k2 in fs then {t2} else {});
    var fs3 := DeleteFile(fs2, d1);
    assert fs3 == (fs - {k1, k2, d1}) + (if k1 in fs then {t1} else {}) + (if k2 in fs then {t2} else {});
  }

  /** The four variant files of an identity and its two new names are six different names. */
  lemma DistinctFaceNames(x: string, id: string, plan: Plan)
    requires IsSourceName(x) && ValidPlan(plan)
    ensures var k1, k2 := VariantFile(x, plan.keep1), VariantFile(x, plan.keep2);
      var d1, d2 := VariantFile(x, plan.drop1), VariantFile(x, plan.drop2);
      var t1, t2 := TargetFile(id, plan.keep1), TargetFile(id, plan.keep2);
      && Sources(x) == {k1, k2, d1, d2}
      && k1 != k2 && k1 != d1 && k1 != d2 && k2 != d1 && k2 != d2 && d1 != d2
      && t1 != t2 && t1 !in {k1, k2, d1, d2} && t2 !in {k1, k2, d1, d2}
  {
    forall v: Variant, w: Variant
      ensures TargetFile(id, v) != VariantFile(x, w)
      ensures v != w ==> VariantFile(x, v) != VariantFile(x, w)
      ensures v != w ==> TargetFile(id, v) != TargetFile(id, w)
    {
      TargetIsNotSource(id, v);
      VariantOfSourceIsSource(x, w);
      VariantFileInjective(x, v, x, w);
      VariantFileInjective("face_" + id, v, "face_" + id, w);
    }
  }

  /** A variant file among an experiment's sources belongs to one of its identities. */
  lemma {:induction false} AllSourcesOwner(exp: seq<string>, y: string, v: Variant)
    ensures VariantFile(y, v) in AllSources(exp) <==> y in exp
    decreases |exp|
  {
    if |exp| > 0 {
      AllSourcesOwner(exp[1..], y, v);
      forall w: Variant { VariantFileInjective(y, v, exp[0], w); }
      assert exp == [exp[0]] + exp[1..];
    }
  }

  lemma AllSourcesAreSourceNames(exp: seq<string>)
    requires forall x :: x in exp ==> IsSourceName(x)
    ensures forall f :: f in AllSources(exp) ==> IsSourceName(f)
  {
    if |exp| > 0 {
      assert exp[0] in exp;
      forall v: Variant { VariantOfSourceIsSource(exp[0], v); }
      AllSourcesAreSourceNames(exp[1..]);
    }
  }

  lemma ProducedAreTargets(fs: set<string>, exp: seq<string>, first: nat, plan: Plan)
    ensures forall f :: f in Produced(fs, exp, first, plan) ==> !IsSourceName(f)
    decreases |exp|
  {
    if |exp| > 0 {
      forall v: Variant { TargetIsNotSource(FaceId(first), v); }
      ProducedAreTargets(fs, exp[1..], first + 1, plan);
    }
  }

  /** What an experiment yields depends only on which of its identities' files exist. */
  lemma {:induction false} ProducedFrame(fs: set<string>, fs': set<string>, exp: seq<string>, first: nat, plan: Plan)
    requires forall x, v :: x in exp ==> (VariantFile(x, v) in fs <==> VariantFile(x, v) in fs')
    ensures Produced(fs, exp, first, plan) == Produced(fs', exp, first, plan)
    decreases |exp|
  {
    if |exp| > 0 {
      assert exp[0] in exp;
      ProducedFrame(fs, fs', exp[1..], first + 1, plan);
    }
  }

  /**
   * A whole experiment removes every file of its identities and adds exactly
   * the new names of their kept variants that existed; every other file is
   * left as it was.
   */
  lemma {:induction false} ProcessExperimentEffect(fs: set<string>, exp: seq<string>, first: nat, plan: Plan)
    requires forall x :: x in exp ==> IsSourceName(x)
    requires Distinct(exp) && ValidPlan(plan)
    ensures ProcessExperiment(fs, exp, first, plan)
         == (fs - AllSources(exp)) + Produced(fs, exp, first, plan)
    decreases |exp|
  {
    if |exp| > 0 {
      var x, rest, id := exp[0], exp[1..], FaceId(first);
      ExperimentStep(fs, exp, first, plan);
      ProcessExperimentEffect(ProcessFace(fs, x, id, plan), rest, first + 1, plan);
      RemoveThenAdd(fs, Sources(x), KeptTargets(fs, x, id, plan), AllSources(rest), Produced(fs, rest, first + 1, plan));
    }
  }

  /** The first iteration of an experiment loop, and what it leaves for the rest. */
  lemma ExperimentStep(fs: set<string>, exp: seq<string>, first: nat, plan: Plan)
    requires |exp| > 0 && ValidPlan(plan) && Distinct(exp)
    requires forall x :: x in exp ==> IsSourceName(x)
    ensures var x, rest, id := exp[0], exp[1..], FaceId(first);
      var fs1 := ProcessFace(fs, x, id, plan);
      && fs1 == (fs - Sources(x)) + KeptTargets(fs, x, id, plan)
      && Produced(fs1, rest, first + 1, plan) == Produced(fs, rest, first + 1, plan)
      && KeptTargets(fs, x, id, plan) !! AllSources(rest)
      && Distinct(rest) && (forall y :: y in rest ==> IsSourceName(y))
  {
    var x, rest, id := exp[0], exp[1..], FaceId(first);
    assert x in exp;
    assert forall y :: y in rest ==> y in exp;
    DistinctTail(exp);
    ProcessFaceEffect(fs, x, id, plan);
    OtherIdentitiesUntouched(fs, x, id, plan, rest);
    ProducedFrame(ProcessFace(fs, x, id, plan), fs, rest, first + 1, plan);
    KeptAreNotSources(fs, x, id, plan, rest);
  }

  /** The targets one identity produces are never source files of the others. */
  lemma KeptAreNotSources(fs: set<string>, x: string, id: string, plan: Plan, others: seq<string>)
    requires forall y :: y in others ==> IsSourceName(y)
    ensures KeptTargets(fs, x, id, plan) !! AllSources(others)
  {
    AllSourcesAreSourceNames(others);
    forall v: Variant { TargetIsNotSource(id, v); }
  }

  /** Set algebra of one step: removing `s`, adding `k`, then removing `a` (which misses `k`) and adding `p`. */
  lemma RemoveThenAdd(fs: set<string>, s: set<string>, k: set<string>, a: set<string>, p: set<string>)
    requires k !! a
    ensures ((fs - s) + k - a) + p == (fs - (s + a)) + (k + p)
  {
  }

  /** Processing one identity leaves every other identity's files as they were. */
  lemma OtherIdentitiesUntouched(fs: set<string>, x: string, id: string, plan: Plan, others: seq<string>)
    requires IsSourceName(x) && ValidPlan(plan) && x !in others
    requires forall y :: y in others ==> IsSourceName(y)
    ensures forall y, v :: y in others ==>
      (VariantFile(y, v) in ProcessFace(fs, x, id, plan) <==> VariantFile(y, v) in fs)
  {
    ProcessFaceEffect(fs, x, id, plan);
    forall y, v | y in others
      ensures VariantFile(y, v) in ProcessFace(fs, x, id, plan) <==> VariantFile(y, v) in fs
    {
      VariantOfSourceIsSource(y, v);
      forall w: Variant ensures VariantFile(y, v) != VariantFile(x, w) && VariantFile(y, v) != TargetFile(id, w) {
        VariantFileInjective(y, v, x, w);
        TargetIsNotSource(id, w);
      }
    }
  }

  /**
   * ID assignment: the output file `face_<n>_<v>.jpg` is produced exactly when
   * `n` is `first + i` for a position `i` of the experiment, `v` is a kept
   * variant, and identity `i` had that variant.
   */
  lemma {:induction false} ProducedMembership(fs: set<string>, exp: seq<string>, first: nat, plan: Plan, n: nat, v: Variant)
    ensures TargetFile(FaceId(n), v) in Produced(fs, exp, first, plan)
        <==> first <= n < first + |exp| && Keeps(plan, v) && VariantFile(exp[n - first], v) in fs
    decreases |exp|
  {
    if |exp| > 0 {
      ProducedMembership(fs, exp[1..], first + 1, plan, n, v);
      KeptTargetsMembership(fs, exp[0], first, plan, n, v);
      if first < n < first + |exp| {
        assert exp[1..][n - (first + 1)] == exp[n - first];
      }
    }
  }

  /** One identity's new names: `face_<n>_<v>.jpg` is among them exactly for its own number and a kept variant it had. */
  lemma KeptTargetsMembership(fs: set<string>, x: string, first: nat, plan: Plan, n: nat, v: Variant)
    ensures TargetFile(FaceId(n), v) in KeptTargets(fs, x, FaceId(first), plan)
        <==> n == first && Keeps(plan, v) && VariantFile(x, v) in fs
  {
    TargetFileInjective(n, v, first, plan.keep1);
    TargetFileInjective(n, v, first, plan.keep2);
  }

  /** Experiment 2's loop sees its identities' files exactly as they were before experiment 1's loop. */
  lemma SecondLoopSeesStart(fs: set<string>, exp1: seq<string>, exp2: seq<string>)
    requires forall x :: x in exp1 ==> IsSourceName(x)
    requires forall x :: x in exp2 ==> IsSourceName(x)
    requires Distinct(exp1) && Disjoint(exp2, exp1)
    ensures Produced(ProcessExperiment(fs, exp1, 1, Exp1Plan), exp2, 101, Exp2Plan)
         == Produced(fs, exp2, 101, Exp2Plan)
  {
    var fs1 := ProcessExperiment(fs, exp1, 1, Exp1Plan);
    ProcessExperimentEffect(fs, exp1, 1, Exp1Plan);
    ProducedAreTargets(fs, exp1, 1, Exp1Plan);
    forall y, v | y in exp2
      ensures VariantFile(y, v) in fs1 <==> VariantFile(y, v) in fs
    {
      AllSourcesOwner(exp1, y, v);
      VariantOfSourceIsSource(y, v);
    }
    ProducedFrame(fs1, fs, exp2, 101, Exp2Plan);
  }

  /**
   * The whole rename-and-clean-up phase on two disjoint experiments: the
   * directory keeps every file that does not start with `CFD-` and gains
   * exactly the new names of both experiments' kept variants, as found at
   * the start.
   */
  lemma RenamePhaseEffect(fs: set<string>, exp1: seq<string>, exp2: seq<string>)
    requires forall x :: x in exp1 ==> IsSourceName(x)
    requires forall x :: x in exp2 ==> IsSourceName(x)
    requires Distinct(exp1) && Distinct(exp2) && Disjoint(exp2, exp1)
    ensures Cleanup(ProcessExperiment(ProcessExperiment(fs, exp1, 1, Exp1Plan), exp2, 101, Exp2Plan))
         == Cleanup(fs) + Produced(fs, exp1, 1, Exp1Plan) + Produced(fs, exp2, 101, Exp2Plan)
  {
    var p1, p2 := Produced(fs, exp1, 1, Exp1Plan), Produced(fs, exp2, 101, Exp2Plan);
    var fs1 := ProcessExperiment(fs, exp1, 1, Exp1Plan);
    ProcessExperimentEffect(fs, exp1, 1, Exp1Plan);
    SecondLoopSeesStart(fs, exp1, exp2);
    ProcessExperimentEffect(fs1, exp2, 101, Exp2Plan);
    ProducedAreTargets(fs, exp1, 1, Exp1Plan);
    ProducedAreTargets(fs, exp2, 101, Exp2Plan);
    AllSourcesAreSourceNames(exp1);
    AllSourcesAreSourceNames(exp2);
    CleanupAfterTwoPhases(fs, fs1, AllSources(exp1), AllSources(exp2), p1, p2);
  }

  /** Set algebra of the two loops: sources go, targets come, everything else stays. */
  lemma CleanupAfterTwoPhases(fs: set<string>, fs1: set<string>, a1: set<string>, a2: set<string>,
                              p1: set<string>, p2: set<string>)
    requires fs1 == (fs - a1) + p1
    requires forall f :: f in a1 + a2 ==> IsSourceName(f)
    requires forall f :: f in p1 + p2 ==> !IsSourceName(f)
    ensures Cleanup((fs1 - a2) + p2) == Cleanup(fs) + p1 + p2
  {
    var fs2 := (fs1 - a2) + p2;
    forall f ensures f in Cleanup(fs2) <==> f in Cleanup(fs) + p1 + p2 {
      if !IsSourceName(f) {
        assert f in fs2 <==> f in fs || f in p1 || f in p2;
      }
    }
  }
}
