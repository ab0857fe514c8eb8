/** `FilterTests`: which of the registered tests run in this process (gtest.cc). */
module TestSelection {
  import opened CStrings
  import opened Sequences
  import opened Sharding
  import opened Shuffling
  import opened TestFilter
  import opened TestRegistry

  const DISABLE_TEST_FILTER: CString := "DISABLED_*:*/DISABLED_*"

  /** The flags --gtest_filter and --gtest_also_run_disabled_tests, and the filter that the names of disabled tests
  match, which is `DISABLE_TEST_FILTER`. */
  datatype Flags = Flags(filter: CString, alsoRunDisabledTests: bool, disabled: CString)

  function FlagsOf(filter: CString, alsoRunDisabledTests: bool): Flags {
    Flags(filter, alsoRunDisabledTests, DISABLE_TEST_FILTER)
  }

  /** How the filters see a test. */
  datatype Class = Class(isDisabled: bool, matchesFilter: bool)

  ghost function Classify(flags: Flags, caseName: CString, testName: CString): Class {
    Class(FilterAccepts(flags.disabled, caseName) || FilterAccepts(flags.disabled, testName),
          TestSelected(flags.filter, FullName(caseName, testName)))
  }

  /** What decides about a test: its class, and whether disabled tests run too. */
  datatype Rules = Rules(classify: (CString, CString) -> Class, alsoRunDisabledTests: bool)

  ghost function RulesOf(flags: Flags): Rules {
    Rules((caseName: CString, testName: CString) => Classify(flags, caseName, testName), flags.alsoRunDisabledTests)
  }

  ghost predicate Follow(rules: Rules, flags: Flags) {
    && rules.alsoRunDisabledTests == flags.alsoRunDisabledTests
    && forall c: CString, t: CString {:trigger Classify(flags, c, t)} :: rules.classify(c, t) == Classify(flags, c, t)
  }

  /** Do the flags let the test run? */
  ghost predicate Runnable(rules: Rules, caseName: CString, testName: CString) {
    var class_ := rules.classify(caseName, testName);
    (rules.alsoRunDisabledTests || !class_.isDisabled) && class_.matchesFilter
  }

  // ----- all tests in one row -----

  /** The "runnable" flags of a case's tests. */
  ghost function CaseFlags(rules: Rules, view: CaseView): (r: seq<bool>)
    ensures |r| == |view.infos|
    ensures forall j :: 0 <= j < |r| ==> r[j] == Runnable(rules, view.name, view.infos[j].name)
  {
    seq(|view.infos|, j requires 0 <= j < |view.infos| => Runnable(rules, view.name, view.infos[j].name))
  }

  /** The "runnable" flags of the tests of the first `i` cases, in order. */
  ghost function FlagsUpTo(rules: Rules, views: seq<CaseView>, i: nat): seq<bool>
    requires i <= |views|
  {
    if i == 0 then [] else FlagsUpTo(rules, views, i - 1) + CaseFlags(rules, views[i - 1])
  }

  /** The "runnable" flags of all tests. */
  ghost function AllFlags(rules: Rules, views: seq<CaseView>): seq<bool> {
    FlagsUpTo(rules, views, |views|)
  }

  /** What is recorded about a test. */
  datatype Verdict = Verdict(class_: Class, shouldRun: bool)

  /** The verdicts on a case's tests, given the "runnable" flags of all tests of earlier cases. */
  ghost function CaseVerdicts(rules: Rules, shard: Option<Shard>, before: seq<bool>, view: CaseView): (r: seq<Verdict>)
    requires ValidShard(shard)
    ensures |r| == |view.infos|
  {
    var row := before + CaseFlags(rules, view);
    seq(|view.infos|, j requires 0 <= j < |view.infos| =>
      Verdict(rules.classify(view.name, view.infos[j].name), Selects(shard, row, |before| + j)))
  }

  /** The verdicts on all tests, case by case. */
  ghost function AllVerdicts(rules: Rules, shard: Option<Shard>, views: seq<CaseView>): (r: seq<seq<Verdict>>)
    requires ValidShard(shard)
    ensures |r| == |views|
    ensures forall i {:trigger r[i]} :: 0 <= i < |views| ==> r[i] == CaseVerdicts(rules, shard, FlagsUpTo(rules, views, i), views[i])
  {
    seq(|views|, i requires 0 <= i < |views| => CaseVerdicts(rules, shard, FlagsUpTo(rules, views, i), views[i]))
  }

  ghost predicate AnyRuns(verdicts: seq<Verdict>, n: nat)
    requires n <= |verdicts|
  {
    n > 0 && (AnyRuns(verdicts, n - 1) || verdicts[n - 1].shouldRun)
  }

  lemma {:induction false} AnyRunsMeaning(verdicts: seq<Verdict>, n: nat)
    requires n <= |verdicts|
    ensures AnyRuns(verdicts, n) <==> exists j :: 0 <= j < n && verdicts[j].shouldRun
  {
    if n > 0 {
      AnyRunsMeaning(verdicts, n - 1);
    }
  }

  /** The test carries its verdict. */
  ghost predicate Carries(info: TestInfo, verdict: Verdict)
    reads info
  {
    Verdict(Class(info.isDisabled, info.matchesFilter), info.shouldRun) == verdict
  }

  /** The tests of a case carry their verdicts, and the case runs if one of them does. */
  ghost predicate CaseCarries(t: TestCase, infos: seq<TestInfo>, verdicts: seq<Verdict>)
    reads t`shouldRun, infos
  {
    && |verdicts| == |infos|
    && (forall j :: 0 <= j < |infos| ==> Carries(infos[j], verdicts[j]))
    && t.shouldRun == AnyRuns(verdicts, |verdicts|)
  }

  // ----- counting -----

  lemma {:induction false} CountsOfLongerRow(shard: Option<Shard>, row: seq<bool>, more: seq<bool>, n: nat)
    requires ValidShard(shard) && n <= |row|
    ensures Count(row + more, n) == Count(row, n) && SelectedCount(shard, row + more, n) == SelectedCount(shard, row, n)
  {
    if n > 0 {
      CountsOfLongerRow(shard, row, more, n - 1);
      assert (row + more)[n - 1] == row[n - 1];
    }
  }

  // ----- the code -----

  /** The body of the inner loop, for test `k` of the row. */
  method JudgeTest(flags: Flags, shard: Option<Shard>, ghost rules: Rules, caseName: CString, info: TestInfo,
                   ghost row: seq<bool>, ghost k: nat, numRunnable: nat)
    returns (isRunnable: bool, isSelected: bool)
    requires Follow(rules, flags) && ValidShard(shard) && k < |row|
    requires row[k] == Runnable(rules, caseName, info.name) && numRunnable == Count(row, k)
    modifies info
    ensures Carries(info, Verdict(rules.classify(caseName, info.name), Selects(shard, row, k)))
    ensures isRunnable == row[k] && isSelected == Selects(shard, row, k)
  {
    var caseDisabled := MatchesFilter(caseName, flags.disabled);
    var testDisabled := MatchesFilter(info.name, flags.disabled);
    info.isDisabled := caseDisabled || testDisabled;
    info.matchesFilter := FilterMatchesTest(caseName, info.name, flags.filter);
    assert Class(info.isDisabled, info.matchesFilter) == Classify(flags, caseName, info.name);
    isRunnable := (flags.alsoRunDisabledTests || !info.isDisabled) && info.matchesFilter;
    isSelected := isRunnable &&
      (shard.None? || ShouldRunTestOnShard(shard.value.total, shard.value.index, numRunnable));
    info.shouldRun := isSelected;
  }

  /** The inner loop, for the tests of `row` from `at` on. */
  method JudgeCase(flags: Flags, shard: Option<Shard>, ghost rules: Rules, t: TestCase, infos: seq<TestInfo>,
                   ghost row: seq<bool>, ghost at: nat, ghost verdicts: seq<Verdict>, runnableBefore: nat, selectedBefore: nat)
    returns (numRunnable: nat, numSelected: nat)
    requires Follow(rules, flags) && ValidShard(shard) && Distinct(infos) && |row| == at + |infos| && |verdicts| == |infos|
    requires forall j :: 0 <= j < |infos| ==> row[at + j] == Runnable(rules, t.name, infos[j].name)
    requires forall j :: 0 <= j < |infos| ==>
      verdicts[j] == Verdict(rules.classify(t.name, infos[j].name), Selects(shard, row, at + j))
    requires runnableBefore == Count(row, at) && selectedBefore == SelectedCount(shard, row, at)
    modifies t`shouldRun, infos
    ensures CaseCarries(t, infos, verdicts)
    ensures numRunnable == Count(row, |row|) && numSelected == SelectedCount(shard, row, |row|)
  {
    numRunnable, numSelected := runnableBefore, selectedBefore;
    t.shouldRun := false;
    var j := 0;
    while j < |infos|
      invariant 0 <= j <= |infos|
      invariant numRunnable == Count(row, at + j) && numSelected == SelectedCount(shard, row, at + j)
      invariant forall k :: 0 <= k < j ==> Carries(infos[k], verdicts[k])
      invariant t.shouldRun == AnyRuns(verdicts, j)
    {
      var isRunnable, isSelected := JudgeTest(flags, shard, rules, t.name, infos[j], row, at + j, numRunnable);
      numRunnable := numRunnable + if isRunnable then 1 else 0;
      numSelected := numSelected + if isSelected then 1 else 0;
      t.shouldRun := t.shouldRun || isSelected;
      j := j + 1;
    }
  }

  /** Decides which tests run in this process; returns how many.  The sharding request, if any, has passed the
  checks of `ShouldShard`. */
  method FilterTests(testCases: seq<TestCase>, flags: Flags, shard: Option<Shard>) returns (numSelected: nat)
    requires ValidShard(shard) && Distinct(testCases) && OwnTests(Views(testCases))
    modifies testCases, set t, x | t in testCases && x in t.testInfoList :: x
    ensures forall k :: 0 <= k < |testCases| ==> testCases[k].testInfoList == old(testCases[k].testInfoList)
    ensures var views := old(Views(testCases));
      var verdicts := AllVerdicts(RulesOf(flags), shard, views);
      forall k {:trigger verdicts[k]} :: 0 <= k < |testCases| ==> CaseCarries(testCases[k], views[k].infos, verdicts[k])
    ensures var row := AllFlags(RulesOf(flags), old(Views(testCases))); numSelected == SelectedCount(shard, row, |row|)
  {
    ghost var rules, views := RulesOf(flags), Views(testCases);
    assert Follow(rules, flags);
    ghost var tests := set t, x | t in testCases && x in t.testInfoList :: x;
    assert forall k, x :: 0 <= k < |testCases| && x in views[k].infos ==> testCases[k] in testCases && x in tests;
    numSelected := JudgeAll(testCases, flags, shard, rules, views, AllVerdicts(rules, shard, views), tests);
  }

  /** The body of the outer loop, for case `i`. */
  method JudgeNext(flags: Flags, shard: Option<Shard>, ghost rules: Rules, testCases: seq<TestCase>, t: TestCase,
                   infos: seq<TestInfo>, ghost views: seq<CaseView>, ghost verdicts: seq<seq<Verdict>>, i: nat,
                   ghost before: seq<bool>, runnableBefore: nat, selectedBefore: nat)
    returns (numRunnable: nat, numSelected: nat)
    requires Follow(rules, flags) && ValidShard(shard) && Distinct(testCases) && OwnTests(views)
    requires i < |testCases| == |views| == |verdicts| && t == testCases[i] && views[i] == CaseView(t.name, infos)
    requires verdicts[i] == CaseVerdicts(rules, shard, before, views[i])
    requires runnableBefore == Count(before, |before|) && selectedBefore == SelectedCount(shard, before, |before|)
    requires forall k {:trigger verdicts[k]} :: 0 <= k < i ==> CaseCarries(testCases[k], views[k].infos, verdicts[k])
    modifies t`shouldRun, infos
    ensures var row := before + CaseFlags(rules, views[i]);
      numRunnable == Count(row, |row|) && numSelected == SelectedCount(shard, row, |row|)
    ensures forall k {:trigger verdicts[k]} :: 0 <= k <= i ==> CaseCarries(testCases[k], views[k].infos, verdicts[k])
  {
    ghost var row := before + CaseFlags(rules, views[i]);
    CountsOfLongerRow(shard, before, CaseFlags(rules, views[i]), |before|);
    numRunnable, numSelected :=
      JudgeCase(flags, shard, rules, t, infos, row, |before|, verdicts[i], runnableBefore, selectedBefore);
    forall k | 0 <= k < i
      ensures CaseCarries(testCases[k], views[k].infos, verdicts[k])
    {
      assert old(CaseCarries(testCases[k], views[k].infos, verdicts[k]));
      assert Apart(views[k].infos, infos);
      assert forall l :: 0 <= l < |views[k].infos| ==> views[k].infos[l] in views[k].infos;
    }
  }

  /** The outer loop. */
  method JudgeAll(testCases: seq<TestCase>, flags: Flags, shard: Option<Shard>, ghost rules: Rules,
                  ghost views: seq<CaseView>, ghost verdicts: seq<seq<Verdict>>, ghost tests: set<TestInfo>)
    returns (numSelected: nat)
    requires Follow(rules, flags) && ValidShard(shard) && Distinct(testCases) && OwnTests(views)
    requires |views| == |testCases| == |verdicts|
    requires forall k :: 0 <= k < |testCases| ==> views[k] == CaseView(testCases[k].name, testCases[k].testInfoList)
    requires forall k, x :: 0 <= k < |views| && x in views[k].infos ==> x in tests
    requires forall k {:trigger verdicts[k]} :: 0 <= k < |views| ==>
      verdicts[k] == CaseVerdicts(rules, shard, FlagsUpTo(rules, views, k), views[k])
    modifies testCases, tests
    ensures forall k :: 0 <= k < |testCases| ==> testCases[k].testInfoList == views[k].infos
    ensures forall k {:trigger verdicts[k]} :: 0 <= k < |testCases| ==> CaseCarries(testCases[k], views[k].infos, verdicts[k])
    ensures var row := AllFlags(rules, views); numSelected == SelectedCount(shard, row, |row|)
  {
    ghost var row := FlagsUpTo(rules, views, 0);
    var numRunnable := 0;
    numSelected := 0;
    var i := 0;
    while i < |testCases|
      invariant 0 <= i <= |testCases| && row == FlagsUpTo(rules, views, i)
      invariant forall k :: 0 <= k < |testCases| ==> testCases[k].testInfoList == views[k].infos
      invariant numRunnable == Count(row, |row|) && numSelected == SelectedCount(shard, row, |row|)
      invariant forall k {:trigger verdicts[k]} :: 0 <= k < i ==> CaseCarries(testCases[k], views[k].infos, verdicts[k])
    {
      var t, infos := testCases[i], testCases[i].testInfoList;
      numRunnable, numSelected :=
        JudgeNext(flags, shard, rules, testCases, t, infos, views, verdicts, i, row, numRunnable, numSelected);
      row := row + CaseFlags(rules, views[i]);
      i := i + 1;
    }
  }

  // ----- all shards together -----

  /** Every test that the flags let run is run by exactly one of the shards, and no other test by any. */
  lemma EachTestOnOneShard(rules: Rules, total: int, views: seq<CaseView>, i: nat, j: nat) returns (owner: int)
    requires total >= 1 && i < |views| && j < |views[i].infos|
    ensures 0 <= owner < total
    ensures forall s :: 0 <= s < total ==>
      (AllVerdicts(rules, Some(Shard(total, s)), views)[i][j].shouldRun <==>
       Runnable(rules, views[i].name, views[i].infos[j].name) && s == owner)
  {
    var before := FlagsUpTo(rules, views, i);
    var row := before + CaseFlags(rules, views[i]);
    owner := Count(row, |before| + j) % total;
    ExactlyOneShard(total, row, |before| + j);
  }

  /** The numbers that the shards return add up to the number of tests that the flags let run, and differ by at
  most one. */
  lemma ShardsAddUp(rules: Rules, total: int, views: seq<CaseView>)
    requires total >= 1
    ensures var row := AllFlags(rules, views);
      && SumOverShards(total, total, row, |row|) == Count(row, |row|)
      && forall a, b :: 0 <= a < b < total ==>
           var x, y := SelectedCount(Some(Shard(total, a)), row, |row|), SelectedCount(Some(Shard(total, b)), row, |row|);
           y <= x <= y + 1
  {
    var row := AllFlags(rules, views);
    ShardsSumToRunnable(total, row, |row|);
    forall a, b | 0 <= a < b < total
      ensures var x, y := SelectedCount(Some(Shard(total, a)), row, |row|), SelectedCount(Some(Shard(total, b)), row, |row|);
        y <= x <= y + 1
    {
      SharesAreBalanced(total, a, b, row, |row|);
    }
  }

  // ----- no test at all -----

  lemma {:induction false} CountOfMore(shard: Option<Shard>, row: seq<bool>, n: nat, m: nat)
    requires ValidShard(shard) && n <= m <= |row|
    ensures SelectedCount(shard, row, n) <= SelectedCount(shard, row, m)
  {
    if n < m {
      CountOfMore(shard, row, n, m - 1);
    }
  }

  lemma {:induction false} CountOfFirstCases(rules: Rules, shard: Option<Shard>, views: seq<CaseView>, i: nat, m: nat)
    requires ValidShard(shard) && i <= m <= |views|
    ensures var a, b := FlagsUpTo(rules, views, i), FlagsUpTo(rules, views, m);
      SelectedCount(shard, a, |a|) <= SelectedCount(shard, b, |b|)
  {
    if i < m {
      CountOfFirstCases(rules, shard, views, i, m - 1);
      var row, more := FlagsUpTo(rules, views, m - 1), CaseFlags(rules, views[m - 1]);
      CountsOfLongerRow(shard, row, more, |row|);
      CountOfMore(shard, row + more, |row|, |row + more|);
    }
  }

  lemma CaseVerdictAt(rules: Rules, shard: Option<Shard>, before: seq<bool>, view: CaseView, j: nat, more: seq<bool>)
    requires ValidShard(shard) && j < |view.infos| && more == CaseFlags(rules, view)
    ensures CaseVerdicts(rules, shard, before, view)[j].shouldRun == Selects(shard, before + more, |before| + j)
  {
  }

  lemma VerdictAt(rules: Rules, shard: Option<Shard>, views: seq<CaseView>, i: nat, j: nat, verdict: Verdict,
                  before: seq<bool>, more: seq<bool>)
    requires ValidShard(shard) && i < |views| && j < |views[i].infos| && verdict == AllVerdicts(rules, shard, views)[i][j]
    requires before == FlagsUpTo(rules, views, i) && more == CaseFlags(rules, views[i])
    ensures verdict.shouldRun == Selects(shard, before + more, |before| + j)
  {
    CaseVerdictAt(rules, shard, before, views[i], j, more);
    assert AllVerdicts(rules, shard, views)[i] == CaseVerdicts(rules, shard, before, views[i]);
  }

  /** Without shards, what the flags say of a test is its verdict. */
  lemma UnshardedVerdict(rules: Rules, views: seq<CaseView>, i: nat, j: nat)
    requires i < |views| && j < |views[i].infos|
    ensures AllVerdicts(rules, None, views)[i][j].shouldRun == Runnable(rules, views[i].name, views[i].infos[j].name)
  {
    var before, more := FlagsUpTo(rules, views, i), CaseFlags(rules, views[i]);
    VerdictAt(rules, None, views, i, j, AllVerdicts(rules, None, views)[i][j], before, more);
    assert (before + more)[|before| + j] == more[j];
  }

  lemma {:induction false} NoneOfNone(shard: Option<Shard>, row: seq<bool>, n: nat, k: nat)
    requires ValidShard(shard) && k < n <= |row| && SelectedCount(shard, row, n) == 0
    ensures !Selects(shard, row, k)
  {
    if k < n - 1 {
      NoneOfNone(shard, row, n - 1, k);
    }
  }

  lemma NoneAt(shard: Option<Shard>, before: seq<bool>, more: seq<bool>, j: nat)
    requires ValidShard(shard) && j < |more| && SelectedCount(shard, before + more, |before + more|) == 0
    ensures !Selects(shard, before + more, |before| + j)
  {
    NoneOfNone(shard, before + more, |before + more|, |before| + j);
  }

  lemma NoneInCases(rules: Rules, shard: Option<Shard>, views: seq<CaseView>, i: nat)
    requires ValidShard(shard) && i < |views|
    requires var row := AllFlags(rules, views); SelectedCount(shard, row, |row|) == 0
    ensures var row := FlagsUpTo(rules, views, i) + CaseFlags(rules, views[i]); SelectedCount(shard, row, |row|) == 0
  {
    CountOfFirstCases(rules, shard, views, i + 1, |views|);
  }

  /** If the number of selected tests is 0, no test is selected. */
  lemma NoneSelected(rules: Rules, shard: Option<Shard>, views: seq<CaseView>, i: nat, j: nat)
    requires ValidShard(shard) && i < |views| && j < |views[i].infos|
    requires var row := AllFlags(rules, views); SelectedCount(shard, row, |row|) == 0
    ensures !AllVerdicts(rules, shard, views)[i][j].shouldRun
  {
    var before, more := FlagsUpTo(rules, views, i), CaseFlags(rules, views[i]);
    NoneInCases(rules, shard, views, i);
    NoneAt(shard, before, more, j);
    VerdictAt(rules, shard, views, i, j, AllVerdicts(rules, shard, views)[i][j], before, more);
  }
}
