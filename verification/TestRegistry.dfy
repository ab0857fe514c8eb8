/** The registry of test cases: registration and shuffling (gtest.cc, gtest-internal-inl.h). */
module TestRegistry {
  import opened CStrings
  import opened Sequences
  import opened Shuffling
  import opened TestFilter

  const DEATH_TEST_CASE_FILTER: CString := "*DeathTest:*DeathTest/*"

  // ----- permutations of indices -----

  function Identity(lo: int, hi: int): seq<int>
    requires lo <= hi
  {
    seq(hi - lo, i => lo + i)
  }

  /** `indices[lo..hi]` lists each of `lo`, ..., `hi - 1` once. */
  ghost predicate PermutesRange(indices: seq<int>, lo: int, hi: int) {
    0 <= lo <= hi <= |indices| && multiset(indices[lo..hi]) == multiset(Identity(lo, hi))
  }

  ghost predicate IsPermutation(indices: seq<int>, n: int) {
    |indices| == n <= MAX_RANGE && PermutesRange(indices, 0, n)
  }

  /** The indices below `mid` come first, in some order, and the others after them. */
  ghost predicate TwoBlocks(indices: seq<int>, mid: int) {
    PermutesRange(indices, 0, mid) && PermutesRange(indices, mid, |indices|)
  }

  lemma PermutesRangeBounds(indices: seq<int>, lo: int, hi: int, k: int)
    requires PermutesRange(indices, lo, hi) && lo <= k < hi
    ensures lo <= indices[k] < hi
  {
    assert indices[lo..hi][k - lo] == indices[k];
    assert indices[k] in multiset(indices[lo..hi]);
    assert indices[k] in Identity(lo, hi);
  }

  lemma BlockBounds(indices: seq<int>, mid: int)
    requires TwoBlocks(indices, mid)
    ensures forall k :: 0 <= k < |indices| ==> 0 <= indices[k] < |indices| && (indices[k] < mid <==> k < mid)
  {
    forall k | 0 <= k < |indices|
      ensures 0 <= indices[k] < |indices| && (indices[k] < mid <==> k < mid)
    {
      if k < mid {
        PermutesRangeBounds(indices, 0, mid, k);
      } else {
        PermutesRangeBounds(indices, mid, |indices|, k);
      }
    }
  }

  lemma WholeBlock(indices: seq<int>, n: int)
    requires IsPermutation(indices, n)
    ensures TwoBlocks(indices, n) && InRange(indices, n)
  {
    assert indices[n..n] == [] && Identity(n, n) == [];
    BlockBounds(indices, n);
  }

  function GetElementOr<E>(v: seq<E>, i: int, default: E): E {
    if i < 0 || i >= |v| then default else v[i]
  }

  predicate InRange(indices: seq<int>, n: nat) {
    forall k :: 0 <= k < |indices| ==> 0 <= indices[k] < n
  }

  /** The items that a list of indices names, in its order. */
  ghost function Pick<T>(items: seq<T>, indices: seq<int>): seq<T>
    requires InRange(indices, |items|)
  {
    if indices == [] then [] else [items[indices[0]]] + Pick(items, indices[1..])
  }

  lemma {:induction false} PickAt<T>(items: seq<T>, indices: seq<int>)
    requires InRange(indices, |items|)
    ensures |Pick(items, indices)| == |indices|
    ensures forall k :: 0 <= k < |indices| ==> Pick(items, indices)[k] == items[indices[k]]
  {
    if indices != [] {
      PickAt(items, indices[1..]);
    }
  }

  lemma PickCons<T>(items: seq<T>, x: int, q: seq<int>)
    requires 0 <= x < |items| && InRange(q, |items|)
    ensures InRange([x] + q, |items|) && Pick(items, [x] + q) == [items[x]] + Pick(items, q)
  {
    assert ([x] + q)[1..] == q;
  }

  lemma {:induction false} PickConcat<T>(items: seq<T>, a: seq<int>, b: seq<int>)
    requires InRange(a, |items|) && InRange(b, |items|)
    ensures InRange(a + b, |items|) && Pick(items, a + b) == Pick(items, a) + Pick(items, b)
  {
    if a == [] {
      assert a + b == b;
    } else {
      PickConcat(items, a[1..], b);
      PickCons(items, a[0], a[1..]);
      PickCons(items, a[0], a[1..] + b);
      assert a == [a[0]] + a[1..];
      assert a + b == [a[0]] + (a[1..] + b);
    }
  }

  lemma PickMiddle<T>(items: seq<T>, p: seq<int>, x: int, q: seq<int>)
    requires InRange(p, |items|) && 0 <= x < |items| && InRange(q, |items|)
    ensures InRange(p + q, |items|) && InRange(p + ([x] + q), |items|)
    ensures multiset(Pick(items, p + ([x] + q))) == multiset(Pick(items, p + q)) + multiset{items[x]}
  {
    PickCons(items, x, q);
    PickConcat(items, p, [x] + q);
    PickConcat(items, p, q);
  }

  lemma InRangeParts(p: seq<int>, x: int, q: seq<int>, n: nat)
    requires InRange(p + ([x] + q), n)
    ensures InRange(p, n) && 0 <= x < n && InRange(q, n)
  {
    var b := p + ([x] + q);
    assert b[|p|] == x;
    assert forall k :: 0 <= k < |p| ==> p[k] == b[k];
    assert forall k :: 0 <= k < |q| ==> q[k] == b[|p| + 1 + k];
  }

  /** The picked items depend only on which indices are listed, up to order. */
  lemma {:induction false} PickMultiset<T>(items: seq<T>, a: seq<int>, b: seq<int>)
    requires multiset(a) == multiset(b) && InRange(a, |items|) && InRange(b, |items|)
    ensures multiset(Pick(items, a)) == multiset(Pick(items, b))
  {
    if a == [] {
      assert |multiset(b)| == 0;
    } else {
      assert a == [a[0]] + a[1..];
      var p, q := CutAround(a[0], a[1..], b);
      assert b == p + ([a[0]] + q);
      InRangeParts(p, a[0], q, |items|);
      PickMiddle(items, p, a[0], q);
      PickMultiset(items, a[1..], p + q);
    }
  }

  lemma {:induction false} PickIdentity<T>(items: seq<T>, lo: nat)
    requires lo <= |items|
    ensures Pick(items, Identity(lo, |items|)) == items[lo..]
    decreases |items| - lo
  {
    if lo < |items| {
      PickIdentity(items, lo + 1);
      assert Identity(lo, |items|)[1..] == Identity(lo + 1, |items|);
    }
  }

  // ----- objects -----

  class TestInfo {
    const testCaseName: CString
    const name: CString
    var shouldRun: bool
    var isDisabled: bool
    var matchesFilter: bool

    constructor (testCaseName: CString, name: CString)
      ensures this.testCaseName == testCaseName && this.name == name
    {
      this.testCaseName, this.name := testCaseName, name;
      shouldRun, isDisabled, matchesFilter := false, false, false;
    }
  }

  class TestCase {
    const name: CString
    var testInfoList: seq<TestInfo>
    const testIndices: Vector<int>
    var shouldRun: bool

    constructor (name: CString)
      ensures this.name == name && fresh(testIndices) && testInfoList == [] && testIndices.elems == []
    {
      this.name := name;
      testInfoList, shouldRun := [], false;
      testIndices := new Vector();
    }

    ghost predicate Valid()
      reads this, testIndices
    {
      IsPermutation(testIndices.elems, |testInfoList|)
    }

    /** Valid, with the tests in the order of their registration. */
    ghost predicate Unshuffled()
      reads this, testIndices
    {
      Valid() && testIndices.elems == Identity(0, |testInfoList|)
    }

    /** The tests in the order in which they run. */
    ghost function Tests(): (r: seq<TestInfo>)
      requires Valid()
      reads this, testIndices
      ensures InRange(testIndices.elems, |testInfoList|) && r == Pick(testInfoList, testIndices.elems)
    {
      WholeBlock(testIndices.elems, |testInfoList|);
      Pick(testInfoList, testIndices.elems)
    }

    /** The test that runs in place `i`, or null if there is none. */
    function GetMutableTestInfo(i: int): (t: TestInfo?)
      requires InRange(testIndices.elems, |testInfoList|)
      reads this, testIndices
      ensures t == null <==> !(0 <= i < |testIndices.elems|)
    {
      var index := GetElementOr(testIndices.elems, i, -1);
      if index < 0 then null else testInfoList[index]
    }

    method AddTestInfo(info: TestInfo)
      requires Valid() && |testInfoList| < MAX_RANGE
      modifies this, testIndices
      ensures Valid() && (old(Unshuffled()) ==> Unshuffled())
      ensures testInfoList == old(testInfoList) + [info] && testIndices.elems == old(testIndices.elems) + [|old(testInfoList)|]
      ensures shouldRun == old(shouldRun)
    {
      ghost var n := |testInfoList|;
      testInfoList := testInfoList + [info];
      testIndices.elems := testIndices.elems + [|testIndices.elems|];
      assert testIndices.elems[0..n + 1] == old(testIndices.elems)[0..n] + [n];
      assert Identity(0, n + 1) == Identity(0, n) + [n];
    }

    method ShuffleTests(random: Random)
      requires |testIndices.elems| <= MAX_RANGE
      modifies random, testIndices
      ensures (testIndices.elems, random.state) == ShuffledAll(old(testIndices.elems), old(random.state))
    {
      ShuffleRange(random, 0, |testIndices.elems|, testIndices);
    }

    method UnshuffleTests()
      modifies testIndices
      ensures testIndices.elems == Identity(0, |old(testIndices.elems)|)
    {
      var i := 0;
      while i < |testIndices.elems|
        invariant 0 <= i <= |testIndices.elems| == |old(testIndices.elems)|
        invariant forall k :: 0 <= k < i ==> testIndices.elems[k] == k
      {
        testIndices.elems := testIndices.elems[i := i];
        i := i + 1;
      }
    }
  }

  /** The cases are distinct, with index vectors of their own, and the death test cases, whose names
  `death` recognises, are those up to `last`. */
  ghost predicate InOrder(cases: seq<TestCase>, last: int, death: string -> bool) {
    && -1 <= last < |cases|
    && (forall k :: 0 <= k < |cases| ==> (death(cases[k].name) <==> k <= last))
    && (forall i, j :: 0 <= i < j < |cases| ==> cases[i].name != cases[j].name)
    && OwnVectors(cases)
  }

  ghost predicate OwnVectors(cases: seq<TestCase>) {
    forall i, j :: 0 <= i < j < |cases| ==> cases[i].testIndices != cases[j].testIndices
  }

  function InsertAt<T>(s: seq<T>, at: int, x: T): seq<T>
    requires 0 <= at <= |s|
  {
    s[..at] + [x] + s[at..]
  }

  lemma InsertAtElements<T>(s: seq<T>, at: int, x: T)
    requires 0 <= at <= |s|
    ensures |InsertAt(s, at, x)| == |s| + 1 && InsertAt(s, at, x)[at] == x
    ensures forall k :: 0 <= k < at ==> InsertAt(s, at, x)[k] == s[k]
    ensures forall k :: at < k <= |s| ==> InsertAt(s, at, x)[k] == s[k - 1]
  {
  }

  /** A new death test case goes after the last one, any other case to the end. */
  lemma InsertionKeepsOrder(cases: seq<TestCase>, last: int, death: string -> bool, t: TestCase, at: int)
    requires InOrder(cases, last, death)
    requires at == if death(t.name) then last + 1 else |cases|
    requires forall k :: 0 <= k < |cases| ==> cases[k].name != t.name && cases[k].testIndices != t.testIndices
    ensures InOrder(InsertAt(cases, at, t), if death(t.name) then last + 1 else last, death)
  {
    InsertAtElements(cases, at, t);
  }

  lemma DeathTestsFirst(cases: seq<TestCase>, last: int, death: string -> bool, indices: seq<int>, order: seq<TestCase>)
    requires InOrder(cases, last, death) && |order| == |indices| == |cases|
    requires forall k :: 0 <= k < |indices| ==> 0 <= indices[k] < |cases| && (indices[k] <= last <==> k <= last)
    requires forall k :: 0 <= k < |order| ==> order[k] == cases[indices[k]]
    ensures forall i, j :: 0 <= i < j < |order| && death(order[j].name) ==> death(order[i].name)
  {
    assert forall k :: 0 <= k < |order| ==> (death(order[k].name) <==> k <= last);
  }

  /** A test case, as far as filters and shuffles do not change it. */
  datatype CaseView = CaseView(name: CString, infos: seq<TestInfo>)

  ghost predicate Show(views: seq<CaseView>, cases: seq<TestCase>)
    reads cases`testInfoList
  {
    |views| == |cases| && forall k :: 0 <= k < |views| ==> views[k] == CaseView(cases[k].name, cases[k].testInfoList)
  }

  ghost function Views(cases: seq<TestCase>): (r: seq<CaseView>)
    reads cases`testInfoList
    ensures Show(r, cases)
  {
    if cases == [] then [] else [CaseView(cases[0].name, cases[0].testInfoList)] + Views(cases[1..])
  }

  /** Every test is registered once. */
  ghost predicate OwnTests(views: seq<CaseView>) {
    && (forall i :: 0 <= i < |views| ==> Distinct(views[i].infos))
    && forall i, j :: 0 <= i < j < |views| ==> Apart(views[i].infos, views[j].infos)
  }

  /** The tests of a case carry its name. */
  ghost predicate Named(views: seq<CaseView>) {
    forall i, x :: 0 <= i < |views| && x in views[i].infos ==> x.testCaseName == views[i].name
  }

  /** The first case of the given name, or the number of cases. */
  ghost function Find(views: seq<CaseView>, name: string): (k: nat)
    ensures k <= |views| && (k < |views| ==> views[k].name == name)
    ensures forall i :: 0 <= i < k ==> views[i].name != name
  {
    if views == [] || views[0].name == name then 0 else 1 + Find(views[1..], name)
  }

  /** The registry with one more test; its case, if new, comes at `at`. */
  ghost function WithTest(views: seq<CaseView>, at: nat, info: TestInfo): seq<CaseView>
    requires at <= |views|
  {
    var k := Find(views, info.testCaseName);
    if k < |views| then views[k := CaseView(views[k].name, views[k].infos + [info])]
    else InsertAt(views, at, CaseView(info.testCaseName, [info]))
  }

  /** A test that is not registered yet. */
  ghost predicate IsNew(views: seq<CaseView>, info: TestInfo) {
    forall i :: 0 <= i < |views| ==> info !in views[i].infos
  }

  lemma WithTestKeepsPlaces(views: seq<CaseView>, at: nat, info: TestInfo)
    requires at <= |views| && OwnTests(views) && Named(views) && IsNew(views, info)
    ensures OwnTests(WithTest(views, at, info)) && Named(WithTest(views, at, info))
  {
    var k := Find(views, info.testCaseName);
    if k < |views| {
      LongerCaseKeepsPlaces(views, k, info);
    } else {
      InsertAtElements(views, at, CaseView(info.testCaseName, [info]));
    }
  }

  lemma LongerCaseKeepsPlaces(views: seq<CaseView>, k: nat, info: TestInfo)
    requires k < |views| && OwnTests(views) && Named(views) && IsNew(views, info) && views[k].name == info.testCaseName
    ensures var now := views[k := CaseView(views[k].name, views[k].infos + [info])]; OwnTests(now) && Named(now)
  {
    var infos := views[k].infos + [info];
    assert Distinct(infos) && forall x :: x in infos <==> x in views[k].infos || x == info;
  }

  lemma FindAmong(cases: seq<TestCase>, name: string)
    ensures Find(Views(cases), name) < |cases| <==> exists k :: 0 <= k < |cases| && cases[k].name == name
  {
    var views := Views(cases);
    assert forall i :: 0 <= i < |cases| ==> cases[i].name == views[i].name;
    var k := Find(views, name);
    assert k < |cases| ==> cases[k].name == name;
  }

  /** What `GetTestCase` makes of the cases. */
  lemma ViewsAfterLookup(was: seq<TestCase>, now: seq<TestCase>, at: nat, name: CString, t: TestCase)
    requires at <= |was|
    requires if exists k :: 0 <= k < |was| && was[k].name == name then now == was
             else now == InsertAt(was, at, t) && t.name == name && t.testInfoList == []
    ensures var views := Views(was);
      Views(now) == if Find(views, name) < |views| then views else InsertAt(views, at, CaseView(name, []))
  {
    FindAmong(was, name);
    if Find(Views(was), name) == |was| {
      ViewsOfInsert(was, at, t);
    }
  }

  lemma ViewsOfInsert(cases: seq<TestCase>, at: nat, t: TestCase)
    requires at <= |cases|
    ensures Views(InsertAt(cases, at, t)) == InsertAt(Views(cases), at, CaseView(t.name, t.testInfoList))
  {
    InsertedShow(cases, Views(cases), at, t);
    ShownOnce(InsertAt(cases, at, t), Views(InsertAt(cases, at, t)), InsertAt(Views(cases), at, CaseView(t.name, t.testInfoList)));
  }

  lemma InsertedShow(cases: seq<TestCase>, views: seq<CaseView>, at: nat, t: TestCase)
    requires at <= |cases| && Show(views, cases)
    ensures Show(InsertAt(views, at, CaseView(t.name, t.testInfoList)), InsertAt(cases, at, t))
  {
    InsertAtElements(cases, at, t);
    InsertAtElements(views, at, CaseView(t.name, t.testInfoList));
  }

  lemma ShownOnce(cases: seq<TestCase>, a: seq<CaseView>, b: seq<CaseView>)
    requires Show(a, cases) && Show(b, cases)
    ensures a == b
  {
  }

  lemma MembersOfInsert<T>(s: seq<T>, at: nat, x: T)
    requires at <= |s|
    ensures forall y :: y in InsertAt(s, at, x) <==> y in s || y == x
  {
    assert s == s[..at] + s[at..];
  }

  lemma InsertThenUpdate<T>(s: seq<T>, at: nat, x: T, y: T)
    requires at <= |s|
    ensures InsertAt(s, at, x)[at := y] == InsertAt(s, at, y)
  {
  }

  /** After its case was looked up or created, the test goes there. */
  lemma ViewOfCase(views: seq<CaseView>, at: nat, now: seq<CaseView>, k: nat, info: TestInfo)
    requires at <= |views| && k < |now| && now[k].name == info.testCaseName
    requires forall i, j :: 0 <= i < j < |now| ==> now[i].name != now[j].name
    requires now == if Find(views, info.testCaseName) < |views| then views else InsertAt(views, at, CaseView(info.testCaseName, []))
    requires forall i :: 0 <= i < |views| ==> |views[i].infos| < MAX_RANGE
    ensures now[k := CaseView(info.testCaseName, now[k].infos + [info])] == WithTest(views, at, info)
    ensures |now[k].infos| < MAX_RANGE
  {
    var f := Find(views, info.testCaseName);
    if f < |views| {
      assert f == k;
    } else {
      var empty := CaseView(info.testCaseName, []);
      InsertAtElements(views, at, empty);
      assert k == at && now[k] == empty && [] + [info] == [info];
      InsertThenUpdate(views, at, empty, CaseView(info.testCaseName, [info]));
    }
  }

  lemma EmptyIsUnshuffled(t: TestCase)
    requires t.testInfoList == [] && t.testIndices.elems == []
    ensures t.Unshuffled()
  {
  }

  class UnitTestImpl {
    var testCases: seq<TestCase>
    const testCaseIndices: Vector<int>
    const deathTestCaseFilter: CString
    /** What the filter says of a name. */
    ghost const isDeathTest: string -> bool
    var lastDeathTestCase: int
    const random: Random

    constructor ()
      ensures Registering() && testCases == [] && fresh(testCaseIndices) && fresh(random)
      ensures deathTestCaseFilter == DEATH_TEST_CASE_FILTER
    {
      isDeathTest := (name: string) => FilterAccepts(DEATH_TEST_CASE_FILTER, name);
      deathTestCaseFilter := DEATH_TEST_CASE_FILTER;
      testCases, lastDeathTestCase := [], -1;
      testCaseIndices := new Vector();
      random := new Random(0);
    }

    ghost predicate Valid()
      reads this, testCaseIndices, testCases, set t | t in testCases :: t.testIndices
    {
      && Registered()
      && TwoBlocks(testCaseIndices.elems, lastDeathTestCase + 1)
      && forall k :: 0 <= k < |testCases| ==> testCases[k].Valid()
    }

    ghost predicate KnowsDeathTests() {
      match (deathTestCaseFilter, isDeathTest)
      case (filter, death) => forall name {:trigger FilterAccepts(filter, name)} :: death(name) == FilterAccepts(filter, name)
    }

    /** The part of the invariant that shuffling does not touch. */
    ghost predicate Registered()
      reads this, testCaseIndices
    {
      && KnowsDeathTests() && |testCaseIndices.elems| == |testCases| <= MAX_RANGE
      && InOrder(testCases, lastDeathTestCase, isDeathTest)
      && forall k :: 0 <= k < |testCases| ==> testCases[k].testIndices != testCaseIndices
    }

    ghost predicate Unshuffled()
      reads this, testCaseIndices
    {
      testCaseIndices.elems == Identity(0, |testCases|)
    }

    /** The state while tests are being registered, before any shuffle. */
    ghost predicate Registering()
      reads this, testCaseIndices, testCases, set t | t in testCases :: t.testIndices
    {
      Registered() && Unshuffled() && forall k :: 0 <= k < |testCases| ==> testCases[k].Unshuffled()
    }

    lemma RegisteringIsValid()
      requires Registering()
      ensures Valid()
    {
      IdentityPermutes(|testCases|, lastDeathTestCase + 1);
    }

    /** `std::find_if`: the position of the case of the given name, or the number of cases. */
    method FindTestCase(name: CString) returns (k: nat)
      ensures k <= |testCases| && (k < |testCases| ==> testCases[k].name == name)
      ensures forall i :: 0 <= i < k ==> testCases[i].name != name
    {
      k := 0;
      while k < |testCases|
        invariant k <= |testCases|
        invariant forall i :: 0 <= i < k ==> testCases[i].name != name
      {
        if testCases[k].name == name {
          return;
        }
        k := k + 1;
      }
    }

    /** Inserts a new death test case after the last one, and appends any other case. */
    method Insert(t: TestCase)
      requires Registered() && Unshuffled() && |testCases| < MAX_RANGE && t.testIndices != testCaseIndices
      requires forall k :: 0 <= k < |testCases| ==> testCases[k].name != t.name && testCases[k].testIndices != t.testIndices
      modifies this, testCaseIndices
      ensures Registered() && Unshuffled()
      ensures var death := isDeathTest(t.name);
        var at := if death then old(lastDeathTestCase) + 1 else |old(testCases)|;
        && testCases == InsertAt(old(testCases), at, t)
        && lastDeathTestCase == old(lastDeathTestCase) + if death then 1 else 0
    {
      var death := MatchesFilter(t.name, deathTestCaseFilter);
      InsertionKeepsOrder(testCases, lastDeathTestCase, isDeathTest, t,
                          if death then lastDeathTestCase + 1 else |testCases|);
      if death {
        lastDeathTestCase := lastDeathTestCase + 1;
        testCases := testCases[..lastDeathTestCase] + [t] + testCases[lastDeathTestCase..];
      } else {
        assert InsertAt(testCases, |testCases|, t) == testCases + [t];
        testCases := testCases + [t];
      }
      testCaseIndices.elems := testCaseIndices.elems + [|testCaseIndices.elems|];
    }

    /** Where a new case of this name goes: after the last death test case, or to the end. */
    ghost function PlaceFor(name: string): nat
      requires -1 <= lastDeathTestCase < |testCases|
      reads this
    {
      if isDeathTest(name) then lastDeathTestCase + 1 else |testCases|
    }

    /** The case of the given name, created if there is none.  To be called before any shuffle only. */
    method GetTestCase(name: CString) returns (t: TestCase)
      requires Registering() && |testCases| < MAX_RANGE
      modifies this, testCaseIndices
      ensures Registering()
      ensures t in testCases && t.name == name
      ensures forall c :: c in testCases ==> c in old(testCases) || (fresh(c) && fresh(c.testIndices))
      ensures if exists k :: 0 <= k < |old(testCases)| && old(testCases)[k].name == name
        then testCases == old(testCases) && lastDeathTestCase == old(lastDeathTestCase)
        else
          var death := isDeathTest(name);
          var at := if death then old(lastDeathTestCase) + 1 else |old(testCases)|;
          && fresh(t) && fresh(t.testIndices) && t.testInfoList == []
          && testCases == InsertAt(old(testCases), at, t)
          && lastDeathTestCase == old(lastDeathTestCase) + if death then 1 else 0
    {
      var k := FindTestCase(name);
      if k < |testCases| {
        t := testCases[k];
      } else {
        t := CreateTestCase(name);
      }
    }

    /** A new case of a name that no other has. */
    method CreateTestCase(name: CString) returns (t: TestCase)
      requires Registering() && |testCases| < MAX_RANGE && forall k :: 0 <= k < |testCases| ==> testCases[k].name != name
      modifies this, testCaseIndices
      ensures Registering() && fresh(t) && fresh(t.testIndices) && t.name == name && t.testInfoList == []
      ensures var death := isDeathTest(name);
        && testCases == InsertAt(old(testCases), if death then old(lastDeathTestCase) + 1 else |old(testCases)|, t)
        && lastDeathTestCase == old(lastDeathTestCase) + if death then 1 else 0
      ensures forall c :: c in testCases <==> c in old(testCases) || c == t
    {
      ghost var was := testCases;
      t := new TestCase(name);
      MembersOfInsert(testCases, if isDeathTest(name) then lastDeathTestCase + 1 else |testCases|, t);
      EmptyIsUnshuffled(t);
      Insert(t);
      forall k | 0 <= k < |testCases| ensures testCases[k].Unshuffled() {
        assert testCases[k] in was || testCases[k] == t;
      }
    }

    /** Registers a test with its case. */
    method AddTestInfo(info: TestInfo)
      requires Registering() && |testCases| < MAX_RANGE
      requires var views := Views(testCases); forall k :: 0 <= k < |views| ==> |views[k].infos| < MAX_RANGE
      modifies this, testCaseIndices, testCases, set t | t in testCases :: t.testIndices
      ensures Registering()
      ensures Views(testCases) == WithTest(old(Views(testCases)), old(PlaceFor(info.testCaseName)), info)
      ensures forall c :: c in testCases ==> c in old(testCases) || (fresh(c) && fresh(c.testIndices))
    {
      ghost var views, at, k := Views(testCases), PlaceFor(info.testCaseName), 0;
      var t;
      t, k := GetTestCaseAt(info.testCaseName);
      ViewOfCase(views, at, Views(testCases), k, info);
      AddTo(t, info, k);
    }

    /** `GetTestCase`, with the place of the case. */
    method GetTestCaseAt(name: CString) returns (t: TestCase, ghost k: nat)
      requires Registering() && |testCases| < MAX_RANGE
      modifies this, testCaseIndices
      ensures Registering()
      ensures k < |testCases| && testCases[k] == t && t.name == name
      ensures forall c :: c in testCases ==> c in old(testCases) || (fresh(c) && fresh(c.testIndices))
      ensures var views := old(Views(testCases));
        Views(testCases) ==
          if Find(views, name) < |views| then views else InsertAt(views, old(PlaceFor(name)), CaseView(name, []))
    {
      ghost var was, views, at := testCases, Views(testCases), PlaceFor(name);
      t := GetTestCase(name);
      k :| 0 <= k < |testCases| && testCases[k] == t;
      assert Show(views, was);
      ShownOnce(was, Views(was), views);
      ViewsAfterLookup(was, testCases, at, name, t);
    }

    method AddTo(t: TestCase, info: TestInfo, ghost k: nat)
      requires Registering() && k < |testCases| && t == testCases[k] && |t.testInfoList| < MAX_RANGE
      modifies t, t.testIndices
      ensures Registering()
      ensures Views(testCases) == old(Views(testCases))[k := CaseView(t.name, old(t.testInfoList) + [info])]
    {
      ghost var now := Views(testCases)[k := CaseView(t.name, t.testInfoList + [info])];
      assert forall i :: 0 <= i < |testCases| && i != k ==> testCases[i] != t && testCases[i].testIndices != t.testIndices;
      t.AddTestInfo(info);
      forall i | 0 <= i < |testCases|
        ensures testCases[i].Unshuffled()
      {
        assert i != k ==> old(testCases[i].Unshuffled());
      }
      assert Show(now, testCases);
      ShownOnce(testCases, Views(testCases), now);
    }

    /** The case that runs in place `i`, or null if there is none. */
    function GetMutableTestCase(i: int): (t: TestCase?)
      requires InRange(testCaseIndices.elems, |testCases|)
      reads this, testCaseIndices
      ensures t == null <==> !(0 <= i < |testCaseIndices.elems|)
    {
      var index := GetElementOr(testCaseIndices.elems, i, -1);
      if index < 0 then null else testCases[index]
    }

    /** The overload for constant objects, which the reports use: it tests the permuted index but then uses `i`. */
    function GetTestCaseConst(i: int): (t: TestCase?)
      requires InRange(testCaseIndices.elems, |testCases|) && |testCaseIndices.elems| == |testCases|
      reads this, testCaseIndices
    {
      var index := GetElementOr(testCaseIndices.elems, i, -1);
      if index < 0 then null else testCases[i]
    }

    /** So the overloads agree on place `i` exactly if the shuffle left it alone. */
    lemma OverloadsAgreeAtFixedPoints(i: int)
      requires Valid() && 0 <= i < |testCases|
      ensures InRange(testCaseIndices.elems, |testCases|)
      ensures GetTestCaseConst(i) == GetMutableTestCase(i) <==> testCaseIndices.elems[i] == i
    {
      BlockBounds(testCaseIndices.elems, lastDeathTestCase + 1);
      var k := testCaseIndices.elems[i];
      assert k != i ==> testCases[k].name != testCases[i].name;
    }

    /** The loop over the cases of a run. */
    method CasesInTurn() returns (order: seq<TestCase>)
      requires |testCaseIndices.elems| == |testCases| && InRange(testCaseIndices.elems, |testCases|)
      ensures |order| == |testCases|
      ensures forall k :: 0 <= k < |order| ==> order[k] == testCases[testCaseIndices.elems[k]]
    {
      order := [];
      var i := 0;
      while i < |testCases|
        invariant 0 <= i <= |testCases| && |order| == i
        invariant forall k :: 0 <= k < i ==> order[k] == testCases[testCaseIndices.elems[k]]
      {
        order := order + [GetMutableTestCase(i)];
        i := i + 1;
      }
    }

    /** A run visits every case once, and no death test case after another case. */
    method RunOrder() returns (order: seq<TestCase>)
      requires Valid()
      ensures multiset(order) == multiset(testCases) && forall t :: t in order ==> t in testCases && t.Valid()
      ensures forall i, j :: 0 <= i < j < |order| && isDeathTest(order[j].name) ==>
                             isDeathTest(order[i].name)
      ensures Unshuffled() ==> order == testCases
      ensures InRange(testCaseIndices.elems, |testCases|) && order == Pick(testCases, testCaseIndices.elems)
    {
      BlockBounds(testCaseIndices.elems, lastDeathTestCase + 1);
      order := CasesInTurn();
      ListedByPermutation(testCases, testCaseIndices.elems, lastDeathTestCase + 1, order);
      DeathTestsFirst(testCases, lastDeathTestCase, isDeathTest, testCaseIndices.elems, order);
      SameMembers(order, testCases);
    }

    /** Shuffles the death test cases among themselves, and then the other cases. */
    method ShuffleTestCases()
      requires Registered()
      modifies random, testCaseIndices
      ensures Registered() && (testCaseIndices.elems, random.state) ==
                ShuffledBlocks(old(testCaseIndices.elems), old(random.state), lastDeathTestCase + 1)
    {
      ShuffleRange(random, 0, lastDeathTestCase + 1, testCaseIndices);
      ShuffleRange(random, lastDeathTestCase + 1, |testCases|, testCaseIndices);
    }

    /** ... which keeps the registry valid. */
    method ShuffleValidBlocks()
      requires Valid()
      modifies random, testCaseIndices
      ensures Registered() && TwoBlocks(testCaseIndices.elems, lastDeathTestCase + 1)
      ensures forall k :: 0 <= k < |testCases| ==> testCases[k].Valid()
      ensures forall k :: 0 <= k < |testCases| ==> testCases[k].testIndices.elems == old(testCases[k].testIndices.elems)
      ensures (testCaseIndices.elems, random.state) ==
              ShuffledBlocks(old(testCaseIndices.elems), old(random.state), lastDeathTestCase + 1)
    {
      BlocksStayBlocks(testCaseIndices.elems, random.state, lastDeathTestCase + 1);
      ShuffleTestCases();
    }

    /** Shuffles the tests inside each case: `states` is the generator's state before and after each. */
    method ShuffleEachCase() returns (ghost states: seq<nat>)
      requires OwnVectors(testCases)
      requires forall k :: 0 <= k < |testCases| ==> |testCases[k].testIndices.elems| <= MAX_RANGE
      modifies random, set t | t in testCases :: t.testIndices
      ensures |states| == |testCases| + 1 && states[0] == old(random.state) && states[|testCases|] == random.state
      ensures forall k {:trigger testCases[k]} :: 0 <= k < |testCases| ==>
        (testCases[k].testIndices.elems, states[k + 1]) == ShuffledAll(old(testCases[k].testIndices.elems), states[k])
    {
      states := [random.state];
      var i := 0;
      while i < |testCases|
        invariant 0 <= i <= |testCases| && |states| == i + 1
        invariant states[i] == random.state && states[0] == old(random.state)
        invariant forall k :: i <= k < |testCases| ==> testCases[k].testIndices.elems == old(testCases[k].testIndices.elems)
        invariant forall k {:trigger testCases[k]} :: 0 <= k < i ==>
          (testCases[k].testIndices.elems, states[k + 1]) == ShuffledAll(old(testCases[k].testIndices.elems), states[k])
      {
        testCases[i].ShuffleTests(random);
        states := states + [random.state];
        i := i + 1;
      }
    }

    /** ... which keeps the cases valid. */
    method ShuffleValidCases() returns (ghost states: seq<nat>)
      requires OwnVectors(testCases) && forall k :: 0 <= k < |testCases| ==> testCases[k].Valid()
      modifies random, set t | t in testCases :: t.testIndices
      ensures forall k :: 0 <= k < |testCases| ==> testCases[k].Valid()
      ensures |states| == |testCases| + 1 && states[0] == old(random.state) && states[|testCases|] == random.state
      ensures forall k {:trigger testCases[k]} :: 0 <= k < |testCases| ==>
        (testCases[k].testIndices.elems, states[k + 1]) == ShuffledAll(old(testCases[k].testIndices.elems), states[k])
    {
      assert forall k :: 0 <= k < |testCases| ==> IsPermutation(testCases[k].testIndices.elems, |testCases[k].testInfoList|);
      states := ShuffleEachCase();
      forall k | 0 <= k < |testCases|
        ensures testCases[k].Valid()
      {
        var was := old(testCases[k].testIndices.elems);
        assert (testCases[k].testIndices.elems, states[k + 1]) == ShuffledAll(was, states[k]);
        BlockStaysBlock(was, |testCases[k].testInfoList|, states[k]);
      }
    }

    /** Shuffles the death test cases, the other cases, and the tests of each case, drawing on one generator. */
    method ShuffleTests() returns (ghost states: seq<nat>)
      requires Valid()
      modifies random, testCaseIndices, set t | t in testCases :: t.testIndices
      ensures Valid()
      ensures |states| == |testCases| + 1 && states[|testCases|] == random.state
      ensures (testCaseIndices.elems, states[0]) ==
              ShuffledBlocks(old(testCaseIndices.elems), old(random.state), lastDeathTestCase + 1)
      ensures forall k {:trigger testCases[k]} :: 0 <= k < |testCases| ==>
        (testCases[k].testIndices.elems, states[k + 1]) == ShuffledAll(old(testCases[k].testIndices.elems), states[k])
    {
      ShuffleValidBlocks();
      ghost var indices := testCaseIndices.elems;
      states := ShuffleValidCases();
      assert testCaseIndices.elems == indices;
      ConcludeValid(indices);
    }

    lemma ConcludeValid(indices: seq<int>)
      requires Registered() && testCaseIndices.elems == indices && TwoBlocks(indices, lastDeathTestCase + 1)
      requires forall k :: 0 <= k < |testCases| ==> testCases[k].Valid()
      ensures Valid()
    {
    }

    /** Restores the order before the first shuffle. */
    method UnshuffleTests()
      requires Valid()
      modifies testCaseIndices, set t | t in testCases :: t.testIndices
      ensures Registering()
    {
      ResetIndices();
      forall k | 0 <= k < |testCases|
        ensures testCases[k].Unshuffled()
      {
        IdentityPermutes(|testCases[k].testInfoList|, 0);
      }
    }

    /** The loop of `UnshuffleTests`. */
    method ResetIndices()
      requires OwnVectors(testCases) && |testCaseIndices.elems| == |testCases|
      requires forall k :: 0 <= k < |testCases| ==> testCases[k].testIndices != testCaseIndices
      modifies testCaseIndices, set t | t in testCases :: t.testIndices
      ensures testCaseIndices.elems == Identity(0, |testCases|)
      ensures forall k :: 0 <= k < |testCases| ==>
                testCases[k].testIndices.elems == Identity(0, |old(testCases[k].testIndices.elems)|)
    {
      var i := 0;
      while i < |testCases|
        invariant 0 <= i <= |testCases| == |testCaseIndices.elems|
        invariant forall k :: 0 <= k < i ==> testCaseIndices.elems[k] == k
        invariant forall k :: i <= k < |testCases| ==> testCases[k].testIndices.elems == old(testCases[k].testIndices.elems)
        invariant forall k :: 0 <= k < i ==>
          testCases[k].testIndices.elems == Identity(0, |old(testCases[k].testIndices.elems)|)
      {
        testCases[i].UnshuffleTests();
        testCaseIndices.elems := testCaseIndices.elems[i := i];
        i := i + 1;
      }
    }
  }

  /** A vector shuffled as a whole, and the generator's state after it. */
  ghost function ShuffledAll(indices: seq<int>, state: nat): (seq<int>, nat) {
    Shuffled(indices, state, 0, |indices|)
  }

  /** The two blocks shuffled one after the other. */
  ghost function ShuffledBlocks(indices: seq<int>, state: nat, mid: nat): (seq<int>, nat)
    requires mid <= |indices|
  {
    var (first, next) := Shuffled(indices, state, 0, mid);
    Shuffled(first, next, mid, |indices| - mid)
  }

  /** Two cases, neither of them a death test case, change places with the state 1; then the overloads of `GetTestCase`
  disagree on both. */
  lemma ShuffleParts()
    ensures ShuffledBlocks(Identity(0, 2), 1, 0).0 == [1, 0]
  {
    assert Identity(0, 2) == [0, 1];
    ShuffleMoves(0, 1);
  }

  lemma BlockStaysBlock(indices: seq<int>, n: int, state: nat)
    requires IsPermutation(indices, n)
    ensures IsPermutation(ShuffledAll(indices, state).0, n)
  {
    ShuffledByDraws(indices, state, 0, |indices|);
    RangeIsPermuted(indices, ShuffledAll(indices, state).0, 0, |indices|);
  }

  /** Shuffling each block keeps it a permutation. */
  lemma BlocksStayBlocks(indices: seq<int>, state: nat, mid: nat)
    requires TwoBlocks(indices, mid)
    ensures TwoBlocks(ShuffledBlocks(indices, state, mid).0, mid)
  {
    var (first, next) := Shuffled(indices, state, 0, mid);
    ShuffledByDraws(indices, state, 0, mid);
    ShuffledByDraws(first, next, mid, |indices| - mid);
    RearrangedHalves(indices, first, Shuffled(first, next, mid, |indices| - mid).0, mid);
  }

  /** Rearranging the two blocks one after the other keeps each of them a permutation. */
  lemma RearrangedHalves(a: seq<int>, b: seq<int>, c: seq<int>, mid: nat)
    requires TwoBlocks(a, mid)
    requires Rearranges(a, b, 0, mid) && Rearranges(b, c, mid, |a|)
    ensures TwoBlocks(c, mid)
  {
    RangeIsPermuted(a, b, 0, mid);
    RangeIsPermuted(b, c, mid, |a|);
    assert b[mid..|a|] == a[mid..|a|];
    assert c[0..mid] == b[0..mid];
  }

  /** Items listed by a permutation of their indices are the same items. */
  lemma ListedByPermutation<T>(items: seq<T>, indices: seq<int>, mid: nat, order: seq<T>)
    requires TwoBlocks(indices, mid)
    requires InRange(indices, |items|) && |order| == |indices| == |items|
    requires forall k :: 0 <= k < |order| ==> order[k] == items[indices[k]]
    ensures multiset(order) == multiset(items) && order == Pick(items, indices)
    ensures indices == Identity(0, |items|) ==> order == items
  {
    PickAt(items, indices);
    assert order == Pick(items, indices);
    WholePermutation(indices, mid);
    PickMultiset(items, indices, Identity(0, |items|));
    PickIdentity(items, 0);
  }

  lemma IdentityPermutes(n: nat, mid: nat)
    requires mid <= n
    ensures TwoBlocks(Identity(0, n), mid)
  {
    assert Identity(0, n)[0..mid] == Identity(0, mid);
    assert Identity(0, n)[mid..n] == Identity(mid, n);
  }

  lemma WholePermutation(indices: seq<int>, mid: nat)
    requires TwoBlocks(indices, mid)
    ensures multiset(indices) == multiset(Identity(0, |indices|))
  {
    assert indices == indices[0..mid] + indices[mid..|indices|];
    assert Identity(0, |indices|) == Identity(0, mid) + Identity(mid, |indices|);
  }
}
