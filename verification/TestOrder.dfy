/** In which order tests run (gtest.cc). */
module TestOrder {
  import opened Sequences
  import opened Shuffling
  import opened TestRegistry

  /** The order of the cases, and that of each case's tests, as indices. */
  datatype Order = Order(cases: seq<int>, tests: seq<seq<int>>)

  ghost predicate Fits(order: Order, views: seq<CaseView>) {
    && |order.tests| == |views| && InRange(order.cases, |views|)
    && forall k :: 0 <= k < |views| ==> InRange(order.tests[k], |views[k].infos|)
  }

  /** The tests of the first `n` cases in the order. */
  ghost function TestsUpTo(views: seq<CaseView>, order: Order, n: nat): seq<TestInfo>
    requires Fits(order, views) && n <= |order.cases|
  {
    if n == 0 then []
    else
      var c := order.cases[n - 1];
      TestsUpTo(views, order, n - 1) + Pick(views[c].infos, order.tests[c])
  }

  ghost function TestsIn(views: seq<CaseView>, order: Order): seq<TestInfo>
    requires Fits(order, views)
  {
    TestsUpTo(views, order, |order.cases|)
  }

  // ----- the order of the registration -----

  /** The number of cases up to the first one that is no death test case. */
  ghost function DeathCases(views: seq<CaseView>, death: string -> bool): (n: nat)
    ensures n <= |views|
  {
    if views == [] || !death(views[0].name) then 0 else 1 + DeathCases(views[1..], death)
  }

  /** The cases after registering the tests: a new case goes after the last death test case if it is one, and to the end
  otherwise. */
  ghost function Registered(infos: seq<TestInfo>, death: string -> bool): seq<CaseView> {
    if infos == [] then []
    else
      var views, info := Registered(infos[..|infos| - 1], death), infos[|infos| - 1];
      WithTest(views, if death(info.testCaseName) then DeathCases(views, death) else |views|, info)
  }

  lemma RegisteredSnoc(infos: seq<TestInfo>, info: TestInfo, death: string -> bool)
    ensures var views := Registered(infos, death);
      Registered(infos + [info], death) ==
        WithTest(views, if death(info.testCaseName) then DeathCases(views, death) else |views|, info)
  {
    assert (infos + [info])[..|infos|] == infos;
  }

  lemma {:induction false} DeathCasesAre(views: seq<CaseView>, death: string -> bool, n: nat)
    requires n <= |views| && forall k :: 0 <= k < |views| ==> (death(views[k].name) <==> k < n)
    ensures DeathCases(views, death) == n
  {
    if n > 0 {
      DeathCasesAre(views[1..], death, n - 1);
    }
  }

  /** In the order of the registration, the death test cases are the first ones. */
  lemma {:induction false} DeathCasesFirst(views: seq<CaseView>, death: string -> bool)
    requires forall i, j :: 0 <= i < j < |views| && death(views[j].name) ==> death(views[i].name)
    ensures forall k :: 0 <= k < |views| ==> (death(views[k].name) <==> k < DeathCases(views, death))
  {
    if views != [] && death(views[0].name) {
      DeathCasesFirst(views[1..], death);
      assert forall k :: 0 < k < |views| ==> views[k] == views[1..][k - 1];
    }
  }

  /** The tests of the case of this name, in their order. */
  ghost function OfCase(infos: seq<TestInfo>, name: string): seq<TestInfo> {
    if infos == [] then []
    else
      var n := |infos| - 1;
      OfCase(infos[..n], name) + if infos[n].testCaseName == name then [infos[n]] else []
  }

  /** The place of the first test of the case of this name, or the number of tests. */
  ghost function FirstOf(infos: seq<TestInfo>, name: string): nat {
    if infos == [] || infos[0].testCaseName == name then 0 else 1 + FirstOf(infos[1..], name)
  }

  lemma OfCaseSnoc(infos: seq<TestInfo>, info: TestInfo, name: string)
    ensures OfCase(infos + [info], name) == OfCase(infos, name) + if info.testCaseName == name then [info] else []
  {
    assert (infos + [info])[..|infos|] == infos;
  }

  lemma {:induction false} FirstOfSnoc(infos: seq<TestInfo>, info: TestInfo, name: string)
    ensures var k := FirstOf(infos, name);
      && k <= |infos|
      && FirstOf(infos + [info], name) == if k < |infos| || info.testCaseName == name then k else |infos| + 1
  {
    if infos != [] && infos[0].testCaseName != name {
      FirstOfSnoc(infos[1..], info, name);
      assert (infos + [info])[1..] == infos[1..] + [info];
    }
  }

  lemma {:induction false} NoneOfCase(infos: seq<TestInfo>, name: string)
    requires FirstOf(infos, name) >= |infos|
    ensures OfCase(infos, name) == []
  {
    if infos != [] {
      var n := |infos| - 1;
      assert infos == infos[..n] + [infos[n]];
      FirstOfSnoc(infos[..n], infos[n], name);
      NoneOfCase(infos[..n], name);
    }
  }

  /** The cases hold their tests in the order of the registration, and death test cases come before the others, both in
  the order in which their first tests were registered. */
  ghost predicate InRegistrationOrder(views: seq<CaseView>, infos: seq<TestInfo>, death: string -> bool) {
    && (forall k :: 0 <= k < |views| ==> views[k].infos == OfCase(infos, views[k].name) && FirstOf(infos, views[k].name) < |infos|)
    && (forall i, j :: 0 <= i < j < |views| ==> Precedes(views[i].name, views[j].name, infos, death))
    && forall name :: FirstOf(infos, name) < |infos| ==> Find(views, name) < |views|
  }

  /** Which of two cases comes first? */
  ghost predicate Precedes(a: string, b: string, infos: seq<TestInfo>, death: string -> bool) {
    if death(a) == death(b) then FirstOf(infos, a) < FirstOf(infos, b) else death(a)
  }

  lemma PrecedesStays(a: string, b: string, infos: seq<TestInfo>, info: TestInfo, death: string -> bool)
    requires Precedes(a, b, infos, death) && FirstOf(infos, a) < |infos|
    ensures Precedes(a, b, infos + [info], death)
  {
    FirstOfSnoc(infos, info, a);
    FirstOfSnoc(infos, info, b);
  }

  lemma FindAlike(a: seq<CaseView>, b: seq<CaseView>, name: string, k: nat)
    requires Find(a, name) < |a| && k < |b| && b[k].name == a[Find(a, name)].name
    ensures Find(b, name) < |b|
  {
  }

  lemma LongerCaseInOrder(views: seq<CaseView>, f: nat, infos: seq<TestInfo>, info: TestInfo, death: string -> bool)
    requires InRegistrationOrder(views, infos, death) && f < |views| && views[f].name == info.testCaseName
    ensures InRegistrationOrder(views[f := CaseView(views[f].name, views[f].infos + [info])], infos + [info], death)
  {
    var now, more := views[f := CaseView(views[f].name, views[f].infos + [info])], infos + [info];
    forall k | 0 <= k < |now| ensures now[k].infos == OfCase(more, now[k].name) && FirstOf(more, now[k].name) < |more| {
      OfCaseSnoc(infos, info, now[k].name);
      FirstOfSnoc(infos, info, now[k].name);
      assert k != f ==> Precedes(views[if k < f then k else f].name, views[if k < f then f else k].name, infos, death);
    }
    forall i, j | 0 <= i < j < |now| ensures Precedes(now[i].name, now[j].name, more, death) {
      PrecedesStays(views[i].name, views[j].name, infos, info, death);
    }
    forall name | FirstOf(more, name) < |more| ensures Find(now, name) < |now| {
      FirstOfSnoc(infos, info, name);
      if name == info.testCaseName {
        assert now[f].name == name;
      } else {
        FindAlike(views, now, name, Find(views, name));
      }
    }
  }

  /** Where an element of the longer sequence was before. */
  function Before(k: nat, at: nat): nat
    requires k != at
  {
    if k < at then k else k - 1
  }

  /** A new case is in its place among the others. */
  lemma NewCasePrecedes(views: seq<CaseView>, at: nat, infos: seq<TestInfo>, info: TestInfo, death: string -> bool, k: nat)
    requires InRegistrationOrder(views, infos, death) && FirstOf(infos, info.testCaseName) >= |infos|
    requires at <= |views| && (death(info.testCaseName) || at == |views|)
    requires death(info.testCaseName) ==> forall k :: 0 <= k < |views| ==> (death(views[k].name) <==> k < at)
    requires k < |views|
    ensures k < at ==> Precedes(views[k].name, info.testCaseName, infos + [info], death)
    ensures k >= at ==> Precedes(info.testCaseName, views[k].name, infos + [info], death)
  {
    FirstOfSnoc(infos, info, views[k].name);
    FirstOfSnoc(infos, info, info.testCaseName);
  }

  lemma OthersStay(views: seq<CaseView>, infos: seq<TestInfo>, info: TestInfo, death: string -> bool, k: nat)
    requires InRegistrationOrder(views, infos, death) && k < |views| && Find(views, info.testCaseName) == |views|
    ensures views[k].infos == OfCase(infos + [info], views[k].name) && FirstOf(infos + [info], views[k].name) < |infos|
  {
    OfCaseSnoc(infos, info, views[k].name);
    FirstOfSnoc(infos, info, views[k].name);
  }

  lemma NewCase(infos: seq<TestInfo>, info: TestInfo)
    requires FirstOf(infos, info.testCaseName) >= |infos|
    ensures OfCase(infos + [info], info.testCaseName) == [info] && FirstOf(infos + [info], info.testCaseName) == |infos|
  {
    NoneOfCase(infos, info.testCaseName);
    OfCaseSnoc(infos, info, info.testCaseName);
    FirstOfSnoc(infos, info, info.testCaseName);
  }

  lemma NewCaseIsFound(views: seq<CaseView>, at: nat, infos: seq<TestInfo>, info: TestInfo, name: string)
    requires at <= |views| && FirstOf(infos + [info], name) < |infos| + 1
    requires FirstOf(infos, name) < |infos| ==> Find(views, name) < |views|
    ensures var now := InsertAt(views, at, CaseView(info.testCaseName, [info])); Find(now, name) < |now|
  {
    var added := CaseView(info.testCaseName, [info]);
    FirstOfSnoc(infos, info, name);
    FoundAfterInsert(views, at, added, name);
  }

  lemma FoundAfterInsert(views: seq<CaseView>, at: nat, added: CaseView, name: string)
    requires at <= |views| && (name == added.name || Find(views, name) < |views|)
    ensures Find(InsertAt(views, at, added), name) < |InsertAt(views, at, added)|
  {
    var now, k := InsertAt(views, at, added), Find(views, name);
    InsertAtElements(views, at, added);
    if name == added.name {
      assert now[at].name == name;
    } else {
      FindAlike(views, now, name, if k < at then k else k + 1);
    }
  }

  lemma InsertedPrecede(views: seq<CaseView>, at: nat, infos: seq<TestInfo>, info: TestInfo, death: string -> bool, i: nat, j: nat)
    requires InRegistrationOrder(views, infos, death) && FirstOf(infos, info.testCaseName) >= |infos|
    requires at <= |views| && (death(info.testCaseName) || at == |views|)
    requires death(info.testCaseName) ==> forall k :: 0 <= k < |views| ==> (death(views[k].name) <==> k < at)
    requires i < j <= |views|
    ensures var now := InsertAt(views, at, CaseView(info.testCaseName, [info]));
      Precedes(now[i].name, now[j].name, infos + [info], death)
  {
    InsertAtElements(views, at, CaseView(info.testCaseName, [info]));
    if i != at && j != at {
      PrecedesStays(views[Before(i, at)].name, views[Before(j, at)].name, infos, info, death);
    } else {
      NewCasePrecedes(views, at, infos, info, death, Before(if i == at then j else i, at));
    }
  }

  lemma NewCaseInOrder(views: seq<CaseView>, at: nat, infos: seq<TestInfo>, info: TestInfo, death: string -> bool)
    requires InRegistrationOrder(views, infos, death) && Find(views, info.testCaseName) == |views|
    requires at <= |views| && (death(info.testCaseName) || at == |views|)
    requires death(info.testCaseName) ==> forall k :: 0 <= k < |views| ==> (death(views[k].name) <==> k < at)
    ensures InRegistrationOrder(InsertAt(views, at, CaseView(info.testCaseName, [info])), infos + [info], death)
  {
    var added := CaseView(info.testCaseName, [info]);
    var now, more := InsertAt(views, at, added), infos + [info];
    InsertAtElements(views, at, added);
    NewCase(infos, info);
    forall k | 0 <= k < |now| ensures now[k].infos == OfCase(more, now[k].name) && FirstOf(more, now[k].name) < |more| {
      if k != at {
        OthersStay(views, infos, info, death, Before(k, at));
      }
    }
    forall i, j | 0 <= i < j < |now| ensures Precedes(now[i].name, now[j].name, more, death) {
      InsertedPrecede(views, at, infos, info, death, i, j);
    }
    forall name | FirstOf(more, name) < |more| ensures Find(now, name) < |now| {
      NewCaseIsFound(views, at, infos, info, name);
    }
  }

  lemma WithTestInOrder(views: seq<CaseView>, at: nat, infos: seq<TestInfo>, info: TestInfo, death: string -> bool)
    requires InRegistrationOrder(views, infos, death)
    requires at <= |views| && (death(info.testCaseName) || at == |views|)
    requires death(info.testCaseName) ==> forall k :: 0 <= k < |views| ==> (death(views[k].name) <==> k < at)
    ensures InRegistrationOrder(WithTest(views, at, info), infos + [info], death)
  {
    var f := Find(views, info.testCaseName);
    if f == |views| {
      NewCaseInOrder(views, at, infos, info, death);
    } else {
      LongerCaseInOrder(views, f, infos, info, death);
    }
  }

  /** Registering gives this order. */
  lemma {:induction false} RegisteredInOrder(infos: seq<TestInfo>, death: string -> bool)
    ensures InRegistrationOrder(Registered(infos, death), infos, death)
  {
    if infos != [] {
      var n := |infos| - 1;
      RegisteredInOrder(infos[..n], death);
      DeathCasesFirst(Registered(infos[..n], death), death);
      var views, info := Registered(infos[..n], death), infos[n];
      WithTestInOrder(views, if death(info.testCaseName) then DeathCases(views, death) else |views|, infos[..n], info, death);
      assert infos == infos[..n] + [info];
    }
  }

  // ----- without shuffling -----

  /** All tests, case by case, in the order of their registration. */
  ghost function AllTests(views: seq<CaseView>): seq<TestInfo> {
    if views == [] then [] else AllTests(views[..|views| - 1]) + views[|views| - 1].infos
  }

  /** The order of the registration. */
  ghost predicate AsRegistered(order: Order, views: seq<CaseView>) {
    && order.cases == Identity(0, |views|) && |order.tests| == |views|
    && forall k :: 0 <= k < |views| ==> order.tests[k] == Identity(0, |views[k].infos|)
  }

  lemma {:induction false} FirstAsRegistered(views: seq<CaseView>, order: Order, n: nat)
    requires AsRegistered(order, views) && Fits(order, views) && n <= |views|
    ensures TestsUpTo(views, order, n) == AllTests(views[..n])
  {
    if n > 0 {
      FirstAsRegistered(views, order, n - 1);
      assert order.cases[n - 1] == n - 1 && views[..n][..n - 1] == views[..n - 1];
      PickIdentity(views[n - 1].infos, 0);
    }
  }

  lemma TestsAsRegistered(views: seq<CaseView>, order: Order)
    requires AsRegistered(order, views) && Fits(order, views)
    ensures TestsIn(views, order) == AllTests(views)
  {
    FirstAsRegistered(views, order, |views|);
    assert views[..|views|] == views;
  }

  // ----- with shuffling -----

  /** `states` are those of the generator before and after it shuffles the tests of each case. */
  ghost predicate ShufflesCases(tests: seq<seq<int>>, views: seq<CaseView>, states: seq<nat>) {
    && |tests| == |views| && |states| == |views| + 1
    && forall k {:trigger tests[k]} :: 0 <= k < |views| ==>
         (tests[k], states[k + 1]) == ShuffledAll(Identity(0, |views[k].infos|), states[k])
  }

  /** The order that the generator, started at `seed`, makes of that of the registration, in which the first `mid` cases
  are death test cases: it shuffles these, then the other cases, and then the tests of each case, in the order of the
  cases' registration. */
  ghost predicate ShuffledFrom(order: Order, views: seq<CaseView>, mid: nat, seed: nat)
    requires mid <= |views|
  {
    exists states :: ShufflesCases(order.tests, views, states) &&
      (order.cases, states[0]) == ShuffledBlocks(Identity(0, |views|), seed, mid)
  }

  /** The orders of the tests of the first `n` cases, shuffled one after the other from `state` on, and the state after
  it. */
  ghost function ShuffledTests(views: seq<CaseView>, state: nat, n: nat): (r: (seq<seq<int>>, nat))
    requires n <= |views|
    ensures |r.0| == n
  {
    if n == 0 then ([], state)
    else
      var (tests, next) := ShuffledTests(views, state, n - 1);
      var (last, after) := ShuffledAll(Identity(0, |views[n - 1].infos|), next);
      (tests + [last], after)
  }

  ghost function ShuffledOrder(views: seq<CaseView>, mid: nat, seed: nat): Order
    requires mid <= |views|
  {
    var (cases, state) := ShuffledBlocks(Identity(0, |views|), seed, mid);
    Order(cases, ShuffledTests(views, state, |views|).0)
  }

  lemma {:induction false} StatesOfTests(views: seq<CaseView>, state: nat, n: nat, tests: seq<seq<int>>, states: seq<nat>)
    requires ShufflesCases(tests, views, states) && states[0] == state && n <= |views|
    ensures ShuffledTests(views, state, n) == (tests[..n], states[n])
  {
    if n > 0 {
      StatesOfTests(views, state, n - 1, tests, states);
      assert (tests[n - 1], states[n]) == ShuffledAll(Identity(0, |views[n - 1].infos|), states[n - 1]);
      assert tests[..n] == tests[..n - 1] + [tests[n - 1]];
    }
  }

  lemma {:induction false} StatesExist(views: seq<CaseView>, state: nat, n: nat) returns (states: seq<nat>)
    requires n <= |views|
    ensures |states| == n + 1 && states[0] == state && states[n] == ShuffledTests(views, state, n).1
    ensures forall k {:trigger ShuffledTests(views, state, n).0[k]} :: 0 <= k < n ==>
      (ShuffledTests(views, state, n).0[k], states[k + 1]) == ShuffledAll(Identity(0, |views[k].infos|), states[k])
  {
    if n == 0 {
      states := [state];
    } else {
      var before := StatesExist(views, state, n - 1);
      states := before + [ShuffledTests(views, state, n).1];
      StatesGrow(views, state, n, before, states);
    }
  }

  lemma StatesGrow(views: seq<CaseView>, state: nat, n: nat, before: seq<nat>, states: seq<nat>)
    requires 0 < n <= |views| && |before| == n && before[n - 1] == ShuffledTests(views, state, n - 1).1
    requires states == before + [ShuffledTests(views, state, n).1]
    requires forall k {:trigger ShuffledTests(views, state, n - 1).0[k]} :: 0 <= k < n - 1 ==>
      (ShuffledTests(views, state, n - 1).0[k], before[k + 1]) == ShuffledAll(Identity(0, |views[k].infos|), before[k])
    ensures forall k {:trigger ShuffledTests(views, state, n).0[k]} :: 0 <= k < n ==>
      (ShuffledTests(views, state, n).0[k], states[k + 1]) == ShuffledAll(Identity(0, |views[k].infos|), states[k])
  {
    var tests, more := ShuffledTests(views, state, n - 1).0, ShuffledTests(views, state, n).0;
    forall k | 0 <= k < n ensures (more[k], states[k + 1]) == ShuffledAll(Identity(0, |views[k].infos|), states[k]) {
      if k < n - 1 {
        assert more[k] == tests[k];
      }
    }
  }

  /** The seed decides the order. */
  lemma SeedDecidesOrder(order: Order, views: seq<CaseView>, mid: nat, seed: nat)
    requires mid <= |views|
    ensures ShuffledFrom(order, views, mid, seed) <==> order == ShuffledOrder(views, mid, seed)
  {
    if ShuffledFrom(order, views, mid, seed) {
      var states :| ShufflesCases(order.tests, views, states) &&
        (order.cases, states[0]) == ShuffledBlocks(Identity(0, |views|), seed, mid);
      StatesOfTests(views, states[0], |views|, order.tests, states);
      assert order.tests[..|views|] == order.tests;
    }
    if order == ShuffledOrder(views, mid, seed) {
      var state := ShuffledBlocks(Identity(0, |views|), seed, mid).1;
      var states := StatesExist(views, state, |views|);
      assert ShufflesCases(order.tests, views, states);
    }
  }

  lemma RangeStays(n: nat, state: nat, begin: nat, width: nat, indices: seq<int>)
    requires begin + width <= |indices| && InRange(indices, n)
    ensures |Shuffled(indices, state, begin, width).0| == |indices| && InRange(Shuffled(indices, state, begin, width).0, n)
  {
    ShuffledByDraws(indices, state, begin, width);
    var after := Shuffled(indices, state, begin, width).0;
    forall k | 0 <= k < |after| ensures 0 <= after[k] < n {
      SameMembers(after, indices);
      assert after[k] in after && after[k] in indices;
    }
  }

  lemma {:induction false} ShuffledTestsFit(views: seq<CaseView>, state: nat, n: nat)
    requires n <= |views|
    ensures forall k :: 0 <= k < n ==> InRange(ShuffledTests(views, state, n).0[k], |views[k].infos|)
  {
    if n > 0 {
      ShuffledTestsFit(views, state, n - 1);
      var size := |views[n - 1].infos|;
      RangeStays(size, ShuffledTests(views, state, n - 1).1, 0, size, Identity(0, size));
    }
  }

  lemma ShuffledFits(views: seq<CaseView>, mid: nat, seed: nat)
    requires mid <= |views|
    ensures Fits(ShuffledOrder(views, mid, seed), views)
  {
    var n, indices := |views|, Identity(0, |views|);
    var (first, next) := Shuffled(indices, seed, 0, mid);
    RangeStays(n, seed, 0, mid, indices);
    RangeStays(n, next, mid, n - mid, first);
    ShuffledTestsFit(views, ShuffledBlocks(indices, seed, mid).1, n);
  }

  // ----- seeds -----

  const MAX_RANDOM_SEED: nat := 99999

  predicate ValidSeed(seed: int) {
    1 <= seed <= MAX_RANDOM_SEED
  }

  /** The seed for the flag --gtest_random_seed, whose 0 asks for one from the time; in 32-bit unsigned arithmetic. */
  function GetRandomSeedFromFlag(flag: int, time: int): (r: int)
    ensures ValidSeed(r)
    ensures ValidSeed(flag) ==> r == flag
  {
    var raw := (if flag == 0 then time else flag) % 0x1_0000_0000;
    (raw - 1) % 0x1_0000_0000 % MAX_RANDOM_SEED + 1
  }

  /** The seed of the first iteration; 0 if there is no shuffling. */
  function FirstSeed(shuffle: bool, flag: int, time: int): (r: nat)
    ensures if shuffle then ValidSeed(r) else r == 0
  {
    if shuffle then GetRandomSeedFromFlag(flag, time) else 0
  }

  function GetNextRandomSeed(seed: int): (r: int)
    requires ValidSeed(seed)
    ensures ValidSeed(r) && (r == seed + 1 || (r == 1 && seed == MAX_RANDOM_SEED))
  {
    if seed + 1 > MAX_RANDOM_SEED then 1 else seed + 1
  }

  /** The seed of iteration `i`, if `first` is that of the first one. */
  ghost function SeedAt(first: nat, i: nat): (r: nat)
    requires first == 0 || ValidSeed(first)
    ensures if first == 0 then r == 0 else ValidSeed(r)
  {
    if first == 0 || i == 0 then first else GetNextRandomSeed(SeedAt(first, i - 1))
  }

  /** The seeds run through all valid ones in turn. */
  lemma {:induction false} SeedsInTurn(first: nat, i: nat)
    requires ValidSeed(first)
    ensures SeedAt(first, i) == (first - 1 + i) % MAX_RANDOM_SEED + 1
  {
    if i > 0 {
      SeedsInTurn(first, i - 1);
    }
  }

  // ----- a run -----

  /** All tests, in the order of their registration or in that which `seed` gives. */
  ghost function TestsInTurn(views: seq<CaseView>, mid: nat, shuffle: bool, seed: nat): seq<TestInfo>
    requires mid <= |views|
  {
    ShuffledFits(views, mid, seed);
    if shuffle then TestsIn(views, ShuffledOrder(views, mid, seed)) else AllTests(views)
  }

  /** The order of the registration, or that which `seed` gives. */
  ghost predicate IsOrder(order: Order, views: seq<CaseView>, mid: nat, shuffle: bool, seed: nat)
    requires mid <= |views|
  {
    Fits(order, views) && if shuffle then ShuffledFrom(order, views, mid, seed) else AsRegistered(order, views)
  }

  lemma InTurnByOrder(views: seq<CaseView>, order: Order, mid: nat, shuffle: bool, seed: nat)
    requires mid <= |views| && IsOrder(order, views, mid, shuffle, seed)
    ensures TestsIn(views, order) == TestsInTurn(views, mid, shuffle, seed)
  {
    if shuffle {
      SeedDecidesOrder(order, views, mid, seed);
    } else {
      TestsAsRegistered(views, order);
    }
  }

  /** What decides about the order of a run but the seed. */
  datatype Setup = Setup(views: seq<CaseView>, mid: nat, shuffle: bool)

  /** `plan` has, for each seed, the tests in turn. */
  ghost predicate IsPlan(plan: imap<nat, seq<TestInfo>>, setup: Setup) {
    match setup
    case Setup(views, mid, shuffle) =>
      && mid <= |views| && (forall seed: nat :: seed in plan)
      && forall seed: nat {:trigger TestsInTurn(views, mid, shuffle, seed)} :: plan[seed] == TestsInTurn(views, mid, shuffle, seed)
  }

  lemma PlanExists(setup: Setup) returns (plan: imap<nat, seq<TestInfo>>)
    requires setup.mid <= |setup.views|
    ensures IsPlan(plan, setup)
  {
    plan := imap seed: nat {:trigger TestsInTurn(setup.views, setup.mid, setup.shuffle, seed)} | true ::
      TestsInTurn(setup.views, setup.mid, setup.shuffle, seed);
  }

  lemma PlanHasOrder(plan: imap<nat, seq<TestInfo>>, setup: Setup, seed: nat, order: Order)
    requires IsPlan(plan, setup) && setup.mid <= |setup.views| && IsOrder(order, setup.views, setup.mid, setup.shuffle, seed)
    ensures seed in plan && plan[seed] == TestsIn(setup.views, order)
  {
    InTurnByOrder(setup.views, order, setup.mid, setup.shuffle, seed);
  }

  /** The runs of the first `n` iterations: of the tests in turn, those in `on`. */
  ghost function Runs(plan: imap<nat, seq<TestInfo>>, first: nat, on: set<TestInfo>, n: nat): (r: seq<seq<TestInfo>>)
    requires (first == 0 || ValidSeed(first)) && forall seed: nat :: seed in plan
    ensures |r| == n
  {
    if n == 0 then [] else Runs(plan, first, on, n - 1) + [Kept(plan[SeedAt(first, n - 1)], on)]
  }

  lemma {:induction false} RunAt(plan: imap<nat, seq<TestInfo>>, first: nat, on: set<TestInfo>, n: nat, i: nat)
    requires (first == 0 || ValidSeed(first)) && (forall seed: nat :: seed in plan) && i < n
    ensures Runs(plan, first, on, n)[i] == Kept(plan[SeedAt(first, i)], on)
  {
    if i < n - 1 {
      RunAt(plan, first, on, n - 1, i);
    }
  }

  /** Each run is of the tests in `on`: without shuffling in the order of the registration, and otherwise in that which
  its seed gives. */
  lemma RunsInOrder(plan: imap<nat, seq<TestInfo>>, setup: Setup, first: nat, on: set<TestInfo>, n: nat, i: nat)
    requires IsPlan(plan, setup) && (first == 0 || ValidSeed(first)) && i < n
    ensures var run, views := Runs(plan, first, on, n)[i], setup.views;
      if setup.shuffle
      then exists order :: Fits(order, views) && ShuffledFrom(order, views, setup.mid, SeedAt(first, i)) && run == Kept(TestsIn(views, order), on)
      else run == Kept(AllTests(views), on)
  {
    var seed, views, mid := SeedAt(first, i), setup.views, setup.mid;
    RunAt(plan, first, on, n, i);
    assert plan[seed] == TestsInTurn(views, mid, setup.shuffle, seed);
    var order := ShuffledOrder(views, mid, seed);
    ShuffledFits(views, mid, seed);
    SeedDecidesOrder(order, views, mid, seed);
  }

  // ----- the cases' own order -----

  /** The cases hold the order. */
  ghost predicate Arranged(cases: seq<TestCase>, tests: seq<seq<int>>)
    reads set t | t in cases :: t.testIndices
  {
    |tests| == |cases| && forall k :: 0 <= k < |cases| ==> tests[k] == cases[k].testIndices.elems
  }

  /** The tests of the cases in turn. */
  ghost function InTurn(order: seq<TestCase>): seq<TestInfo>
    requires forall t :: t in order ==> t.Valid()
    reads order, set t | t in order :: t.testIndices
  {
    if order == [] then [] else InTurn(order[..|order| - 1]) + order[|order| - 1].Tests()
  }

  /** What has run after the cases in `order`. */
  ghost predicate RanInTurn(ran: seq<TestInfo>, order: seq<TestCase>, on: set<TestInfo>)
    reads order, set t | t in order :: t.testIndices
  {
    (forall t :: t in order ==> t.Valid()) && ran == Kept(InTurn(order), on)
  }

  lemma OneMoreInTurn(ran: seq<TestInfo>, order: seq<TestCase>, t: TestCase, on: set<TestInfo>)
    requires RanInTurn(ran, order, on) && t.Valid()
    ensures RanInTurn(ran + Kept(t.Tests(), on), order + [t], on)
  {
    InTurnSnoc(order, t);
    KeptOfParts(InTurn(order), t.Tests(), on);
  }

  lemma InTurnSnoc(order: seq<TestCase>, t: TestCase)
    requires (forall c :: c in order ==> c.Valid()) && t.Valid()
    ensures forall c :: c in order + [t] ==> c.Valid()
    ensures InTurn(order + [t]) == InTurn(order) + t.Tests()
  {
    assert (order + [t])[..|order|] == order;
  }

  lemma {:induction false} InTurnByIndices(cases: seq<TestCase>, views: seq<CaseView>, o: Order, order: seq<TestCase>, n: nat)
    requires Show(views, cases) && Arranged(cases, o.tests) && Fits(o, views)
    requires n <= |order| == |o.cases| && forall k :: 0 <= k < |order| ==> order[k] == cases[o.cases[k]] && order[k].Valid()
    ensures InTurn(order[..n]) == TestsUpTo(views, o, n)
  {
    if n > 0 {
      InTurnByIndices(cases, views, o, order, n - 1);
      InTurnSnoc(order[..n - 1], order[n - 1]);
      assert order[..n] == order[..n - 1] + [order[n - 1]];
      var c := o.cases[n - 1];
      assert views[c].infos == order[n - 1].testInfoList && o.tests[c] == order[n - 1].testIndices.elems;
    }
  }

  lemma RanByIndices(cases: seq<TestCase>, views: seq<CaseView>, o: Order, ran: seq<TestInfo>, on: set<TestInfo>)
    requires Show(views, cases) && Arranged(cases, o.tests) && Fits(o, views)
    requires RanInTurn(ran, Pick(cases, o.cases), on)
    ensures ran == Kept(TestsIn(views, o), on)
  {
    var order := Pick(cases, o.cases);
    PickAt(cases, o.cases);
    assert forall k :: 0 <= k < |order| ==> order[k] in order;
    InTurnByIndices(cases, views, o, order, |order|);
    assert order[..|order|] == order;
  }
}
