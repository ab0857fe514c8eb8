/** Registering tests, and running those that were selected (gtest.cc). */
module TestRun {
  import opened CStrings
  import opened Sequences
  import opened Shuffling
  import opened Sharding
  import opened TestCatalogue
  import opened TestFilter
  import opened TestOrder
  import opened TestRegistry
  import opened TestSelection

  // ----- one case -----

  /** Runs the case's tests in turn: of its tests, in their order, those in `on`. */
  method RunCase(t: TestCase, ghost on: set<TestInfo>) returns (ran: seq<TestInfo>)
    requires t.Valid() && (t.shouldRun || forall x :: x in t.testInfoList ==> x !in on)
    requires forall x :: x in t.testInfoList ==> (x.shouldRun <==> x in on)
    ensures ran == Kept(t.Tests(), on)
  {
    ran := [];
    if !t.shouldRun {
      NoneKept(t, on);
      return;
    }
    ghost var tests := t.Tests();
    PickAt(t.testInfoList, t.testIndices.elems);
    for i := 0 to |t.testInfoList|
      invariant ran == Kept(tests[..i], on)
    {
      var info := t.GetMutableTestInfo(i);
      Prefixes(tests, i);
      KeptSnoc(tests[..i], info, on);
      if info.shouldRun {
        ran := ran + [info];
      }
    }
    Prefixes(tests, 0);
  }

  lemma NoneKept(t: TestCase, on: set<TestInfo>)
    requires t.Valid() && forall x :: x in t.testInfoList ==> x !in on
    ensures Kept(t.Tests(), on) == []
  {
    var tests := t.Tests();
    PickAt(t.testInfoList, t.testIndices.elems);
    assert forall k :: 0 <= k < |tests| ==> tests[k] in t.testInfoList;
    KeptNone(tests, on);
  }

  // ----- all cases -----

  /** The tests in `on` are to run, and a case runs if one of its tests does. */
  ghost predicate Situation(cases: seq<TestCase>, tests: set<TestInfo>, on: set<TestInfo>)
    reads cases, tests
  {
    && (forall t, x :: t in cases && x in t.testInfoList ==> x in tests)
    && (forall t :: t in cases ==> (t.shouldRun || forall x :: x in t.testInfoList ==> x !in on))
    && (forall x :: x in tests ==> (x.shouldRun <==> x in on))
  }

  /** Runs the cases in turn. */
  method RunInTurn(ghost cases: seq<TestCase>, order: seq<TestCase>, ghost tests: set<TestInfo>, ghost on: set<TestInfo>)
    returns (ran: seq<TestInfo>)
    requires Situation(cases, tests, on) && forall t :: t in order ==> t in cases && t.Valid()
    ensures RanInTurn(ran, order, on)
  {
    ran := [];
    Prefixes(order, 0);
    for i := 0 to |order|
      invariant RanInTurn(ran, order[..i], on)
    {
      var t := order[i];
      assert t in order;
      var more := RunCase(t, on);
      OneMoreInTurn(ran, order[..i], t, on);
      Prefixes(order, i);
      ran := ran + more;
    }
  }

  // ----- iterations -----

  /** What shuffling leaves alone. */
  ghost predicate Ready(cases: seq<TestCase>, views: seq<CaseView>, tests: set<TestInfo>, on: set<TestInfo>)
    reads cases, tests
  {
    Situation(cases, tests, on) && Show(views, cases)
  }

  /** One iteration: shuffles the tests if asked to, runs them, and restores the order. */
  method RunIteration(impl: UnitTestImpl, shuffle: bool, seed: nat, ghost views: seq<CaseView>, ghost tests: set<TestInfo>,
                      ghost on: set<TestInfo>, ghost plan: imap<nat, seq<TestInfo>>)
    returns (ran: seq<TestInfo>)
    requires impl.Registering() && Ready(impl.testCases, views, tests, on)
    requires IsPlan(plan, Setup(views, impl.lastDeathTestCase + 1, shuffle))
    modifies impl.random, impl.testCaseIndices, set t | t in impl.testCases :: t.testIndices
    ensures impl.Registering() && Ready(impl.testCases, views, tests, on)
    ensures seed in plan && ran == Kept(plan[seed], on)
  {
    ghost var order := PrepareOrder(impl, shuffle, seed, views, tests, on, plan);
    ran := RunOrdered(impl, order, seed, views, tests, on, plan);
    RestoreOrder(impl, views, tests, on);
  }

  method RestoreOrder(impl: UnitTestImpl, ghost views: seq<CaseView>, ghost tests: set<TestInfo>, ghost on: set<TestInfo>)
    requires impl.Valid() && Ready(impl.testCases, views, tests, on)
    modifies impl.testCaseIndices, set t | t in impl.testCases :: t.testIndices
    ensures impl.Registering() && Ready(impl.testCases, views, tests, on)
  {
    impl.UnshuffleTests();
  }

  /** Runs the tests in the order that the registry holds. */
  method RunOrdered(impl: UnitTestImpl, ghost places: Order, ghost seed: nat, ghost views: seq<CaseView>, ghost tests: set<TestInfo>,
                    ghost on: set<TestInfo>, ghost plan: imap<nat, seq<TestInfo>>)
    returns (ran: seq<TestInfo>)
    requires impl.Valid() && Ready(impl.testCases, views, tests, on) && HoldsPlanned(impl, places, views, seed, plan)
    ensures seed in plan && ran == Kept(plan[seed], on)
  {
    ghost var order;
    ran, order := RunAll(impl, views, tests, on);
    OrderedRun(impl, places, seed, views, order, ran, on, plan);
  }

  /** The loop over the cases. */
  method RunAll(impl: UnitTestImpl, ghost views: seq<CaseView>, ghost tests: set<TestInfo>, ghost on: set<TestInfo>)
    returns (ran: seq<TestInfo>, ghost order: seq<TestCase>)
    requires impl.Valid() && Ready(impl.testCases, views, tests, on)
    ensures InRange(impl.testCaseIndices.elems, |impl.testCases|) && order == Pick(impl.testCases, impl.testCaseIndices.elems)
    ensures RanInTurn(ran, order, on)
  {
    var cases := impl.RunOrder();
    ran := RunInTurn(impl.testCases, cases, tests, on);
    order := cases;
  }

  lemma OrderedRun(impl: UnitTestImpl, places: Order, seed: nat, views: seq<CaseView>, order: seq<TestCase>, ran: seq<TestInfo>,
                   on: set<TestInfo>, plan: imap<nat, seq<TestInfo>>)
    requires Show(views, impl.testCases) && HoldsPlanned(impl, places, views, seed, plan) && RanInTurn(ran, order, on)
    requires InRange(impl.testCaseIndices.elems, |impl.testCases|) && order == Pick(impl.testCases, impl.testCaseIndices.elems)
    ensures seed in plan && ran == Kept(plan[seed], on)
  {
    RanByIndices(impl.testCases, views, places, ran, on);
  }

  /** The order that the registry holds. */
  ghost predicate OrderOf(impl: UnitTestImpl, order: Order)
    reads impl, impl.testCaseIndices, set t | t in impl.testCases :: t.testIndices
  {
    order.cases == impl.testCaseIndices.elems && Arranged(impl.testCases, order.tests)
  }

  ghost function CurrentOrder(impl: UnitTestImpl): (order: Order)
    reads impl, impl.testCaseIndices, set t | t in impl.testCases :: t.testIndices
    ensures OrderOf(impl, order)
  {
    Order(impl.testCaseIndices.elems, IndicesOf(impl.testCases))
  }

  lemma OrderFits(impl: UnitTestImpl, views: seq<CaseView>, order: Order)
    requires impl.Valid() && Show(views, impl.testCases) && OrderOf(impl, order)
    ensures Fits(order, views)
  {
    BlockBounds(order.cases, impl.lastDeathTestCase + 1);
    forall k | 0 <= k < |views| ensures InRange(order.tests[k], |views[k].infos|) {
      WholeBlock(order.tests[k], |views[k].infos|);
    }
  }

  ghost function IndicesOf(cases: seq<TestCase>): (r: seq<seq<int>>)
    reads set t | t in cases :: t.testIndices
    ensures Arranged(cases, r)
  {
    if cases == [] then [] else IndicesOf(cases[..|cases| - 1]) + [cases[|cases| - 1].testIndices.elems]
  }

  /** The registry holds the order that `plan` has for the seed. */
  ghost predicate HoldsPlanned(impl: UnitTestImpl, order: Order, views: seq<CaseView>, seed: nat, plan: imap<nat, seq<TestInfo>>)
    reads impl, impl.testCaseIndices, set t | t in impl.testCases :: t.testIndices
  {
    match order
    case Order(_, _) => OrderOf(impl, order) && Fits(order, views) && seed in plan && plan[seed] == TestsIn(views, order)
  }

  /** Shuffles the tests if asked to. */
  method PrepareOrder(impl: UnitTestImpl, shuffle: bool, seed: nat, ghost views: seq<CaseView>, ghost tests: set<TestInfo>,
                      ghost on: set<TestInfo>, ghost plan: imap<nat, seq<TestInfo>>)
    returns (ghost order: Order)
    requires impl.Registering() && Ready(impl.testCases, views, tests, on)
    requires IsPlan(plan, Setup(views, impl.lastDeathTestCase + 1, shuffle))
    modifies impl.random, impl.testCaseIndices, set t | t in impl.testCases :: t.testIndices
    ensures impl.Valid() && Ready(impl.testCases, views, tests, on) && HoldsPlanned(impl, order, views, seed, plan)
  {
    if shuffle {
      order := Reorder(impl, shuffle, seed, views, tests, on, plan);
    } else {
      order := KeepOrder(impl, shuffle, seed, views, plan);
    }
  }

  lemma KeepOrder(impl: UnitTestImpl, shuffle: bool, seed: nat, views: seq<CaseView>, plan: imap<nat, seq<TestInfo>>)
    returns (order: Order)
    requires !shuffle && impl.Registering() && Show(views, impl.testCases)
    requires IsPlan(plan, Setup(views, impl.lastDeathTestCase + 1, shuffle))
    ensures impl.Valid() && HoldsPlanned(impl, order, views, seed, plan)
  {
    impl.RegisteringIsValid();
    order := CurrentOrder(impl);
    OrderFits(impl, views, order);
    PlanHasOrder(plan, Setup(views, impl.lastDeathTestCase + 1, shuffle), seed, order);
  }

  /** Shuffles the registered tests with the generator started at `seed`. */
  method Reorder(impl: UnitTestImpl, ghost shuffle: bool, seed: nat, ghost views: seq<CaseView>, ghost tests: set<TestInfo>,
                 ghost on: set<TestInfo>, ghost plan: imap<nat, seq<TestInfo>>)
    returns (ghost order: Order)
    requires shuffle && impl.Registering() && Ready(impl.testCases, views, tests, on)
    requires IsPlan(plan, Setup(views, impl.lastDeathTestCase + 1, shuffle))
    modifies impl.random, impl.testCaseIndices, set t | t in impl.testCases :: t.testIndices
    ensures impl.Valid() && Ready(impl.testCases, views, tests, on) && HoldsPlanned(impl, order, views, seed, plan)
  {
    order := ShuffleAsPlanned(impl, shuffle, seed, views, plan);
  }

  method ShuffleAsPlanned(impl: UnitTestImpl, ghost shuffle: bool, seed: nat, ghost views: seq<CaseView>,
                          ghost plan: imap<nat, seq<TestInfo>>)
    returns (ghost order: Order)
    requires shuffle && impl.Registering() && Show(views, impl.testCases)
    requires IsPlan(plan, Setup(views, impl.lastDeathTestCase + 1, shuffle))
    modifies impl.random, impl.testCaseIndices, set t | t in impl.testCases :: t.testIndices
    ensures impl.Valid() && HoldsPlanned(impl, order, views, seed, plan)
  {
    ghost var states := ShuffleRegistered(impl, seed);
    order := OrderIsShuffled(impl, shuffle, views, states, seed, plan);
  }

  /** The generator's states are those before and after the tests of each case are shuffled. */
  ghost predicate TestsShuffled(impl: UnitTestImpl, states: seq<nat>)
    requires |states| == |impl.testCases| + 1
    reads impl, impl.testCases, set t | t in impl.testCases :: t.testIndices
  {
    forall k {:trigger impl.testCases[k]} :: 0 <= k < |impl.testCases| ==>
      (impl.testCases[k].testIndices.elems, states[k + 1]) ==
        ShuffledAll(Identity(0, |impl.testCases[k].testInfoList|), states[k])
  }

  lemma OrderIsShuffled(impl: UnitTestImpl, shuffle: bool, views: seq<CaseView>, states: seq<nat>, seed: nat,
                        plan: imap<nat, seq<TestInfo>>)
    returns (order: Order)
    requires shuffle && impl.Valid() && Show(views, impl.testCases) && |states| == |impl.testCases| + 1
    requires (impl.testCaseIndices.elems, states[0]) == ShuffledBlocks(Identity(0, |impl.testCases|), seed, impl.lastDeathTestCase + 1)
    requires TestsShuffled(impl, states) && IsPlan(plan, Setup(views, impl.lastDeathTestCase + 1, shuffle))
    ensures HoldsPlanned(impl, order, views, seed, plan)
  {
    order := CurrentOrder(impl);
    OrderFits(impl, views, order);
    assert ShufflesCases(order.tests, views, states);
    PlanHasOrder(plan, Setup(views, impl.lastDeathTestCase + 1, shuffle), seed, order);
  }

  method ShuffleRegistered(impl: UnitTestImpl, seed: nat) returns (ghost states: seq<nat>)
    requires impl.Registering()
    modifies impl.random, impl.testCaseIndices, set t | t in impl.testCases :: t.testIndices
    ensures impl.Valid() && |states| == |impl.testCases| + 1
    ensures (impl.testCaseIndices.elems, states[0]) == ShuffledBlocks(Identity(0, |impl.testCases|), seed, impl.lastDeathTestCase + 1)
    ensures TestsShuffled(impl, states)
  {
    impl.random.Reseed(seed);
    impl.RegisteringIsValid();
    states := impl.ShuffleTests();
  }

  // ----- registration -----

  method RegisterNext(impl: UnitTestImpl, info: TestInfo, ghost infos: seq<TestInfo>)
    requires impl.Registering() && Views(impl.testCases) == Registered(infos, impl.isDeathTest)
    requires Distinct(infos) && |infos| < MAX_RANGE
    modifies impl, impl.testCaseIndices, impl.testCases, set t | t in impl.testCases :: t.testIndices
    ensures impl.Registering() && Views(impl.testCases) == Registered(infos + [info], impl.isDeathTest)
    ensures forall c :: c in impl.testCases ==> c in old(impl.testCases) || (fresh(c) && fresh(c.testIndices))
  {
    RegisteredCatalogue(infos, impl.isDeathTest);
    RegisteredSnoc(infos, info, impl.isDeathTest);
    DeathCasesRegistered(impl);
    impl.AddTestInfo(info);
  }

  lemma DeathCasesRegistered(impl: UnitTestImpl)
    requires impl.Registering()
    ensures DeathCases(Views(impl.testCases), impl.isDeathTest) == impl.lastDeathTestCase + 1
  {
    var views := Views(impl.testCases);
    assert forall k :: 0 <= k < |views| ==> views[k].name == impl.testCases[k].name;
    DeathCasesAre(views, impl.isDeathTest, impl.lastDeathTestCase + 1);
  }

  /** A new registry with the tests. */
  method RegisterAll(infos: seq<TestInfo>) returns (impl: UnitTestImpl)
    requires Distinct(infos) && |infos| < MAX_RANGE
    ensures fresh(impl) && fresh(impl.random) && fresh(impl.testCaseIndices)
    ensures forall t :: t in impl.testCases ==> fresh(t) && fresh(t.testIndices)
    ensures impl.Registering() && Views(impl.testCases) == Registered(infos, impl.isDeathTest)
    ensures impl.deathTestCaseFilter == DEATH_TEST_CASE_FILTER
  {
    if infos == [] {
      impl := new UnitTestImpl();
    } else {
      ghost var n := |infos| - 1;
      Prefixes(infos, n);
      Prefixes(infos, n + 1);
      impl := RegisterAll(infos[..|infos| - 1]);
      RegisterNext(impl, infos[|infos| - 1], infos[..n]);
    }
  }

  // ----- filtering -----

  /** After filtering, the tests that carry a verdict to run are to run. */
  lemma FilteredSituation(cases: seq<TestCase>, flags: Flags, shard: Option<Shard>, tests: set<TestInfo>, on: set<TestInfo>,
                          numSelected: nat)
    requires ValidShard(shard) && IsFiltered(cases, flags, shard, tests, numSelected) && on == set x | x in tests && x.shouldRun
    ensures Situation(cases, tests, on) && Selected(flags, shard, Views(cases), on)
  {
    var views := Views(cases);
    var verdicts: seq<seq<Verdict>> := AllVerdicts(RulesOf(flags), shard, views);
    forall k {:trigger verdicts[k]} | 0 <= k < |cases|
      ensures |verdicts[k]| == |views[k].infos| && (cases[k].shouldRun || forall x :: x in cases[k].testInfoList ==> x !in on)
      ensures forall j :: 0 <= j < |verdicts[k]| ==> (views[k].infos[j] in on <==> verdicts[k][j].shouldRun)
    {
      assert views[k].infos == cases[k].testInfoList;
      CarriedCase(cases[k], verdicts[k], tests, on);
    }
    forall t | t in cases ensures t.shouldRun || forall x :: x in t.testInfoList ==> x !in on {
      var k :| 0 <= k < |cases| && cases[k] == t;
      assert |verdicts[k]| == |views[k].infos|;
    }
  }

  lemma CarriedCase(t: TestCase, verdicts: seq<Verdict>, tests: set<TestInfo>, on: set<TestInfo>)
    requires CaseCarries(t, t.testInfoList, verdicts) && on == set x | x in tests && x.shouldRun
    requires forall x :: x in t.testInfoList ==> x in tests
    ensures t.shouldRun || forall x :: x in t.testInfoList ==> x !in on
    ensures forall j :: 0 <= j < |verdicts| ==> (t.testInfoList[j] in on <==> verdicts[j].shouldRun)
  {
    AnyRunsMeaning(verdicts, |verdicts|);
    forall j | 0 <= j < |verdicts| ensures t.testInfoList[j] in on <==> verdicts[j].shouldRun {
      assert Carries(t.testInfoList[j], verdicts[j]) && t.testInfoList[j] in t.testInfoList;
    }
  }

  /** The tests carry the verdicts that the flags ask for, and so many are to run. */
  ghost predicate IsFiltered(cases: seq<TestCase>, flags: Flags, shard: Option<Shard>, tests: set<TestInfo>, numSelected: nat)
    requires ValidShard(shard)
    reads cases, tests
  {
    match flags
    case Flags(_, _, _) =>
      var verdicts, row := AllVerdicts(RulesOf(flags), shard, Views(cases)), AllFlags(RulesOf(flags), Views(cases));
      && (forall k, x :: 0 <= k < |cases| && x in cases[k].testInfoList ==> x in tests)
      && (forall k {:trigger verdicts[k]} :: 0 <= k < |cases| ==> CaseCarries(cases[k], cases[k].testInfoList, verdicts[k]))
      && numSelected == SelectedCount(shard, row, |row|)
  }

  lemma HeldByCases(cases: seq<TestCase>, tests: set<TestInfo>, n: nat)
    requires Catalogue(Views(cases), tests, n)
    ensures forall t, x :: t in cases && x in t.testInfoList ==> x in tests
  {
    var views := Views(cases);
    forall t, x | t in cases && x in t.testInfoList ensures x in tests {
      var k :| 0 <= k < |cases| && cases[k] == t;
      assert x in views[k].infos;
    }
  }

  /** `FilterTests` on cases that hold `tests`. */
  method FilterCases(cases: seq<TestCase>, flags: Flags, shard: Option<Shard>, ghost tests: set<TestInfo>, ghost n: nat)
    returns (numSelected: nat)
    requires Catalogue(Views(cases), tests, n) && Distinct(cases) && ValidShard(shard)
    modifies cases, tests
    ensures Views(cases) == old(Views(cases)) && forall k :: 0 <= k < |cases| ==> cases[k].testInfoList == old(cases[k].testInfoList)
    ensures IsFiltered(cases, flags, shard, tests, numSelected)
  {
    ghost var views := Views(cases);
    HeldByCases(cases, tests, n);
    numSelected := FilterTests(cases, flags, shard);
    assert Show(views, cases);
    ShownOnce(cases, Views(cases), views);
    HeldByCases(cases, tests, n);
  }

  /** Filtering leaves the orders alone. */
  method FilterValidCases(cases: seq<TestCase>, flags: Flags, shard: Option<Shard>, ghost tests: set<TestInfo>, ghost n: nat)
    returns (numSelected: nat)
    requires Catalogue(Views(cases), tests, n) && Distinct(cases) && ValidShard(shard)
    requires forall k :: 0 <= k < |cases| ==> cases[k].Unshuffled()
    modifies cases, tests
    ensures forall k :: 0 <= k < |cases| ==> cases[k].Unshuffled()
    ensures Views(cases) == old(Views(cases))
    ensures IsFiltered(cases, flags, shard, tests, numSelected)
  {
    numSelected := FilterCases(cases, flags, shard, tests, n);
    forall k | 0 <= k < |cases| ensures cases[k].Unshuffled() {
      assert old(cases[k].Unshuffled());
    }
  }

  /** `FilterTests` on the registered cases. */
  method FilterRegistered(impl: UnitTestImpl, cases: seq<TestCase>, flags: Flags, shard: Option<Shard>, ghost tests: set<TestInfo>,
                          ghost n: nat)
    returns (numSelected: nat)
    requires impl.Registering() && cases == impl.testCases && Catalogue(Views(cases), tests, n) && ValidShard(shard)
    modifies cases, tests
    ensures impl.Registering() && cases == impl.testCases && Views(cases) == old(Views(cases))
    ensures IsFiltered(cases, flags, shard, tests, numSelected)
  {
    CasesDistinct(impl);
    numSelected := FilterValidCases(cases, flags, shard, tests, n);
    StillRegistering(impl);
  }

  lemma StillRegistering(impl: UnitTestImpl)
    requires impl.Registered() && impl.Unshuffled() && forall k :: 0 <= k < |impl.testCases| ==> impl.testCases[k].Unshuffled()
    ensures impl.Registering()
  {
  }

  lemma CasesDistinct(impl: UnitTestImpl)
    requires impl.Registering()
    ensures Distinct(impl.testCases)
  {
  }

  // ----- a whole run -----

  /** What holds between iterations: nothing is shuffled, and `plan` has the tests in turn for each seed. */
  ghost predicate BetweenIterations(impl: UnitTestImpl, shuffle: bool, mid: nat, plan: imap<nat, seq<TestInfo>>, views: seq<CaseView>,
                                    tests: set<TestInfo>, on: set<TestInfo>)
    reads impl, impl.testCaseIndices, impl.testCases, tests, set t | t in impl.testCases :: t.testIndices
  {
    && impl.Registering() && Ready(impl.testCases, views, tests, on) && mid == impl.lastDeathTestCase + 1
    && IsPlan(plan, Setup(views, mid, shuffle))
  }

  /** The tests, if there are any to run. */
  method RunOnce(impl: UnitTestImpl, hasTestsToRun: bool, shuffle: bool, seed: nat, ghost views: seq<CaseView>,
                 ghost tests: set<TestInfo>, ghost on: set<TestInfo>, ghost mid: nat, ghost plan: imap<nat, seq<TestInfo>>)
    returns (ran: seq<TestInfo>)
    requires BetweenIterations(impl, shuffle, mid, plan, views, tests, on) && (hasTestsToRun || on == {})
    modifies impl.random, impl.testCaseIndices, set t | t in impl.testCases :: t.testIndices
    ensures BetweenIterations(impl, shuffle, mid, plan, views, tests, on) && seed in plan && ran == Kept(plan[seed], on)
  {
    if hasTestsToRun {
      ran := RunIteration(impl, shuffle, seed, views, tests, on, plan);
    } else {
      ran := [];
      KeptNone(plan[seed], on);
      impl.RegisteringIsValid();
      RestoreOrder(impl, views, tests, on);
    }
  }

  /** The iterations, each with the seed after that of the one before; without selected tests they run none. */
  method RunIterations(impl: UnitTestImpl, hasTestsToRun: bool, shuffle: bool, first: nat, repeat: nat, ghost views: seq<CaseView>,
                       ghost tests: set<TestInfo>, ghost on: set<TestInfo>, ghost mid: nat, ghost plan: imap<nat, seq<TestInfo>>)
    returns (iterations: seq<seq<TestInfo>>)
    requires BetweenIterations(impl, shuffle, mid, plan, views, tests, on) && (hasTestsToRun || on == {})
    requires if shuffle then ValidSeed(first) else first == 0
    modifies impl.random, impl.testCaseIndices, set t | t in impl.testCases :: t.testIndices
    ensures BetweenIterations(impl, shuffle, mid, plan, views, tests, on)
    ensures iterations == Runs(plan, first, on, repeat)
  {
    iterations := [];
    var seed := first;
    for i := 0 to repeat
      invariant BetweenIterations(impl, shuffle, mid, plan, views, tests, on)
      invariant seed == SeedAt(first, i) && iterations == Runs(plan, first, on, i)
    {
      var ran := RunOnce(impl, hasTestsToRun, shuffle, seed, views, tests, on, mid, plan);
      iterations := iterations + [ran];
      seed := if shuffle then GetNextRandomSeed(seed) else seed;
    }
  }

  method PrepareRun(impl: UnitTestImpl, flags: Flags, shard: Option<Shard>, ghost views: seq<CaseView>, ghost tests: set<TestInfo>,
                    ghost n: nat)
    returns (numSelected: nat, ghost on: set<TestInfo>)
    requires impl.Registering() && views == Views(impl.testCases) && Catalogue(views, tests, n) && ValidShard(shard)
    modifies impl.testCases, tests
    ensures impl.Registering() && Ready(impl.testCases, views, tests, on)
    ensures on <= tests && Selected(flags, shard, views, on) && (numSelected == 0 ==> on == {})
  {
    numSelected := FilterRegistered(impl, impl.testCases, flags, shard, tests, n);
    on := set x | x in tests && x.shouldRun;
    FilteredSituation(impl.testCases, flags, shard, tests, on, numSelected);
    SelectedBy(views, flags, shard, on, numSelected, tests, n);
  }

  /** Runs the tests in `on`. */
  method RunPrepared(impl: UnitTestImpl, hasTestsToRun: bool, shuffle: bool, first: nat, repeat: nat, ghost views: seq<CaseView>,
                     ghost tests: set<TestInfo>, ghost on: set<TestInfo>)
    returns (iterations: seq<seq<TestInfo>>, ghost plan: imap<nat, seq<TestInfo>>)
    requires impl.Registering() && Ready(impl.testCases, views, tests, on) && (hasTestsToRun || on == {})
    requires if shuffle then ValidSeed(first) else first == 0
    modifies impl.random, impl.testCaseIndices, set t | t in impl.testCases :: t.testIndices
    ensures impl.Registering() && Show(views, impl.testCases)
    ensures IsPlan(plan, Setup(views, impl.lastDeathTestCase + 1, shuffle)) && iterations == Runs(plan, first, on, repeat)
  {
    ghost var mid := impl.lastDeathTestCase + 1;
    plan := PlanExists(Setup(views, mid, shuffle));
    iterations := RunIterations(impl, hasTestsToRun, shuffle, first, repeat, views, tests, on, mid, plan);
  }

  /** The runs of a registry's tests. */
  lemma RegisteredRunsEachOnce(impl: UnitTestImpl, plan: imap<nat, seq<TestInfo>>, views: seq<CaseView>, shuffle: bool, first: nat,
                               on: set<TestInfo>, repeat: nat, tests: set<TestInfo>, n: nat)
    requires impl.Registering() && Show(views, impl.testCases) && Catalogue(views, tests, n) && on <= tests
    requires (first == 0 || ValidSeed(first)) && IsPlan(plan, Setup(views, impl.lastDeathTestCase + 1, shuffle))
    ensures forall i :: 0 <= i < repeat ==> RanEachOnce(Runs(plan, first, on, repeat)[i], on, impl.isDeathTest)
  {
    assert forall k :: 0 <= k < |views| ==> views[k].name == impl.testCases[k].name;
    RunsEachOnce(plan, Setup(views, impl.lastDeathTestCase + 1, shuffle), first, on, repeat, tests, n, impl.isDeathTest);
  }

  /** Filters the registered tests and runs those selected, `repeat` times: each time in the order of their registration
  or, if they are shuffled, in that which the iteration's seed gives. */
  method RunAllTests(impl: UnitTestImpl, flags: Flags, shard: Option<Shard>, shuffle: bool, randomSeed: int, time: int, repeat: nat,
                     ghost views: seq<CaseView>, ghost tests: set<TestInfo>, ghost n: nat)
    returns (iterations: seq<seq<TestInfo>>, ghost on: set<TestInfo>, ghost plan: imap<nat, seq<TestInfo>>)
    requires impl.Registering() && views == Views(impl.testCases) && Catalogue(views, tests, n) && ValidShard(shard)
    modifies impl.testCases, tests, impl.random, impl.testCaseIndices, set t | t in impl.testCases :: t.testIndices
    ensures impl.Registering() && Show(views, impl.testCases) && IsPlan(plan, Setup(views, impl.lastDeathTestCase + 1, shuffle))
    ensures iterations == Runs(plan, FirstSeed(shuffle, randomSeed, time), on, repeat)
    ensures on <= tests && Selected(flags, shard, views, on)
  {
    var numSelected;
    numSelected, on := PrepareRun(impl, flags, shard, views, tests, n);
    iterations, plan := RunPrepared(impl, numSelected > 0, shuffle, FirstSeed(shuffle, randomSeed, time), repeat, views, tests, on);
  }

  // ----- which tests are selected -----

  /** The selected tests of the cases are those in `on`. */
  ghost predicate Selected(flags: Flags, shard: Option<Shard>, views: seq<CaseView>, on: set<TestInfo>)
    requires ValidShard(shard)
  {
    match flags
    case Flags(_, _, _) =>
      var verdicts := AllVerdicts(RulesOf(flags), shard, views);
      forall k {:trigger verdicts[k]} :: 0 <= k < |views| ==>
        |verdicts[k]| == |views[k].infos| &&
        forall j :: 0 <= j < |verdicts[k]| ==> (views[k].infos[j] in on <==> verdicts[k][j].shouldRun)
  }

  lemma SelectedBy(views: seq<CaseView>, flags: Flags, shard: Option<Shard>, on: set<TestInfo>, numSelected: nat,
                   tests: set<TestInfo>, n: nat)
    requires ValidShard(shard) && Catalogue(views, tests, n) && on <= tests && Selected(flags, shard, views, on)
    requires var row := AllFlags(RulesOf(flags), views); numSelected == SelectedCount(shard, row, |row|)
    ensures numSelected == 0 ==> on == {}
  {
    if numSelected == 0 {
      forall x | x in on ensures false {
        NotSelected(views, flags, shard, on, tests, n, x);
      }
    }
  }

  lemma NotSelected(views: seq<CaseView>, flags: Flags, shard: Option<Shard>, on: set<TestInfo>, tests: set<TestInfo>, n: nat,
                    x: TestInfo)
    requires ValidShard(shard) && Catalogue(views, tests, n) && x in tests && Selected(flags, shard, views, on)
    requires var row := AllFlags(RulesOf(flags), views); SelectedCount(shard, row, |row|) == 0
    ensures x !in on
  {
    assert Holds(views, x);
    var k :| 0 <= k < |views| && x in views[k].infos;
    var j :| 0 <= j < |views[k].infos| && views[k].infos[j] == x;
    NoneSelected(RulesOf(flags), shard, views, k, j);
    SelectedAt(flags, shard, views, on, k, j);
  }

  lemma SelectedAt(flags: Flags, shard: Option<Shard>, views: seq<CaseView>, on: set<TestInfo>, k: nat, j: nat)
    requires ValidShard(shard) && Selected(flags, shard, views, on) && k < |views| && j < |views[k].infos|
    ensures views[k].infos[j] in on <==> AllVerdicts(RulesOf(flags), shard, views)[k][j].shouldRun
  {
    var verdicts: seq<seq<Verdict>> := AllVerdicts(RulesOf(flags), shard, views);
    assert |verdicts[k]| == |views[k].infos|;
  }

  /** Do the flags --gtest_filter and --gtest_also_run_disabled_tests select the test? */
  ghost predicate FlagsSelect(flags: Flags, caseName: CString, testName: CString) {
    match flags
    case Flags(filter, alsoRunDisabledTests, disabled) =>
      && (alsoRunDisabledTests || !(FilterAccepts(disabled, caseName) || FilterAccepts(disabled, testName)))
      && TestSelected(filter, FullName(caseName, testName))
  }

  /** The tests in `on` are those of `infos` that the flags select. */
  ghost predicate OnByFlags(on: set<TestInfo>, flags: Flags, infos: seq<TestInfo>) {
    match flags
    case Flags(_, _, _) => forall x :: x in infos ==> (x in on <==> FlagsSelect(flags, x.testCaseName, x.name))
  }

  /** Without shards, what the flags say of a test decides. */
  lemma UnshardedSelection(flags: Flags, views: seq<CaseView>, on: set<TestInfo>, tests: set<TestInfo>, n: nat, x: TestInfo)
    requires Selected(flags, None, views, on) && Catalogue(views, tests, n) && x in tests
    ensures x in on <==> FlagsSelect(flags, x.testCaseName, x.name)
  {
    assert Holds(views, x);
    var k :| 0 <= k < |views| && x in views[k].infos;
    var j :| 0 <= j < |views[k].infos| && views[k].infos[j] == x;
    UnshardedVerdict(RulesOf(flags), views, k, j);
    SelectedAt(flags, None, views, on, k, j);
    RunnableBy(flags, x.testCaseName, x.name);
  }

  lemma RunnableBy(flags: Flags, caseName: CString, testName: CString)
    ensures Runnable(RulesOf(flags), caseName, testName) <==> FlagsSelect(flags, caseName, testName)
  {
  }

  lemma SelectedByFlags(flags: Flags, shard: Option<Shard>, views: seq<CaseView>, on: set<TestInfo>, infos: seq<TestInfo>,
                        death: string -> bool)
    requires ValidShard(shard) && Selected(flags, shard, views, on) && views == Registered(infos, death) && Distinct(infos)
    ensures shard.None? ==> OnByFlags(on, flags, infos)
  {
    if shard.None? {
      RegisteredCatalogue(infos, death);
      forall x | x in infos ensures x in on <==> FlagsSelect(flags, x.testCaseName, x.name) {
        UnshardedSelection(flags, views, on, Members(infos), |infos|, x);
      }
    }
  }

  /** Runs the tests of a new registry. */
  method RunRegistered(impl: UnitTestImpl, infos: seq<TestInfo>, flags: Flags, shard: Option<Shard>, shuffle: bool, randomSeed: int,
                       time: int, repeat: nat, ghost views: seq<CaseView>)
    returns (iterations: seq<seq<TestInfo>>, ghost on: set<TestInfo>, ghost plan: imap<nat, seq<TestInfo>>)
    requires impl.Registering() && Views(impl.testCases) == views == Registered(infos, impl.isDeathTest)
    requires Distinct(infos) && ValidShard(shard)
    modifies impl.testCases, infos, impl.random, impl.testCaseIndices, set t | t in impl.testCases :: t.testIndices
    ensures impl.Registering() && IsPlan(plan, Setup(views, impl.lastDeathTestCase + 1, shuffle))
    ensures iterations == Runs(plan, FirstSeed(shuffle, randomSeed, time), on, repeat)
    ensures forall i :: 0 <= i < repeat ==> RanEachOnce(iterations[i], on, impl.isDeathTest)
    ensures on <= Members(infos) && Selected(flags, shard, views, on) && (shard.None? ==> OnByFlags(on, flags, infos))
  {
    RegisteredCatalogue(infos, impl.isDeathTest);
    iterations, on, plan := RunAllTests(impl, flags, shard, shuffle, randomSeed, time, repeat, views, Members(infos), |infos|);
    RegisteredRunsEachOnce(impl, plan, views, shuffle, FirstSeed(shuffle, randomSeed, time), on, repeat, Members(infos), |infos|);
    SelectedByFlags(flags, shard, views, on, infos, impl.isDeathTest);
  }

  /** Registers the tests and runs them. */
  method RunTests(infos: seq<TestInfo>, filter: CString, alsoRunDisabledTests: bool, shard: Option<Shard>, shuffle: bool,
                  randomSeed: int, time: int, repeat: nat)
    returns (iterations: seq<seq<TestInfo>>, ghost on: set<TestInfo>, ghost impl: UnitTestImpl, ghost views: seq<CaseView>,
             ghost plan: imap<nat, seq<TestInfo>>)
    requires Distinct(infos) && |infos| < MAX_RANGE && ValidShard(shard)
    modifies infos
    ensures impl.Registering() && impl.deathTestCaseFilter == DEATH_TEST_CASE_FILTER
    ensures views == Registered(infos, impl.isDeathTest) && IsPlan(plan, Setup(views, impl.lastDeathTestCase + 1, shuffle))
    ensures iterations == Runs(plan, FirstSeed(shuffle, randomSeed, time), on, repeat)
    ensures forall i :: 0 <= i < repeat ==> RanEachOnce(iterations[i], on, impl.isDeathTest)
    ensures on <= Members(infos) && Selected(FlagsOf(filter, alsoRunDisabledTests), shard, views, on)
    ensures shard.None? ==> OnByFlags(on, FlagsOf(filter, alsoRunDisabledTests), infos)
  {
    var registry := RegisterAll(infos);
    impl, views := registry, Registered(infos, registry.isDeathTest);
    iterations, on, plan := RunRegistered(registry, infos, FlagsOf(filter, alsoRunDisabledTests), shard, shuffle,
                                         randomSeed, time, repeat, views);
  }
}
