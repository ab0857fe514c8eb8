/** The tests of the cases, and that each of them runs once (gtest.cc). */
module TestCatalogue {
  import opened Sequences
  import opened Shuffling
  import opened TestRegistry
  import opened TestOrder

  // ----- which tests the cases hold -----

  ghost predicate Holds(views: seq<CaseView>, x: TestInfo) {
    exists k :: 0 <= k < |views| && x in views[k].infos
  }

  /** The cases hold the tests in `seen`, no more than `n`. */
  ghost predicate Catalogue(views: seq<CaseView>, seen: set<TestInfo>, n: nat) {
    && OwnTests(views) && Named(views)
    && |views| <= n && (forall k :: 0 <= k < |views| ==> |views[k].infos| <= n)
    && (forall k, x :: 0 <= k < |views| && x in views[k].infos ==> x in seen)
    && (forall x :: x in seen ==> Holds(views, x))
  }

  lemma WithTestHolds(views: seq<CaseView>, at: nat, info: TestInfo, x: TestInfo)
    requires at <= |views|
    ensures Holds(WithTest(views, at, info), x) <==> Holds(views, x) || x == info
  {
    var now, f := WithTest(views, at, info), Find(views, info.testCaseName);
    if f == |views| {
      InsertAtElements(views, at, CaseView(info.testCaseName, [info]));
      assert now[at].infos == [info];
    } else {
      assert now[f].infos == views[f].infos + [info];
    }
    if Holds(views, x) {
      var k :| 0 <= k < |views| && x in views[k].infos;
      assert x in now[if f < |views| || k < at then k else k + 1].infos;
    }
    if x == info {
      assert info in now[if f < |views| then f else at].infos;
    }
    if Holds(now, x) && x != info {
      var k :| 0 <= k < |now| && x in now[k].infos;
      assert x in views[if f < |views| || k < at then k else k - 1].infos;
    }
  }

  /** What one registration adds. */
  lemma WithTestAdds(views: seq<CaseView>, at: nat, info: TestInfo, seen: set<TestInfo>, n: nat)
    requires at <= |views| && Catalogue(views, seen, n) && info !in seen
    ensures Catalogue(WithTest(views, at, info), seen + {info}, n + 1)
  {
    var now, f := WithTest(views, at, info), Find(views, info.testCaseName);
    WithTestKeepsPlaces(views, at, info);
    if f == |views| {
      InsertAtElements(views, at, CaseView(info.testCaseName, [info]));
    }
    forall x: TestInfo ensures Holds(now, x) <==> x in seen + {info} {
      WithTestHolds(views, at, info, x);
    }
    forall k, x | 0 <= k < |now| && x in now[k].infos ensures x in seen + {info} {
      assert Holds(now, x);
    }
  }

  /** The cases hold the registered tests. */
  lemma {:induction false} RegisteredCatalogue(infos: seq<TestInfo>, death: string -> bool)
    requires Distinct(infos)
    ensures Catalogue(Registered(infos, death), Members(infos), |infos|)
  {
    if infos != [] {
      var n := |infos| - 1;
      RegisteredCatalogue(infos[..n], death);
      NextMember(infos, n);
      NextMember(infos, n + 1);
      var views, info := Registered(infos[..n], death), infos[n];
      WithTestAdds(views, if death(info.testCaseName) then DeathCases(views, death) else |views|, info, Members(infos[..n]), n);
    }
  }

  // ----- each test once -----

  /** The order lists each case and each of its tests once, with the first `mid` cases first. */
  ghost predicate ListsEachOnce(order: Order, views: seq<CaseView>, mid: nat) {
    && |order.cases| == |views| == |order.tests| && TwoBlocks(order.cases, mid)
    && forall k :: 0 <= k < |views| ==>
         |order.tests[k]| == |views[k].infos| && TwoBlocks(order.tests[k], |views[k].infos|)
  }

  lemma ListingFits(order: Order, views: seq<CaseView>, mid: nat)
    requires ListsEachOnce(order, views, mid)
    ensures Fits(order, views)
  {
    BlockBounds(order.cases, mid);
    forall k | 0 <= k < |views| ensures InRange(order.tests[k], |views[k].infos|) {
      BlockBounds(order.tests[k], |views[k].infos|);
    }
  }

  lemma RegisteredListsOnce(order: Order, views: seq<CaseView>, mid: nat)
    requires AsRegistered(order, views) && mid <= |views|
    ensures ListsEachOnce(order, views, mid)
  {
    IdentityPermutes(|views|, mid);
    forall k | 0 <= k < |views| ensures TwoBlocks(order.tests[k], |views[k].infos|) {
      IdentityPermutes(|views[k].infos|, |views[k].infos|);
    }
  }

  lemma ShuffledBlock(n: nat, state: nat)
    ensures var indices := ShuffledAll(Identity(0, n), state).0; |indices| == n && TwoBlocks(indices, n)
  {
    var indices := ShuffledAll(Identity(0, n), state).0;
    ShuffledByDraws(Identity(0, n), state, 0, n);
    RangeIsPermuted(Identity(0, n), indices, 0, n);
    assert Identity(0, n)[0..n] == Identity(0, n);
    assert indices[n..n] == Identity(n, n);
  }

  lemma ShuffledListsOnce(order: Order, views: seq<CaseView>, mid: nat, seed: nat)
    requires mid <= |views| && ShuffledFrom(order, views, mid, seed)
    ensures ListsEachOnce(order, views, mid)
  {
    IdentityPermutes(|views|, mid);
    BlocksStayBlocks(Identity(0, |views|), seed, mid);
    var states :| ShufflesCases(order.tests, views, states) &&
      (order.cases, states[0]) == ShuffledBlocks(Identity(0, |views|), seed, mid);
    forall k | 0 <= k < |views|
      ensures |order.tests[k]| == |views[k].infos| && TwoBlocks(order.tests[k], |views[k].infos|)
    {
      assert (order.tests[k], states[k + 1]) == ShuffledAll(Identity(0, |views[k].infos|), states[k]);
      ShuffledBlock(|views[k].infos|, states[k]);
    }
  }

  ghost function Lists(views: seq<CaseView>): map<int, seq<TestInfo>> {
    map k | 0 <= k < |views| :: views[k].infos
  }

  lemma PicksAll(views: seq<CaseView>, order: Order, mid: nat, c: nat)
    requires Fits(order, views) && ListsEachOnce(order, views, mid) && c < |views|
    ensures multiset(Pick(views[c].infos, order.tests[c])) == multiset(views[c].infos)
  {
    PickAt(views[c].infos, order.tests[c]);
    ListedByPermutation(views[c].infos, order.tests[c], |views[c].infos|, Pick(views[c].infos, order.tests[c]));
  }

  lemma CountOfCase<K>(before: seq<TestInfo>, picked: seq<TestInfo>, keys: seq<K>, c: K, lists: map<K, seq<TestInfo>>, x: TestInfo)
    requires c in lists && forall j :: j in keys ==> j in lists
    requires multiset(picked) == multiset(lists[c]) && multiset(before)[x] == Occurrences(keys, lists, x)
    ensures forall j :: j in keys + [c] ==> j in lists
    ensures multiset(before + picked)[x] == Occurrences(keys + [c], lists, x)
  {
    OccurrencesSnoc(keys, c, lists, x);
  }

  /** A test comes as often as the cases together hold it. */
  lemma {:induction false} CountUpTo(views: seq<CaseView>, order: Order, mid: nat, n: nat, x: TestInfo)
    requires Fits(order, views) && ListsEachOnce(order, views, mid) && n <= |views|
    ensures forall k :: k in order.cases[..n] ==> k in Lists(views)
    ensures multiset(TestsUpTo(views, order, n))[x] == Occurrences(order.cases[..n], Lists(views), x)
  {
    if n > 0 {
      var c := order.cases[n - 1];
      CountUpTo(views, order, mid, n - 1, x);
      PicksAll(views, order, mid, c);
      Prefixes(order.cases, n - 1);
      CountOfCase(TestsUpTo(views, order, n - 1), Pick(views[c].infos, order.tests[c]), order.cases[..n - 1], c, Lists(views), x);
    }
  }

  lemma OnceAmongCases(views: seq<CaseView>, tests: set<TestInfo>, m: nat, x: TestInfo)
    requires Catalogue(views, tests, m) && x in tests
    ensures Occurrences(Identity(0, |views|), Lists(views), x) == 1
  {
    assert Holds(views, x);
    var k :| 0 <= k < |views| && x in views[k].infos;
    OnceInDistinct(views[k].infos, x);
    forall i | 0 <= i < |views| && i != k ensures x !in views[i].infos {
      assert if i < k then Apart(views[i].infos, views[k].infos) else Apart(views[k].infos, views[i].infos);
    }
    OccursOnce(Identity(0, |views|), Lists(views), x, k);
  }

  lemma OnceInTurn(views: seq<CaseView>, order: Order, mid: nat, tests: set<TestInfo>, m: nat, x: TestInfo)
    requires Fits(order, views) && ListsEachOnce(order, views, mid) && Catalogue(views, tests, m) && x in tests
    ensures multiset(TestsIn(views, order))[x] == 1
  {
    var cases := order.cases;
    CountUpTo(views, order, mid, |views|, x);
    Prefixes(cases, 0);
    WholePermutation(cases, mid);
    OccurrencesPermuted(cases, Identity(0, |views|), Lists(views), x);
    OnceAmongCases(views, tests, m, x);
  }

  /** No test of a death test case comes after another test. */
  ghost predicate DeathFirst(ran: seq<TestInfo>, death: string -> bool) {
    forall i, j :: 0 <= i < j < |ran| && death(ran[j].testCaseName) ==> death(ran[i].testCaseName)
  }

  ghost predicate AllDeath(ran: seq<TestInfo>, death: string -> bool) {
    forall x :: x in ran ==> death(x.testCaseName)
  }

  ghost predicate NoDeath(ran: seq<TestInfo>, death: string -> bool) {
    forall x :: x in ran ==> !death(x.testCaseName)
  }

  lemma DeathFirstGrows(ran: seq<TestInfo>, more: seq<TestInfo>, death: string -> bool)
    requires DeathFirst(ran, death) && ((AllDeath(ran, death) && AllDeath(more, death)) || NoDeath(more, death))
    ensures DeathFirst(ran + more, death)
    ensures AllDeath(ran, death) && AllDeath(more, death) ==> AllDeath(ran + more, death)
  {
    var all := ran + more;
    assert forall k :: |ran| <= k < |all| ==> all[k] in more;
    assert forall k :: 0 <= k < |ran| ==> all[k] in ran;
  }

  /** The cases are death test cases up to `mid`, and the tests carry the name of their case. */
  ghost predicate DeathUpTo(views: seq<CaseView>, mid: nat, death: string -> bool) {
    Named(views) && forall k :: 0 <= k < |views| ==> (death(views[k].name) <==> k < mid)
  }

  lemma KeptOfCase(views: seq<CaseView>, indices: seq<int>, c: nat, mid: nat, on: set<TestInfo>, death: string -> bool)
    requires DeathUpTo(views, mid, death) && c < |views| && InRange(indices, |views[c].infos|)
    ensures var more := Kept(Pick(views[c].infos, indices), on); if c < mid then AllDeath(more, death) else NoDeath(more, death)
  {
    var picked := Pick(views[c].infos, indices);
    PickAt(views[c].infos, indices);
    forall x | x in Kept(picked, on) ensures x in views[c].infos {
      KeptCount(picked, on, x);
      assert x in multiset(Kept(picked, on)) && x in multiset(picked);
    }
  }

  /** `ran` has only tests of death test cases if `only` holds, and in any case has those first. */
  ghost predicate DeathSoFar(ran: seq<TestInfo>, death: string -> bool, only: bool) {
    DeathFirst(ran, death) && (only ==> AllDeath(ran, death))
  }

  lemma DeathFirstNext(before: seq<TestInfo>, picked: seq<TestInfo>, on: set<TestInfo>, death: string -> bool, only: bool)
    requires DeathSoFar(Kept(before, on), death, only)
    requires if only then AllDeath(Kept(picked, on), death) else NoDeath(Kept(picked, on), death)
    ensures DeathSoFar(Kept(before + picked, on), death, only)
  {
    KeptOfParts(before, picked, on);
    DeathFirstGrows(Kept(before, on), Kept(picked, on), death);
  }

  lemma {:induction false} DeathFirstUpTo(views: seq<CaseView>, order: Order, mid: nat, on: set<TestInfo>, death: string -> bool, n: nat)
    requires Fits(order, views) && |order.cases| == |views| && DeathUpTo(views, mid, death) && n <= |views|
    requires forall k :: 0 <= k < |views| ==> (order.cases[k] < mid <==> k < mid)
    ensures DeathSoFar(Kept(TestsUpTo(views, order, n), on), death, n <= mid)
  {
    if n > 0 {
      DeathFirstUpTo(views, order, mid, on, death, n - 1);
      DeathFirstStep(views, order, mid, on, death, n - 1, order.cases[n - 1]);
    }
  }

  lemma DeathFirstStep(views: seq<CaseView>, order: Order, mid: nat, on: set<TestInfo>, death: string -> bool, n: nat, c: nat)
    requires Fits(order, views) && DeathUpTo(views, mid, death) && n < |order.cases| && c == order.cases[n] < |views|
    requires DeathSoFar(Kept(TestsUpTo(views, order, n), on), death, n <= mid) && (c < mid <==> n < mid)
    ensures DeathSoFar(Kept(TestsUpTo(views, order, n + 1), on), death, n + 1 <= mid)
  {
    KeptOfCase(views, order.tests[c], c, mid, on, death);
    DeathFirstNext(TestsUpTo(views, order, n), Pick(views[c].infos, order.tests[c]), on, death, n < mid);
  }

  /** The tests in `on`, and no others, have run, each once, with those of death test cases first. */
  ghost predicate RanEachOnce(ran: seq<TestInfo>, on: set<TestInfo>, death: string -> bool) {
    multiset(ran) == multiset(on) && DeathFirst(ran, death)
  }

  lemma EachOnceInOrder(views: seq<CaseView>, order: Order, mid: nat, tests: set<TestInfo>, m: nat, on: set<TestInfo>,
                        death: string -> bool)
    requires Fits(order, views) && ListsEachOnce(order, views, mid) && Catalogue(views, tests, m) && on <= tests
    requires DeathUpTo(views, mid, death)
    ensures RanEachOnce(Kept(TestsIn(views, order), on), on, death)
  {
    var all := TestsIn(views, order);
    var ran := Kept(all, on);
    forall x | x in ran ensures x in on {
      KeptCount(all, on, x);
      assert x in multiset(ran);
    }
    forall x | x in on ensures multiset(ran)[x] == 1 {
      KeptCount(all, on, x);
      OnceInTurn(views, order, mid, tests, m, x);
    }
    SameAsSet(ran, on);
    BlockBounds(order.cases, mid);
    DeathFirstUpTo(views, order, mid, on, death, |views|);
  }

  /** In every iteration, shuffled or not, each of the tests in `on` runs once and no other test runs, with those of
  death test cases first. */
  lemma RunsEachOnce(plan: imap<nat, seq<TestInfo>>, setup: Setup, first: nat, on: set<TestInfo>, n: nat, tests: set<TestInfo>,
                     m: nat, death: string -> bool)
    requires IsPlan(plan, setup) && (first == 0 || ValidSeed(first)) && Catalogue(setup.views, tests, m) && on <= tests
    requires DeathUpTo(setup.views, setup.mid, death)
    ensures forall i :: 0 <= i < n ==> RanEachOnce(Runs(plan, first, on, n)[i], on, death)
  {
    forall i | 0 <= i < n ensures RanEachOnce(Runs(plan, first, on, n)[i], on, death) {
      var order := RunHasOrder(plan, setup, first, on, n, i);
      EachOnceInOrder(setup.views, order, setup.mid, tests, m, on, death);
    }
  }

  lemma RunHasOrder(plan: imap<nat, seq<TestInfo>>, setup: Setup, first: nat, on: set<TestInfo>, n: nat, i: nat)
    returns (order: Order)
    requires IsPlan(plan, setup) && (first == 0 || ValidSeed(first)) && i < n
    ensures Fits(order, setup.views) && ListsEachOnce(order, setup.views, setup.mid)
    ensures Runs(plan, first, on, n)[i] == Kept(TestsIn(setup.views, order), on)
  {
    RunsInOrder(plan, setup, first, on, n, i);
    var run, views, mid := Runs(plan, first, on, n)[i], setup.views, setup.mid;
    if setup.shuffle {
      order :| Fits(order, views) && ShuffledFrom(order, views, mid, SeedAt(first, i)) && run == Kept(TestsIn(views, order), on);
      ShuffledListsOnce(order, views, mid, SeedAt(first, i));
    } else {
      order := Order(Identity(0, |views|), seq(|views|, k requires 0 <= k < |views| => Identity(0, |views[k].infos|)));
      RegisteredListsOnce(order, views, mid);
      ListingFits(order, views, mid);
      TestsAsRegistered(views, order);
    }
  }
}
