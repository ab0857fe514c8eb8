/** The linear congruential generator and the in-place Fisher-Yates shuffle (gtest.cc, gtest-internal-inl.h). */
module Shuffling {
  import opened Sequences

  /** `std::vector`: a list that its owner changes in place. */
  class Vector<T> {
    var elems: seq<T>

    constructor ()
      ensures elems == []
    {
      elems := [];
    }
  }

  // ----- random numbers -----

  const MAX_RANGE: nat := 0x8000_0000

  /** One step of the generator, in 32-bit unsigned arithmetic. */
  function NextState(state: nat): nat {
    (1103515245 * state + 12345) % 0x1_0000_0000 % MAX_RANGE
  }

  class Random {
    var state: nat

    constructor (seed: nat)
      ensures state == seed
    {
      state := seed;
    }

    method Reseed(seed: nat)
      modifies this
      ensures state == seed
    {
      state := seed;
    }

    /** A number below `range`; the program is aborted if `range` is 0 or above `MAX_RANGE`. */
    method Generate(range: nat) returns (r: nat)
      requires 0 < range <= MAX_RANGE
      modifies this
      ensures state == NextState(old(state)) && r == state % range && r < range
    {
      state := (1103515245 * state + 12345) % 0x1_0000_0000 % MAX_RANGE;
      return state % range;
    }
  }

  /** The numbers that a shuffle of `width` elements draws, and the state it leaves behind. */
  function Draws(state: nat, width: nat): seq<nat>
    decreases width
  {
    if width < 2 then [] else [NextState(state) % width] + Draws(NextState(state), width - 1)
  }

  function StateAfter(state: nat, width: nat): nat
    decreases width
  {
    if width < 2 then state else StateAfter(NextState(state), width - 1)
  }

  // ----- the shuffle as a function of its draws -----

  /** The draws fit a range of the given width: one from each of [0, width), ..., [0, 2). */
  predicate ValidDraws(draws: seq<nat>, width: nat) {
    if width < 2 then draws == [] else draws != [] && draws[0] < width && ValidDraws(draws[1..], width - 1)
  }

  function Swap<T>(s: seq<T>, i: nat, j: nat): seq<T>
    requires i < |s| && j < |s|
  {
    s[i := s[j]][j := s[i]]
  }

  function FisherYates<T>(s: seq<T>, begin: nat, width: nat, draws: seq<nat>): (t: seq<T>)
    requires begin + width <= |s| && ValidDraws(draws, width)
    ensures |t| == |s|
    decreases width
  {
    if width < 2 then s
    else FisherYates(Swap(s, begin + draws[0], begin + width - 1), begin, width - 1, draws[1..])
  }

  /** `t` has the elements of `s`, rearranged in [begin, end) only. */
  ghost predicate Rearranges<T>(s: seq<T>, t: seq<T>, begin: nat, end: nat)
    requires begin <= end <= |s|
  {
    && |t| == |s|
    && (forall k :: 0 <= k < |s| && !(begin <= k < end) ==> t[k] == s[k])
    && multiset(t) == multiset(s)
  }

  lemma {:induction false} DrawsAreValid(state: nat, width: nat)
    ensures ValidDraws(Draws(state, width), width)
    decreases width
  {
    if width >= 2 {
      DrawsAreValid(NextState(state), width - 1);
      assert Draws(state, width)[1..] == Draws(NextState(state), width - 1);
    }
  }

  lemma MultisetOfSwap<T>(s: seq<T>, i: nat, j: nat)
    requires i < |s| && j < |s|
    ensures multiset(Swap(s, i, j)) == multiset(s)
  {
  }

  lemma MultisetOfParts<T>(s: seq<T>, begin: nat, end: nat)
    requires begin <= end <= |s|
    ensures multiset(s) == multiset(s[..begin]) + multiset(s[begin..end]) + multiset(s[end..])
  {
    assert s == s[..begin] + s[begin..end] + s[end..];
  }

  /** So the range itself is permuted. */
  lemma RangeIsPermuted<T>(s: seq<T>, t: seq<T>, begin: nat, end: nat)
    requires begin <= end <= |s| && Rearranges(s, t, begin, end)
    ensures multiset(t[begin..end]) == multiset(s[begin..end])
  {
    MultisetOfParts(s, begin, end);
    MultisetOfParts(t, begin, end);
    assert t[..begin] == s[..begin] && t[end..] == s[end..];
    var before, after := multiset(s[..begin]), multiset(s[end..]);
    assert before + multiset(t[begin..end]) + after == before + multiset(s[begin..end]) + after;
    CancelMultisets(before, multiset(t[begin..end]), multiset(s[begin..end]), after);
  }

  lemma CancelMultisets<T>(a: multiset<T>, b: multiset<T>, c: multiset<T>, d: multiset<T>)
    requires a + b + d == a + c + d
    ensures b == c
  {
    forall x ensures b[x] == c[x] {
      assert (a + b + d)[x] == (a + c + d)[x];
    }
  }

  /** Every sequence of draws permutes the range and leaves the rest alone. */
  lemma {:induction false} ShufflePermutes<T>(s: seq<T>, begin: nat, width: nat, draws: seq<nat>)
    requires begin + width <= |s| && ValidDraws(draws, width)
    ensures Rearranges(s, FisherYates(s, begin, width, draws), begin, begin + width)
    decreases width
  {
    if width >= 2 {
      MultisetOfSwap(s, begin + draws[0], begin + width - 1);
      ShufflePermutes(Swap(s, begin + draws[0], begin + width - 1), begin, width - 1, draws[1..]);
    }
  }

  /** Every permutation of the range comes from some sequence of draws. */
  lemma {:induction false} ShuffleReachesAll<T>(s: seq<T>, t: seq<T>, begin: nat, width: nat) returns (draws: seq<nat>)
    requires begin + width <= |s| && Rearranges(s, t, begin, begin + width)
    ensures ValidDraws(draws, width) && FisherYates(s, begin, width, draws) == t
    decreases width
  {
    if width < 2 {
      draws := [];
      OneElementFixed(s, t, begin, begin + width);
    } else {
      var i := SwapTowards(s, t, begin, begin + width);
      var draw, u := i - begin, Swap(s, i, begin + width - 1);
      assert u == Swap(s, begin + draw, begin + width - 1);
      var rest := ShuffleReachesAll(u, t, begin, width - 1);
      draws := PrependDraw(s, begin, width, draw, rest);
    }
  }

  lemma PrependDraw<T>(s: seq<T>, begin: nat, width: nat, draw: nat, rest: seq<nat>) returns (draws: seq<nat>)
    requires 2 <= width && begin + width <= |s| && draw < width && ValidDraws(rest, width - 1)
    ensures ValidDraws(draws, width)
    ensures FisherYates(s, begin, width, draws) == FisherYates(Swap(s, begin + draw, begin + width - 1), begin, width - 1, rest)
  {
    draws := [draw] + rest;
    assert draws[1..] == rest;
  }

  lemma SourceOfLast<T>(s: seq<T>, t: seq<T>, begin: nat, end: nat) returns (i: nat)
    requires begin < end <= |s| && Rearranges(s, t, begin, end)
    ensures begin <= i < end && s[i] == t[end - 1]
  {
    RangeIsPermuted(s, t, begin, end);
    assert t[begin..end][end - 1 - begin] == t[end - 1];
    assert t[end - 1] in multiset(t[begin..end]);
    assert t[end - 1] in s[begin..end];
    var d :| 0 <= d < end - begin && s[begin..end][d] == t[end - 1];
    i := begin + d;
  }

  lemma OneElementFixed<T>(s: seq<T>, t: seq<T>, begin: nat, end: nat)
    requires begin <= end <= |s| && end - begin < 2 && Rearranges(s, t, begin, end)
    ensures t == s
  {
    if begin < end {
      var i := SourceOfLast(s, t, begin, end);
    }
  }

  /** One swap puts the last element of the range in place. */
  lemma SwapTowards<T>(s: seq<T>, t: seq<T>, begin: nat, end: nat) returns (i: nat)
    requires begin < end <= |s| && Rearranges(s, t, begin, end)
    ensures begin <= i < end && Rearranges(Swap(s, i, end - 1), t, begin, end - 1)
  {
    i := SourceOfLast(s, t, begin, end);
    MultisetOfSwap(s, i, end - 1);
  }

  /** The element that the first draw moves to the end of the range stays there. */
  lemma LastElement<T>(s: seq<T>, begin: nat, width: nat, draws: seq<nat>)
    requires 2 <= width && begin + width <= |s| && ValidDraws(draws, width)
    ensures FisherYates(s, begin, width, draws)[begin + width - 1] == s[begin + draws[0]]
  {
    var u := Swap(s, begin + draws[0], begin + width - 1);
    ShufflePermutes(u, begin, width - 1, draws[1..]);
  }

  /** ... and, if the elements are distinct, from one only: the draws are in bijection with the permutations. */
  lemma {:induction false} ShuffleIsInjective<T>(s: seq<T>, begin: nat, width: nat, draws: seq<nat>, draws': seq<nat>)
    requires Distinct(s) && begin + width <= |s| && ValidDraws(draws, width) && ValidDraws(draws', width)
    requires FisherYates(s, begin, width, draws) == FisherYates(s, begin, width, draws')
    ensures draws == draws'
    decreases width
  {
    if width >= 2 {
      LastElement(s, begin, width, draws);
      LastElement(s, begin, width, draws');
      assert draws[0] == draws'[0];
      ShuffleIsInjective(Swap(s, begin + draws[0], begin + width - 1), begin, width - 1, draws[1..], draws'[1..]);
      assert draws == [draws[0]] + draws[1..] && draws' == [draws'[0]] + draws'[1..];
    }
  }

  // ----- the code -----

  /** The vector and the generator state that shuffling with the numbers after `state` leaves behind. */
  function Shuffled<T>(s: seq<T>, state: nat, begin: nat, width: nat): (r: (seq<T>, nat))
    requires begin + width <= |s|
    ensures |r.0| == |s|
    decreases width
  {
    if width < 2 then (s, state)
    else
      var next := NextState(state);
      Shuffled(Swap(s, begin + next % width, begin + width - 1), next, begin, width - 1)
  }

  /** The outcome is the shuffle by the numbers drawn, so it permutes the range. */
  lemma {:induction false} ShuffledByDraws<T>(s: seq<T>, state: nat, begin: nat, width: nat)
    requires begin + width <= |s|
    ensures ValidDraws(Draws(state, width), width)
    ensures Shuffled(s, state, begin, width) == (FisherYates(s, begin, width, Draws(state, width)), StateAfter(state, width))
    ensures Rearranges(s, Shuffled(s, state, begin, width).0, begin, begin + width)
    decreases width
  {
    DrawsAreValid(state, width);
    ShufflePermutes(s, begin, width, Draws(state, width));
    if width >= 2 {
      var next := NextState(state);
      ShuffledByDraws(Swap(s, begin + next % width, begin + width - 1), next, begin, width - 1);
      assert Draws(state, width)[1..] == Draws(next, width - 1);
    }
  }

  /** Some shuffles move something: with the state 1, two elements change places. */
  lemma ShuffleMoves<T>(a: T, b: T)
    ensures Shuffled([a, b], 1, 0, 2).0 == [b, a]
  {
    assert NextState(1) == 1103527590;
    assert Swap([a, b], 0, 1) == [b, a];
    assert Shuffled([a, b], 1, 0, 2) == Shuffled([b, a], 1103527590, 0, 1);
  }

  lemma NextShuffled<T>(s: seq<T>, state: nat, begin: nat, width: nat)
    requires width >= 2 && begin + width <= |s|
    ensures var next := NextState(state);
      Shuffled(s, state, begin, width) == Shuffled(Swap(s, begin + next % width, begin + width - 1), next, begin, width - 1)
  {
  }

  /** Shuffles [begin, end) in place with the generator's numbers; the program is aborted on a bad range. */
  method ShuffleRange<T>(random: Random, begin: int, end: int, v: Vector<T>)
    requires 0 <= begin <= end <= |v.elems| <= MAX_RANGE
    modifies random, v
    ensures (v.elems, random.state) == Shuffled(old(v.elems), old(random.state), begin, end - begin)
  {
    var rangeWidth := end - begin;
    while rangeWidth >= 2
      invariant 0 <= rangeWidth <= end - begin && |v.elems| == |old(v.elems)|
      invariant Shuffled(v.elems, random.state, begin, rangeWidth) ==
                Shuffled(old(v.elems), old(random.state), begin, end - begin)
    {
      var lastInRange := begin + rangeWidth - 1;
      NextShuffled(v.elems, random.state, begin, rangeWidth);
      var draw := random.Generate(rangeWidth);
      var selected := begin + draw;
      v.elems := v.elems[selected := v.elems[lastInRange]][lastInRange := v.elems[selected]];
      rangeWidth := rangeWidth - 1;
    }
  }
}
