/** Smart pointers that share an object are linked in a circle (gtest-linked_ptr.h); `Ownership` says what they own.
One call runs at a time. */
module LinkedPtr {
  import opened Ownership
  import opened Sequences

  // ----- circles -----

  /** The position after `k` on a circle of `n`. */
  function Succ(k: nat, n: nat): nat {
    if k + 1 < n then k + 1 else 0
  }

  /** The position `k + 1` steps before `i` on a circle of `n`. */
  function Before(i: nat, k: nat, n: nat): nat
    requires i < n && k < n
  {
    if i > k then i - k - 1 else i + n - k - 1
  }

  /** The links of `c` form one circle. */
  ghost predicate Circle(c: seq<LinkedPtr>)
    reads c`next
  {
    c != [] && Distinct(c) && forall k {:trigger c[k].next} :: 0 <= k < |c| ==> c[k].next == c[Succ(k, |c|)]
  }

  ghost function Inserting(c: seq<LinkedPtr>, i: nat, x: LinkedPtr): seq<LinkedPtr>
    requires i <= |c|
  {
    c[..i] + [x] + c[i..]
  }

  ghost function Removing(c: seq<LinkedPtr>, i: nat): seq<LinkedPtr>
    requires i < |c|
  {
    c[..i] + c[i + 1..]
  }

  lemma SuccBefore(i: nat, left: nat, n: nat)
    requires i < n && left < n
    ensures Succ(Before(i, left, n), n) == if left > 0 then Before(i, left - 1, n) else i
  {
  }

  lemma OnlyOneBefore(c: seq<LinkedPtr>, i: nat, left: nat)
    requires Circle(c) && i < |c| && left < |c| && c[Before(i, left, |c|)].next == c[i]
    ensures left == 0
  {
    SuccBefore(i, left, |c|);
  }

  /** The old position of the `k`-th member, with a new one in the `i`-th place. */
  function Unshift(k: nat, i: nat): nat
    requires k != i
  {
    if k < i then k else k - 1
  }

  /** `x` is linked in before the `i`-th member. */
  lemma Inserted(c: seq<LinkedPtr>, i: nat, x: LinkedPtr)
    requires i < |c| && x !in c && Distinct(c)
    requires c[Before(i, 0, |c|)].next == x && x.next == c[i]
    requires forall k {:trigger c[k].next} :: 0 <= k < |c| && k != Before(i, 0, |c|) ==> c[k].next == c[Succ(k, |c|)]
    ensures Circle(Inserting(c, i, x))
  {
    var d := Inserting(c, i, x);
    assert d[i] == x && forall k :: 0 <= k < |d| && k != i ==> d[k] == c[Unshift(k, i)];
    assert d[Succ(i, |d|)] == c[Unshift(Succ(i, |d|), i)];
    forall k | 0 <= k < |d| && k != i ensures d[k].next == d[Succ(k, |d|)] {
      var u := Unshift(k, i);
      if u == Before(i, 0, |c|) {
        assert Succ(k, |d|) == i || i == 0;
      } else {
        assert c[u].next == c[Succ(u, |c|)];
      }
    }
  }

  /** The old position of the `k`-th member that remains without the `i`-th. */
  function Shift(k: nat, i: nat): nat {
    if k < i then k else k + 1
  }

  lemma SuccShift(k: nat, i: nat, n: nat)
    requires i < n && k < n - 1
    ensures Shift(Succ(k, n - 1), i) == if Shift(k, i) == Before(i, 0, n) then Succ(i, n) else Succ(Shift(k, i), n)
  {
  }

  /** The `i`-th member is linked out. */
  lemma Removed(c: seq<LinkedPtr>, i: nat)
    requires i < |c| && |c| > 1 && Distinct(c)
    requires c[Before(i, 0, |c|)].next == c[Succ(i, |c|)]
    requires forall k {:trigger c[k].next} :: 0 <= k < |c| && k != Before(i, 0, |c|) ==> c[k].next == c[Succ(k, |c|)]
    ensures Circle(Removing(c, i))
  {
    var d := Removing(c, i);
    assert forall k :: 0 <= k < |d| ==> d[k] == c[Shift(k, i)];
    forall k | 0 <= k < |d| ensures d[k].next == d[Succ(k, |d|)] {
      SuccShift(k, i, |c|);
      assert c[Shift(k, i)].next == c[Shift(Succ(k, |d|), i)];
    }
  }

  // ----- the circle of each linked_ptr -----

  type CircleMap = map<LinkedPtr, seq<LinkedPtr>>

  /** The circles are disjoint, and each linked_ptr is on its own. */
  ghost predicate Disjoint(m: CircleMap) {
    && (forall p :: p in m ==> p in m[p])
    && (forall p, q :: p in m && q in m[p] ==> q in m && m[q] == m[p])
  }

  /** The members of a circle hold the same. */
  ghost predicate Together(m: CircleMap, held: map<LinkedPtr, Raw>) {
    m.Keys == held.Keys && forall p, q :: p in m && q in m[p] && q in m ==> held[q] == held[p]
  }

  /** There is one circle for each object, and one for each linked_ptr to none. */
  ghost predicate OnePerObject(m: CircleMap, held: map<LinkedPtr, Raw>) {
    && Together(m, held)
    && (forall p :: p in m && held[p] == NULL ==> |m[p]| == 1)
    && (forall p, q :: p in m && q in m && held[p] == held[q] != NULL ==> q in m[p])
  }

  /** The circles when the members of `c` form the circle `c`, and `p`, if it is not one of them, has none. */
  ghost function Rewired(m: CircleMap, p: LinkedPtr, c: seq<LinkedPtr>): CircleMap {
    map q | q in m.Keys + (set x | x in c) && (q in c || q != p) :: if q in c || q !in m then c else m[q]
  }

  ghost predicate Linked(m: CircleMap)
    reads m.Keys`next
  {
    Disjoint(m) && forall p :: p in m ==> Circle(m[p])
  }

  /** No circle has gained a member. */
  ghost predicate Shrunk(m: CircleMap, t: CircleMap) {
    forall q, x :: q in t && x in t[q] ==> q in m && x in m[q]
  }

  lemma ShrunkAt(m: CircleMap, t: CircleMap, p: LinkedPtr)
    requires Shrunk(m, t) && p in t && p in m
    ensures forall k :: 0 <= k < |t[p]| ==> t[p][k] in m[p]
  {
  }

  lemma RemovingShrinks(m: CircleMap, p: LinkedPtr, c: seq<LinkedPtr>)
    requires Disjoint(m) && p in m && (forall q :: q in c <==> q in m[p] && q != p)
    ensures Shrunk(m, Rewired(m, p, c))
  {
  }

  lemma RewiredIsLinked(m: CircleMap, p: LinkedPtr, c: seq<LinkedPtr>)
    requires Disjoint(Rewired(m, p, c))
    requires c == [] || Circle(c)
    requires forall q :: q in m && q !in c && q != p ==> Circle(m[q])
    ensures Linked(Rewired(m, p, c))
  {
  }

  lemma CirclesApart(m: CircleMap, p: LinkedPtr)
    requires Disjoint(m) && p in m
    ensures forall q, x :: q in m && q !in m[p] && x in m[q] ==> x !in m[p]
  {
    forall q, x | q in m && x in m[q] && x in m[p] ensures q in m[p] {
      assert m[x] == m[q];
    }
  }

  ghost predicate Holding(m: CircleMap, held: map<LinkedPtr, Raw>)
    reads m.Keys`value
  {
    m.Keys == held.Keys && forall p :: p in m ==> p.value == held[p]
  }

  lemma RewiredHolds(m: CircleMap, held: map<LinkedPtr, Raw>, p: LinkedPtr, c: seq<LinkedPtr>)
    requires Holding(m, held) && p in c && forall q :: q in c && q != p ==> q in m
    ensures Holding(Rewired(m, p, c), held[p := p.value])
  {
  }

  lemma MembersRemoving(c: seq<LinkedPtr>, i: nat)
    requires Distinct(c) && i < |c|
    ensures forall q :: q in Removing(c, i) <==> q in c && q != c[i]
  {
    var rest := Removing(c, i);
    forall k | 0 <= k < |rest| ensures rest[k] in c && rest[k] != c[i] {
      assert rest[k] == if k < i then c[k] else c[k + 1];
    }
    forall q | q in c && q != c[i] ensures q in rest {
      var k :| 0 <= k < |c| && c[k] == q;
      assert q == rest[if k < i then k else k - 1];
    }
  }

  lemma RemovingKeepsMap(m: CircleMap, held: map<LinkedPtr, Raw>, p: LinkedPtr, c: seq<LinkedPtr>)
    requires Disjoint(m) && OnePerObject(m, held) && p in m && (forall q :: q in c <==> q in m[p] && q != p)
    requires |c| == |m[p]| - 1
    ensures Disjoint(Rewired(m, p, c)) && OnePerObject(Rewired(m, p, c), held - {p})
  {
    RemovingKeepsDisjoint(m, p, c);
  }

  lemma RemovingKeepsDisjoint(m: CircleMap, p: LinkedPtr, c: seq<LinkedPtr>)
    requires Disjoint(m) && p in m && (forall q :: q in c <==> q in m[p] && q != p)
    ensures Disjoint(Rewired(m, p, c))
  {
  }

  lemma AddingKeepsDisjoint(m: CircleMap, p: LinkedPtr, c: seq<LinkedPtr>)
    requires Disjoint(m) && p !in m && p in c && forall q :: q in c && q != p ==> q in m && forall x :: x in m[q] <==> x in c && x != p
    ensures Disjoint(Rewired(m, p, c))
  {
  }

  lemma AddingKeepsTogether(m: CircleMap, held: map<LinkedPtr, Raw>, p: LinkedPtr, c: seq<LinkedPtr>, raw: Raw)
    requires Disjoint(m) && Together(m, held) && p !in m && p in c
    requires forall q :: q in c && q != p ==> q in m && held[q] == raw && forall x :: x in m[q] <==> x in c && x != p
    ensures Together(Rewired(m, p, c), held[p := raw])
  {
  }

  lemma AddingKeepsMap(m: CircleMap, held: map<LinkedPtr, Raw>, p: LinkedPtr, c: seq<LinkedPtr>, raw: Raw)
    requires OnePerObject(m, held) && p !in m && p in c
    requires Together(Rewired(m, p, c), held[p := raw])
    requires raw == NULL ==> c == [p]
    requires raw != NULL ==> forall q :: q in m && held[q] == raw ==> q in c
    requires forall q :: q in c && q != p ==> q in m && held[q] == raw
    ensures OnePerObject(Rewired(m, p, c), held[p := raw])
  {
  }

  lemma AddingKeepsShape(m: CircleMap, held: map<LinkedPtr, Raw>, p: LinkedPtr, c: seq<LinkedPtr>)
    requires Disjoint(m) && OnePerObject(m, held) && p !in m && p in c && Circle(c)
    requires forall q :: q in c && q != p ==> q in m && held[q] == p.value && forall x :: x in m[q] <==> x in c && x != p
    requires p.value == NULL ==> c == [p]
    requires p.value != NULL ==> forall q :: q in m && held[q] == p.value ==> q in c
    requires forall q :: q in m && q !in c ==> Circle(m[q])
    requires Holding(m, held)
    ensures var t := Rewired(m, p, c); Linked(t) && OnePerObject(t, held[p := p.value]) && Holding(t, held[p := p.value])
  {
    AddingKeepsDisjoint(m, p, c);
    AddingKeepsTogether(m, held, p, c, p.value);
    AddingKeepsMap(m, held, p, c, p.value);
    RewiredIsLinked(m, p, c);
    RewiredHolds(m, held, p, c);
  }

  lemma MembersInserting(c: seq<LinkedPtr>, i: nat, x: LinkedPtr)
    requires i <= |c|
    ensures forall q :: q in Inserting(c, i, x) <==> q in c || q == x
  {
    assert c == c[..i] + c[i..];
  }

  /** An object's other holders are those on the circle. */
  lemma OthersOnCircle(m: CircleMap, held: map<LinkedPtr, Raw>, p: LinkedPtr)
    requires Disjoint(m) && OnePerObject(m, held) && p in m && Distinct(m[p])
    ensures held[p] != NULL ==> (|m[p]| > 1 <==> held[p] in (held - {p}).Values)
  {
    var c, rest := m[p], held - {p};
    if |c| > 1 {
      var q := c[if c[0] == p then 1 else 0];
      assert q in rest && rest[q] == held[p];
    }
    forall q | q in rest && rest[q] == held[p] != NULL ensures |c| > 1 {
      assert q in c;
    }
  }

  lemma ReleaseIs(s: Ownership<LinkedPtr>, p: LinkedPtr, last: bool)
    requires p in s.held && (s.held[p] != NULL ==> (last <==> s.held[p] !in (s.held - {p}).Values))
    ensures Released(s, p) ==
      s.(held := s.held - {p}, deleted := if last && s.held[p] != NULL then s.deleted + [s.held[p]] else s.deleted)
  {
  }

  // ----- linked_ptr -----

  /** What is known about all linked_ptrs in existence: the circle and the value of each, the raw pointers that were
  captured and the objects that were deleted. */
  class Circles {
    ghost var circleOf: CircleMap
    ghost var held: map<LinkedPtr, Raw>
    ghost var captured: set<Raw>
    ghost var deleted: seq<Raw>
    ghost var ops: seq<Op<LinkedPtr>>

    constructor ()
      ensures Valid() && ops == []
    {
      circleOf, held, captured, deleted, ops := map[], map[], {}, [], [];
    }

    ghost predicate Shape()
      reads `circleOf, `held, circleOf.Keys
    {
      && Linked(circleOf)
      && OnePerObject(circleOf, held)
      && Holding(circleOf, held)
    }

    /** Between operations, what is owned is what `ops` have led to. */
    ghost predicate Valid()
      reads this, circleOf.Keys
    {
      Shape() && LegalRun(ops) && St() == After(ops)
    }

    ghost function St(): Ownership<LinkedPtr>
      reads this
    {
      Ownership(held, captured, deleted)
    }

    /** `p` has left its circle. */
    ghost method Forget(p: LinkedPtr, rest: seq<LinkedPtr>)
      requires Disjoint(circleOf) && OnePerObject(circleOf, held) && p in circleOf
      requires (forall q :: q in rest <==> q in circleOf[p] && q != p) && |rest| == |circleOf[p]| - 1
      requires rest != [] ==> Circle(rest)
      requires forall q :: q in circleOf && q !in circleOf[p] ==> Circle(circleOf[q])
      requires Holding(circleOf, held)
      modifies `circleOf, `held
      ensures Shape() && held == old(held) - {p} && Shrunk(old(circleOf), circleOf)
    {
      RemovingKeepsMap(circleOf, held, p, rest);
      RemovingShrinks(circleOf, p, rest);
      RewiredIsLinked(circleOf, p, rest);
      Update(Rewired(circleOf, p, rest), held - {p});
    }

    /** `p` has joined the circle `c`. */
    ghost method Add(p: LinkedPtr, c: seq<LinkedPtr>)
      requires Disjoint(circleOf) && OnePerObject(circleOf, held) && p !in circleOf && p in c && Circle(c)
      requires forall q :: q in c && q != p ==>
        q in circleOf && held[q] == p.value && forall x :: x in circleOf[q] <==> x in c && x != p
      requires p.value == NULL ==> c == [p]
      requires p.value != NULL ==> forall q :: q in circleOf && held[q] == p.value ==> q in c
      requires forall q :: q in circleOf && q !in c ==> Circle(circleOf[q])
      requires Holding(circleOf, held)
      modifies `circleOf, `held
      ensures Shape() && held == old(held)[p := p.value]
    {
      AddingKeepsShape(circleOf, held, p, c);
      Update(Rewired(circleOf, p, c), held[p := p.value]);
    }

    ghost method Update(m: CircleMap, h: map<LinkedPtr, Raw>)
      requires Linked(m) && OnePerObject(m, h) && Holding(m, h)
      modifies `circleOf, `held
      ensures Shape() && circleOf == m && held == h
    {
      circleOf, held := m, h;
    }

    /** `op` has been carried out. */
    ghost method Record(op: Op<LinkedPtr>)
      requires Shape() && LegalRun(ops) && Legal(After(ops), op) && St() == Apply(After(ops), op)
      modifies `ops
      ensures Valid() && ops == old(ops) + [op]
    {
      Extended(ops, op);
      ops := ops + [op];
    }
  }

  class LinkedPtr {
    var value: Raw
    var next: LinkedPtr?

    // ----- links -----

    method JoinNew()
      modifies `next
      ensures Circle([this])
    {
      next := this;
    }

    /** Searches the circle `c` for the link to its `i`-th member, from `left + 1` steps before it. */
    static method FindLinkTo(ptr: LinkedPtr, start: LinkedPtr, ghost c: seq<LinkedPtr>, ghost i: nat, ghost left: nat)
        returns (p: LinkedPtr)
      requires Circle(c) && i < |c| && left < |c| && c[i] == ptr && c[Before(i, left, |c|)] == start
      ensures p == c[Before(i, 0, |c|)] && p.next == ptr
    {
      p := start;
      ghost var k := left;
      while p.next != ptr
        invariant 0 <= k < |c| && p == c[Before(i, k, |c|)]
        decreases k
      {
        SuccBefore(i, k, |c|);
        p := p.next;
        k := k - 1;
      }
      OnlyOneBefore(c, i, k);
    }

    /** Joins the circle `c` before its `i`-th member. */
    method Join(ptr: LinkedPtr, ghost c: seq<LinkedPtr>, ghost i: nat)
      requires Circle(c) && i < |c| && c[i] == ptr && this !in c
      modifies `next, c`next
      ensures Circle(Inserting(c, i, this))
    {
      var p := FindLinkTo(ptr, ptr, c, i, |c| - 1);
      p.next := this;
      next := ptr;
      Inserted(c, i, this);
    }

    /** Leaves the circle `c`; `last` says if nobody else is on it. */
    method LeaveCircle(ghost c: seq<LinkedPtr>, ghost i: nat) returns (last: bool)
      requires Circle(c) && i < |c| && c[i] == this
      modifies c`next
      ensures last <==> |c| == 1
      ensures !last ==> Circle(Removing(c, i))
    {
      if next == this {
        return true;
      }
      assert next == c[Before(i, |c| - 2, |c|)];
      var p := FindLinkTo(this, next, c, i, |c| - 2);
      p.next := next;
      last := false;
      Removed(c, i);
    }

    /** Leaves its circle; `rest` are the others on it, in their order. */
    method Unlink(ghost m: CircleMap) returns (last: bool, ghost rest: seq<LinkedPtr>)
      requires Linked(m) && this in m
      modifies m[this]`next
      ensures last <==> rest == []
      ensures exists i :: 0 <= i < |m[this]| && m[this][i] == this && rest == Removing(m[this], i)
      ensures (forall q :: q in rest <==> q in m[this] && q != this) && |rest| == |m[this]| - 1
      ensures (rest != [] ==> Circle(rest)) && forall q :: q in m && q !in m[this] ==> Circle(m[q])
    {
      ghost var c := m[this];
      ghost var i :| 0 <= i < |c| && c[i] == this;
      CirclesApart(m, this);
      last := LeaveCircle(c, i);
      forall q | q in m && q !in c ensures Circle(m[q]) {
        assert old(Circle(m[q]));
        forall x | x in m[q] ensures x.next == old(x.next) {
          assert x !in c;
        }
      }
      rest := Removing(c, i);
      MembersRemoving(c, i);
    }

    /** Joins the circle of `ptr`, which becomes `more`. */
    method Link(ptr: LinkedPtr, ghost m: CircleMap) returns (ghost more: seq<LinkedPtr>)
      requires Linked(m) && ptr in m && this !in m
      modifies `next, m[ptr]`next
      ensures Circle(more) && forall q :: q in more <==> q in m[ptr] || q == this
      ensures forall q :: q in m && q !in m[ptr] ==> Circle(m[q])
    {
      ghost var c := m[ptr];
      ghost var i :| 0 <= i < |c| && c[i] == ptr;
      CirclesApart(m, ptr);
      Join(ptr, c, i);
      forall q | q in m && q !in c ensures Circle(m[q]) {
        assert old(Circle(m[q]));
        forall x | x in m[q] ensures x.next == old(x.next) {
          assert x !in c && x != this;
        }
      }
      more := Inserting(c, i, this);
      MembersInserting(c, i, this);
    }

    // ----- what they point to -----

    /** Leaves the circle, and deletes the object if nobody else is on it. */
    method Depart(ghost w: Circles)
      requires w.Shape() && this in w.circleOf
      modifies w, w.circleOf[this]`next
      ensures w.Shape() && w.St() == Released(old(w.St()), this) && w.ops == old(w.ops)
      ensures Shrunk(old(w.circleOf), w.circleOf) && w.held == old(w.held) - {this}
    {
      ghost var s := w.St();
      OthersOnCircle(w.circleOf, w.held, this);
      ghost var rest: seq<LinkedPtr>;
      var last;
      last, rest := Unlink(w.circleOf);
      if last && value != NULL {
        w.deleted := w.deleted + [value];
      }
      w.Forget(this, rest);
      ReleaseIs(s, this, last);
    }

    method StandAlone(ghost w: Circles)
      requires w.Shape() && this !in w.circleOf && (value != NULL ==> value !in w.held.Values)
      modifies `next, w`circleOf, w`held
      ensures w.Shape() && w.held == old(w.held)[this := value]
    {
      JoinNew();
      w.Add(this, [this]);
    }

    method Attach(ghost w: Circles, ptr: LinkedPtr)
      requires w.Shape() && this !in w.circleOf && ptr in w.circleOf && value == ptr.value != NULL
      modifies `next, w`circleOf, w`held, w.circleOf[ptr]`next
      ensures w.Shape() && w.held == old(w.held)[this := value]
    {
      ghost var more := Link(ptr, w.circleOf);
      w.Add(this, more);
    }

    method Capture(ghost w: Circles, ptr: Raw)
      requires w.Shape() && this !in w.circleOf && (ptr != NULL ==> ptr !in w.held.Values)
      modifies this, w
      ensures w.Shape() && w.St() == Captured(old(w.St()), this, ptr) && w.ops == old(w.ops)
      ensures value == ptr && w.held == old(w.held)[this := ptr]
    {
      value := ptr;
      StandAlone(w);
      if ptr != NULL {
        w.captured := w.captured + {ptr};
      }
    }

    method Copy(ghost w: Circles, ptr: LinkedPtr)
      requires w.Shape() && this !in w.circleOf && ptr in w.circleOf
      modifies this, w, w.circleOf[ptr]`next
      ensures w.Shape() && w.St() == Copied(old(w.St()), this, ptr) && w.ops == old(w.ops)
      ensures value == old(ptr.value) && w.held == old(w.held)[this := value]
    {
      value := ptr.value;
      if value != NULL {
        Attach(w, ptr);
      } else {
        StandAlone(w);
      }
    }

    method DepartAndCopy(ghost w: Circles, ptr: LinkedPtr)
      requires w.Shape() && this in w.circleOf && ptr in w.circleOf && ptr != this
      modifies this, w, w.circleOf[this]`next, w.circleOf[ptr]`next
      ensures w.Shape() && w.St() == Copied(Released(old(w.St()), this), this, ptr) && w.ops == old(w.ops)
      ensures value == old(ptr.value) && w.held == old(w.held)[this := value]
    {
      ghost var m, h := w.circleOf, w.held;
      Depart(w);
      ShrunkAt(m, w.circleOf, ptr);
      Copy(w, ptr);
      HeldAgain(h, this, value);
    }

    method DepartAndCapture(ghost w: Circles, ptr: Raw)
      requires w.Shape() && this in w.circleOf && (ptr != NULL ==> ptr !in w.held.Values)
      modifies this, w, w.circleOf[this]`next
      ensures w.Shape() && w.St() == Captured(Released(old(w.St()), this), this, ptr) && w.ops == old(w.ops)
      ensures value == ptr && w.held == old(w.held)[this := value]
    {
      ghost var h := w.held;
      Depart(w);
      assert w.held.Values <= h.Values;
      Capture(w, ptr);
      HeldAgain(h, this, ptr);
    }

    // ----- operations -----

    /** Alone holds `ptr`; all other linked_ptrs keep their values. */
    constructor (ghost w: Circles, ptr: Raw)
      requires w.Valid() && Capturable(w.St(), ptr)
      modifies w
      ensures w.Valid() && w.ops == old(w.ops) + [New(this, ptr)]
      ensures value == ptr && w.held == old(w.held)[this := value]
    {
      value, next := NULL, null;
      new;
      UncapturedNotHeld(w, ptr);
      Capture(w, ptr);
      w.Record(New(this, ptr));
    }

    /** Holds what `ptr` holds, on the same circle unless that is nothing; all other linked_ptrs keep their values. */
    constructor CopyOf(ghost w: Circles, ptr: LinkedPtr)
      requires w.Valid() && ptr in w.circleOf
      modifies w, w.circleOf[ptr]`next
      ensures w.Valid() && w.ops == old(w.ops) + [NewCopy(this, ptr)]
      ensures value == old(ptr.value) && w.held == old(w.held)[this := value]
    {
      value, next := NULL, null;
      new;
      Copy(w, ptr);
      w.Record(NewCopy(this, ptr));
    }

    /** Holds what `ptr` holds, on the same circle unless that is nothing; all other linked_ptrs keep their values. */
    method Assign(ghost w: Circles, ptr: LinkedPtr)
      requires w.Valid() && this in w.circleOf && ptr in w.circleOf
      modifies this, w, w.circleOf[this]`next, w.circleOf[ptr]`next
      ensures w.Valid() && w.ops == old(w.ops) + [Op.Assign(this, ptr)]
      ensures value == old(ptr.value) && w.held == old(w.held)[this := value]
    {
      HeldAgain(w.held, this, value);
      if ptr != this {
        DepartAndCopy(w, ptr);
      }
      w.Record(Op.Assign(this, ptr));
    }

    /** Alone holds `ptr` from now on; all other linked_ptrs keep their values. */
    method Reset(ghost w: Circles, ptr: Raw)
      requires w.Valid() && this in w.circleOf && Capturable(w.St(), ptr)
      modifies this, w, w.circleOf[this]`next
      ensures w.Valid() && w.ops == old(w.ops) + [Op.Reset(this, ptr)]
      ensures value == ptr && w.held == old(w.held)[this := value]
    {
      UncapturedNotHeld(w, ptr);
      DepartAndCapture(w, ptr);
      w.Record(Op.Reset(this, ptr));
    }

    /** The destructor; all other linked_ptrs keep their values. */
    method Destroy(ghost w: Circles)
      requires w.Valid() && this in w.circleOf
      modifies w, w.circleOf[this]`next
      ensures w.Valid() && w.ops == old(w.ops) + [Op.Destroy(this)]
      ensures w.held == old(w.held) - {this}
    {
      Depart(w);
      w.Record(Op.Destroy(this));
    }
  }

  lemma HeldAgain(held: map<LinkedPtr, Raw>, p: LinkedPtr, raw: Raw)
    ensures (held - {p})[p := raw] == held[p := raw]
    ensures p in held && held[p] == raw ==> held[p := raw] == held
  {
  }

  lemma UncapturedNotHeld(w: Circles, raw: Raw)
    requires w.Valid() && Capturable(w.St(), raw)
    ensures raw != NULL ==> raw !in w.held.Values
  {
    RunsKeepInv(w.ops);
    assert multiset(w.deleted)[raw] >= 0;
  }

  /** `held` is the value of each linked_ptr in existence; those of one object are on one circle. */
  lemma HeldIsValue(w: Circles, p: LinkedPtr, q: LinkedPtr)
    requires w.Valid() && p in w.held
    ensures p in w.circleOf && w.held[p] == p.value
    ensures q in w.held && q.value == p.value != NULL ==> q in w.circleOf[p]
  {
  }

  /** The circles are disjoint rings, one for the holders of each object. */
  lemma CirclesAreHolders(w: Circles, p: LinkedPtr, q: LinkedPtr)
    requires w.Valid() && p in w.circleOf && q in w.circleOf
    ensures p in w.circleOf[p] && Circle(w.circleOf[p])
    ensures q in w.circleOf[p] <==> q == p || p.value == q.value != NULL
    ensures w.circleOf[p] == w.circleOf[q] || forall x :: x in w.circleOf[p] ==> x !in w.circleOf[q]
  {
    if p.value == NULL {
      assert w.circleOf[p] == [w.circleOf[p][0]];
    }
    forall x | x in w.circleOf[p] && x in w.circleOf[q] ensures w.circleOf[p] == w.circleOf[q] {
      assert w.circleOf[x] == w.circleOf[p];
    }
  }

  /** When no linked_ptr is left, each captured object has been deleted once. */
  lemma AllDeleted(w: Circles)
    requires w.Valid() && w.circleOf == map[]
    ensures multiset(w.deleted) == multiset(w.captured)
  {
    assert w.held == map[];
    NothingLeaks(w.ops);
  }
}
