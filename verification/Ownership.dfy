/** What linked_ptrs own (gtest-linked_ptr.h), without the links: who holds which raw pointer, and which objects have
been deleted.  `K` are the linked_ptrs. */
module Ownership {

  /** A raw pointer. */
  type Raw = nat

  const NULL: Raw := 0

  datatype Ownership<K> = Ownership(held: map<K, Raw>, captured: set<Raw>, deleted: seq<Raw>)

  datatype Op<K> =
    | New(k: K, raw: Raw)
    | NewCopy(k: K, from: K)
    | Assign(k: K, from: K)
    | Reset(k: K, raw: Raw)
    | Destroy(k: K)

  /** `k` lets go of its object, which is deleted if nobody else holds it. */
  ghost function Released<K>(s: Ownership<K>, k: K): Ownership<K>
    requires k in s.held
  {
    var v := s.held[k];
    var rest := s.held - {k};
    s.(held := rest, deleted := if v == NULL || v in rest.Values then s.deleted else s.deleted + [v])
  }

  ghost function Captured<K>(s: Ownership<K>, k: K, raw: Raw): Ownership<K> {
    s.(held := s.held[k := raw], captured := if raw == NULL then s.captured else s.captured + {raw})
  }

  ghost function Copied<K>(s: Ownership<K>, k: K, from: K): Ownership<K>
    requires from in s.held
  {
    s.(held := s.held[k := s.held[from]])
  }

  ghost predicate Capturable<K>(s: Ownership<K>, raw: Raw) {
    raw != NULL ==> raw !in s.captured
  }

  /** Constructors make new linked_ptrs, other operations use existing ones, and each raw pointer is captured once. */
  ghost predicate Legal<K>(s: Ownership<K>, op: Op<K>) {
    match op
    case New(k, raw) => k !in s.held && Capturable(s, raw)
    case NewCopy(k, from) => k !in s.held && from in s.held
    case Assign(k, from) => k in s.held && from in s.held
    case Reset(k, raw) => k in s.held && Capturable(s, raw)
    case Destroy(k) => k in s.held
  }

  ghost function Apply<K>(s: Ownership<K>, op: Op<K>): Ownership<K>
    requires Legal(s, op)
  {
    match op
    case New(k, raw) => Captured(s, k, raw)
    case NewCopy(k, from) => Copied(s, k, from)
    case Assign(k, from) => if k == from then s else Copied(Released(s, k), k, from)
    case Reset(k, raw) => Captured(Released(s, k), k, raw)
    case Destroy(k) => Released(s, k)
  }

  ghost predicate LegalRun<K>(ops: seq<Op<K>>)
    decreases |ops|, 0
  {
    ops != [] ==> LegalRun(ops[..|ops| - 1]) && Legal(After(ops[..|ops| - 1]), ops[|ops| - 1])
  }

  ghost function After<K>(ops: seq<Op<K>>): Ownership<K>
    requires LegalRun(ops)
    decreases |ops|, 1
  {
    if ops == [] then Ownership(map[], {}, []) else Apply(After(ops[..|ops| - 1]), ops[|ops| - 1])
  }

  lemma Extended<K>(ops: seq<Op<K>>, op: Op<K>)
    requires LegalRun(ops) && Legal(After(ops), op)
    ensures LegalRun(ops + [op]) && After(ops + [op]) == Apply(After(ops), op)
  {
    assert (ops + [op])[..|ops|] == ops;
  }

  // ----- deleted exactly once -----

  ghost predicate Holds<K>(s: Ownership<K>, v: Raw) {
    v != NULL && v in s.held.Values
  }

  /** A captured object is either held or has been deleted, once. */
  ghost predicate Inv<K>(s: Ownership<K>) {
    && NULL !in s.captured
    && forall v :: multiset(s.deleted)[v] + (if Holds(s, v) then 1 else 0) == if v in s.captured then 1 else 0
  }

  lemma ReleaseKeepsInv<K>(s: Ownership<K>, k: K)
    requires k in s.held
    ensures Inv(s) ==> Inv(Released(s, k))
    ensures forall v :: Holds(Released(s, k), v) ==> Holds(s, v)
    ensures forall v :: Holds(s, v) ==> Holds(Released(s, k), v) || v == s.held[k]
  {
    var t := Released(s, k);
    forall v ensures Holds(t, v) == (Holds(s, v) && (v != s.held[k] || v in t.held.Values)) {
      if Holds(s, v) && v != s.held[k] {
        var j :| j in s.held && s.held[j] == v;
        assert t.held[j] == v;
      }
    }
  }

  lemma CaptureKeepsInv<K>(s: Ownership<K>, k: K, raw: Raw)
    requires k !in s.held && Capturable(s, raw) && Inv(s)
    ensures Inv(Captured(s, k, raw))
  {
    var t := Captured(s, k, raw);
    assert t.held[k] == raw;
    assert t.held.Values == s.held.Values + {raw} by {
      forall v | v in s.held.Values ensures v in t.held.Values {
        var j :| j in s.held && s.held[j] == v;
        assert t.held[j] == v;
      }
    }
  }

  lemma CopyKeepsInv<K>(s: Ownership<K>, k: K, from: K)
    requires k !in s.held && from in s.held && Inv(s)
    ensures Inv(Copied(s, k, from))
  {
    var t := Copied(s, k, from);
    assert t.held.Values == s.held.Values by {
      forall v | v in s.held.Values ensures v in t.held.Values {
        var j :| j in s.held && s.held[j] == v;
        assert t.held[j] == v;
      }
    }
  }

  lemma ApplyKeepsInv<K>(s: Ownership<K>, op: Op<K>)
    requires Legal(s, op) && Inv(s)
    ensures Inv(Apply(s, op))
  {
    match op
    case New(k, raw) => CaptureKeepsInv(s, k, raw);
    case NewCopy(k, from) => CopyKeepsInv(s, k, from);
    case Assign(k, from) =>
      if k != from {
        ReleaseKeepsInv(s, k);
        CopyKeepsInv(Released(s, k), k, from);
      }
    case Reset(k, raw) =>
      ReleaseKeepsInv(s, k);
      CaptureKeepsInv(Released(s, k), k, raw);
    case Destroy(k) => ReleaseKeepsInv(s, k);
  }

  lemma {:induction false} RunsKeepInv<K>(ops: seq<Op<K>>)
    requires LegalRun(ops)
    ensures Inv(After(ops))
  {
    if ops != [] {
      RunsKeepInv(ops[..|ops| - 1]);
      ApplyKeepsInv(After(ops[..|ops| - 1]), ops[|ops| - 1]);
    }
  }

  /** In every run, no object is deleted twice or without having been captured, and one that was captured is deleted
  exactly if nobody holds it. */
  lemma DeletedExactlyOnce<K>(ops: seq<Op<K>>, v: Raw)
    requires LegalRun(ops)
    ensures var s := After(ops);
      && multiset(s.deleted)[v] <= 1
      && (v in s.deleted <==> v in s.captured && !Holds(s, v))
  {
    RunsKeepInv(ops);
    assert v in multiset(After(ops).deleted) <==> v in After(ops).deleted;
  }

  /** When all linked_ptrs are gone, what was deleted is what was captured. */
  lemma NothingLeaks<K>(ops: seq<Op<K>>)
    requires LegalRun(ops) && After(ops).held == map[]
    ensures multiset(After(ops).deleted) == multiset(After(ops).captured)
  {
    RunsKeepInv(ops);
  }

  /** An operation deletes an object exactly if it takes its last holder away. */
  lemma DeletedByLastHolder<K>(ops: seq<Op<K>>, op: Op<K>, v: Raw)
    requires LegalRun(ops) && Legal(After(ops), op)
    ensures var s := After(ops);
      var t := Apply(s, op);
      && s.deleted <= t.deleted
      && (v in t.deleted && v !in s.deleted <==> Holds(s, v) && !Holds(t, v))
  {
    var s, t := After(ops), Apply(After(ops), op);
    RunsKeepInv(ops);
    ApplyKeepsInv(s, op);
    assert v in multiset(s.deleted) <==> v in s.deleted;
    assert v in multiset(t.deleted) <==> v in t.deleted;
  }

  // ----- who holds what -----

  ghost predicate OthersKeep<K>(s: Ownership<K>, t: Ownership<K>, k: K) {
    t.held - {k} == s.held - {k}
  }

  /** A new linked_ptr, and one that is reset, holds the raw pointer; the others hold what they held. */
  lemma CapturedIsHeld<K>(s: Ownership<K>, op: Op<K>)
    requires Legal(s, op) && (op.New? || op.Reset?)
    ensures var t := Apply(s, op);
      op.k in t.held && t.held[op.k] == op.raw && OthersKeep(s, t, op.k) && t.captured == s.captured + if op.raw == NULL then {} else {op.raw}
  {
  }

  /** A copy holds what its source held and goes on holding; the others hold what they held. */
  lemma CopyHoldsTheSame<K>(s: Ownership<K>, op: Op<K>)
    requires Legal(s, op) && (op.NewCopy? || op.Assign?)
    ensures var t := Apply(s, op);
      && op.k in t.held && op.from in t.held
      && t.held[op.k] == t.held[op.from] == s.held[op.from]
      && OthersKeep(s, t, op.k) && t.captured == s.captured
  {
  }

  /** A linked_ptr that is destroyed is gone; the others hold what they held. */
  lemma DestroyedIsGone<K>(s: Ownership<K>, k: K)
    requires Legal(s, Destroy(k))
    ensures var t := Apply(s, Destroy(k)); k !in t.held && OthersKeep(s, t, k) && t.captured == s.captured
  {
  }

  /** An operation leaves all linked_ptrs but its own alone. */
  lemma OnlyOwnChanges<K>(s: Ownership<K>, op: Op<K>, k: K)
    requires Legal(s, op) && op.k != k && k in s.held
    ensures var t := Apply(s, op); k in t.held && t.held[k] == s.held[k]
  {
    if op.New? || op.Reset? {
      CapturedIsHeld(s, op);
    } else if op.Destroy? {
      DestroyedIsGone(s, op.k);
    } else {
      CopyHoldsTheSame(s, op);
    }
    var t := Apply(s, op);
    assert k in s.held - {op.k} && (t.held - {op.k})[k] == (s.held - {op.k})[k];
  }

  lemma LegalPrefix<K>(ops: seq<Op<K>>, more: seq<Op<K>>)
    requires LegalRun(ops + more)
    ensures LegalRun(ops)
    decreases |more|
  {
    if more == [] {
      assert ops + more == ops;
    } else {
      var n := |more| - 1;
      assert (ops + more)[..|ops + more| - 1] == ops + more[..n];
      LegalPrefix(ops, more[..n]);
    }
  }

  /** In every run, a linked_ptr that no operation touches goes on holding its object, and the object is not deleted. */
  lemma {:induction false} UntouchedHolds<K>(ops: seq<Op<K>>, more: seq<Op<K>>, k: K)
    requires LegalRun(ops + more)
    requires forall i :: 0 <= i < |more| ==> more[i].k != k
    ensures LegalRun(ops)
    ensures k in After(ops).held ==>
      var s, t := After(ops), After(ops + more);
      k in t.held && t.held[k] == s.held[k] && (s.held[k] != NULL ==> s.held[k] !in t.deleted)
    decreases |more|
  {
    LegalPrefix(ops, more);
    if more == [] {
      assert ops + more == ops;
    } else {
      var n := |more| - 1;
      assert (ops + more)[..|ops + more| - 1] == ops + more[..n] && (ops + more)[|ops + more| - 1] == more[n];
      UntouchedHolds(ops, more[..n], k);
      if k in After(ops).held {
        OnlyOwnChanges(After(ops + more[..n]), more[n], k);
      }
    }
    if k in After(ops).held && After(ops).held[k] != NULL {
      var v := After(ops).held[k];
      assert After(ops + more).held[k] == v;
      DeletedExactlyOnce(ops + more, v);
    }
  }

  /** So an object lives as long as an untouched copy: after a copy is made, by a constructor or by assignment, nothing
  that happens to the source, or to any other linked_ptr, deletes the object. */
  lemma CopyKeepsAlive<K>(ops: seq<Op<K>>, copy: Op<K>, more: seq<Op<K>>)
    requires LegalRun(ops + [copy] + more) && (copy.NewCopy? || copy.Assign?)
    requires forall i :: 0 <= i < |more| ==> more[i].k != copy.k
    ensures LegalRun(ops) && copy.from in After(ops).held
    ensures var v, t := After(ops).held[copy.from], After(ops + [copy] + more);
      copy.k in t.held && t.held[copy.k] == v && (v != NULL ==> v !in t.deleted)
  {
    UntouchedHolds(ops + [copy], more, copy.k);
    assert (ops + [copy])[..|ops|] == ops && (ops + [copy])[|ops|] == copy;
    assert |ops + [copy]| - 1 == |ops|;
    CopyHoldsTheSame(After(ops), copy);
  }
}
