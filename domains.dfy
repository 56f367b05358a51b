/**
 * Finite-domain integer views, reduced to what the no-overlap propagator uses:
 * a domain is a finite set of integers, a view is `assigned` when its domain
 * holds exactly one value, `val` reads that value, and `nq` removes one value,
 * reporting whether the domain failed (became empty), did not change, or changed.
 */
module Domains {

  /** The domain of one integer variable. */
  type Dom = set<int>

  /** A half-open integer range `[lo, lo + len)`; empty when `len <= 0`. */
  datatype Interval = Interval(lo: int, len: int) {
    predicate Contains(v: int) {
      lo <= v < lo + len
    }

    function Elems(): (s: set<int>)
      ensures forall v :: v in s <==> Contains(v)
    {
      set v | lo <= v < lo + len && Contains(v)
    }
  }

  /** No value of `d` lies in `r`. */
  predicate Disjoint(d: Dom, r: Interval) {
    forall v :: v in d ==> !r.Contains(v)
  }

  /** The view is fixed: its domain is a single value. */
  predicate Assigned(d: Dom) {
    |d| == 1
  }

  lemma HasElement(d: set<int>)
    requires d != {}
    ensures exists v :: v in d
  {
    if forall v :: v !in d {
      assert false;
    }
  }

  lemma SingletonShape(d: Dom)
    requires Assigned(d)
    ensures exists v :: d == {v}
  {
    assert d != {};
    HasElement(d);
    var v :| v in d;
    assert d - {v} == {} by {
      assert |d - {v}| == 0;
    }
  }

  /** The value of an assigned view. */
  function Val(d: Dom): (v: int)
    requires Assigned(d)
    ensures d == {v}
  {
    SingletonShape(d);
    var v :| v in d; v
  }

  /** A non-empty part of a fixed domain is that domain. */
  lemma {:induction false} ShrinkAssigned(d: Dom, d': Dom)
    requires Assigned(d) && d' <= d && d' != {}
    ensures d' == d
  {
    var v := Val(d);
    HasElement(d');
    var u :| u in d';
    assert u == v;
  }

  lemma {:induction false} MaxExists(d: set<int>)
    requires d != {}
    ensures exists m :: m in d && forall v :: v in d ==> v <= m
    decreases |d|
  {
    HasElement(d);
    var a :| a in d;
    var rest := d - {a};
    if rest == {} {
      assert d == {a};
      assert forall v :: v in d ==> v <= a;
    } else {
      MaxExists(rest);
      var m :| m in rest && forall v :: v in rest ==> v <= m;
      var top := if a <= m then m else a;
      forall v | v in d ensures v <= top {
        if v != a {
          assert v in rest;
        }
      }
      assert top in d;
    }
  }

  /** The greatest value of a non-empty finite domain. */
  ghost function Max(d: set<int>): (m: int)
    requires d != {}
    ensures m in d && forall v :: v in d ==> v <= m
  {
    MaxExists(d);
    var m :| m in d && forall v :: v in d ==> v <= m; m
  }

  /** Gecode's modification events, as returned by `nq`. */
  datatype ModEvent = MeFailed | MeNone | MeChanged

  /**
   * `nq(k)` on view `a[i]`: removing the only value fails (the domain is left
   * as it was, the space being failed), removing an absent value changes
   * nothing, anything else removes `k`.
   */
  method Nq(a: array<Dom>, i: int, k: int) returns (me: ModEvent)
    requires 0 <= i < a.Length
    modifies a
    ensures me == MeFailed <==> old(a[i]) == {k}
    ensures me == MeNone <==> k !in old(a[i])
    ensures a[..] == if me == MeFailed then old(a[..]) else old(a[..])[i := old(a[i]) - {k}]
  {
    if a[i] == {k} {
      me := MeFailed;
    } else if k !in a[i] {
      me := MeNone;
      assert a[i] - {k} == a[i];
      assert a[..] == old(a[..])[i := old(a[i]) - {k}];
    } else {
      a[i] := a[i] - {k};
      me := MeChanged;
    }
  }

  /** What excluding every value of an interval, one `nq` at a time in increasing order, leaves. */
  datatype Exclusion = Exclusion(ok: bool, d: Dom)

  /**
   * Removing the values of `r` from `d` in increasing order fails exactly when
   * `d` lies inside `r`; the failing `nq` then meets the singleton of the
   * greatest value of `d`. Otherwise the values of `r` are gone.
   */
  ghost function Exclude(d: Dom, r: Interval): (e: Exclusion)
    requires d != {}
  {
    if d <= r.Elems() then Exclusion(false, {Max(d)}) else Exclusion(true, d - r.Elems())
  }

  lemma ExclusionShrinks(d: Dom, r: Interval)
    requires d != {}
    ensures Exclude(d, r).d <= d && Exclude(d, r).d != {}
    ensures Exclude(d, r).ok ==> Disjoint(Exclude(d, r).d, r)
    ensures Exclude(d, r).ok <==> exists v :: v in d && !r.Contains(v)
    ensures !Exclude(d, r).ok ==> Assigned(Exclude(d, r).d) && r.Contains(Val(Exclude(d, r).d))
  {
    if !(d <= r.Elems()) {
      var v :| v in d && v !in r.Elems();
      assert v in Exclude(d, r).d;
    }
  }

  /**
   * The loop `for (k = lo; k < lo + len; k++) GECODE_ME_CHECK(a[i].nq(k))`:
   * stops at the first failing `nq` and reports it.
   */
  method ExcludeInterval(a: array<Dom>, i: int, r: Interval) returns (ok: bool)
    requires 0 <= i < a.Length && a[i] != {}
    modifies a
    ensures Exclude(old(a[i]), r) == Exclusion(ok, a[i])
    ensures a[..] == old(a[..])[i := a[i]]
  {
    ghost var d := a[i];
    var k := r.lo;
    while k < r.lo + r.len
      invariant r.lo <= k && (r.len > 0 ==> k <= r.lo + r.len) && (r.len <= 0 ==> k == r.lo)
      invariant a[i] == d - Interval(r.lo, k - r.lo).Elems()
      invariant a[i] != {}
      invariant a[..] == old(a[..])[i := a[i]]
    {
      var me := Nq(a, i, k);
      if me == MeFailed {
        assert d <= r.Elems() by {
          forall v | v in d ensures r.Contains(v) {
            if !Interval(r.lo, k - r.lo).Contains(v) {
              assert v in a[i];
            }
          }
        }
        assert Max(d) == k by {
          assert k in d;
          forall v | v in d ensures v <= k {
            if !Interval(r.lo, k - r.lo).Contains(v) {
              assert v in a[i];
            }
          }
        }
        return false;
      }
      assert a[i] == d - Interval(r.lo, k + 1 - r.lo).Elems();
      k := k + 1;
    }
    assert Interval(r.lo, k - r.lo).Elems() == r.Elems();
    ok := true;
  }
}
