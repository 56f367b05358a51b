/**
 * The no-overlap propagator as an object: it holds the coordinate views `x`,
 * `y` (arrays of domains that `propagate` prunes in place) and its own copies
 * of the widths `w` and heights `h`. `propagate` is proved to compute exactly
 * the pass `NoOverlapSpec.Pass`, about which the properties are proved.
 */
module NoOverlapProp {
  import opened Domains
  import opened NoOverlapSpec

  /** Gecode's execution statuses, as far as this propagator returns them. */
  datatype ExecStatus = Failed | Fix | Subsumed | Ok

  /** The items described by four parallel sequences. */
  ghost function ItemsOf(x: seq<Dom>, w: seq<int>, y: seq<Dom>, h: seq<int>): (items: seq<Item>)
    requires |x| == |w| == |y| == |h|
    ensures |items| == |x|
    ensures forall k :: 0 <= k < |x| ==> items[k] == Item(x[k], w[k], y[k], h[k])
  {
    seq(|x|, k requires 0 <= k < |x| => Item(x[k], w[k], y[k], h[k]))
  }

  class NoOverlap {
    /** Which collision test the pass uses; `CornerRule` is the test the C++ `propagate` writes. */
    const rule: Rule
    const x: array<Dom>
    const w: array<int>
    const y: array<Dom>
    const h: array<int>

    /** The four arrays are parallel, and the x and y views are separate arrays. */
    predicate Valid() {
      x.Length == w.Length == y.Length == h.Length && x != y
    }

    ghost function Items(): (items: seq<Item>)
      requires Valid()
      reads x, w, y, h
      ensures |items| == x.Length
    {
      ItemsOf(x[..], w[..], y[..], h[..])
    }

    /** Create the propagator on the given views and extents. */
    constructor (rule: Rule, x: array<Dom>, w: array<int>, y: array<Dom>, h: array<int>)
      requires x.Length == w.Length == y.Length == h.Length && x != y
      ensures Valid()
      ensures this.rule == rule && this.x == x && this.w == w && this.y == y && this.h == h
    {
      this.rule := rule;
      this.x := x;
      this.w := w;
      this.y := y;
      this.h := h;
    }

    /**
     * The copy constructor used during cloning: the views are the clone's
     * own (`x'`, `y'`), the width and height arrays are freshly allocated
     * and filled from `p`'s, from the last index down.
     */
    constructor Clone(p: NoOverlap, x': array<Dom>, y': array<Dom>)
      requires p.Valid() && x'.Length == p.x.Length && y'.Length == p.y.Length && x' != y'
      ensures Valid()
      ensures rule == p.rule && x == x' && y == y'
      ensures fresh(w) && fresh(h)
      ensures w[..] == p.w[..] && h[..] == p.h[..]
    {
      rule := p.rule;
      x := x';
      y := y';
      w := new int[x'.Length];
      h := new int[y'.Length];
      new;
      var i := x.Length;
      while i > 0
        invariant 0 <= i <= x.Length
        invariant forall k :: i <= k < x.Length ==> w[k] == p.w[k] && h[k] == p.h[k]
        modifies w, h
      {
        i := i - 1;
        w[i] := p.w[i];
        h[i] := p.h[i];
      }
      assert w[..] == p.w[..] && h[..] == p.h[..];
    }

    /**
     * Post the propagator: only with more than one rectangle is there
     * anything to propagate, and posting always succeeds.
     */
    static method Post(rule: Rule, x: array<Dom>, w: array<int>, y: array<Dom>, h: array<int>)
      returns (es: ExecStatus, p: NoOverlap?)
      requires x.Length == w.Length == y.Length == h.Length && x != y
      ensures es == Ok
      ensures p != null <==> x.Length > 1
      ensures p != null ==>
        fresh(p) && p.Valid() && p.rule == rule && p.x == x && p.w == w && p.y == y && p.h == h
    {
      p := null;
      if x.Length > 1 {
        p := new NoOverlap(rule, x, w, y, h);
      }
      es := Ok;
    }

    /** Remove the values of `r` from `y[i]` one at a time, in increasing order, stopping at the first failure. */
    method ExcludeY(i: int, r: Interval) returns (ok: bool)
      requires Valid() && 0 <= i < x.Length && y[i] != {}
      modifies y
      ensures Exclude(old(Items())[i].y, r) == Exclusion(ok, Items()[i].y)
      ensures Items() == old(Items())[i := old(Items())[i].(y := Items()[i].y)]
    {
      ok := ExcludeInterval(y, i, r);
    }

    /** Remove the values of `r` from `x[i]` one at a time, in increasing order, stopping at the first failure. */
    method ExcludeX(i: int, r: Interval) returns (ok: bool)
      requires Valid() && 0 <= i < x.Length && x[i] != {}
      modifies x
      ensures Exclude(old(Items())[i].x, r) == Exclusion(ok, Items()[i].x)
      ensures Items() == old(Items())[i := old(Items())[i].(x := Items()[i].x)]
    {
      ok := ExcludeInterval(x, i, r);
    }

    /**
     * The body of the `j` loop for a placed partner `j != i`: if `x[i]` is
     * fixed within `j`'s x-reach, exclude `j`'s y-reach from `y[i]`; then,
     * if `y[i]` is fixed within `j`'s y-reach, exclude `j`'s x-reach from
     * `x[i]`. A removal that would empty a domain stops with `false`.
     */
    method PruneAgainst(i: int, j: int) returns (ok: bool)
      requires Valid() && AllLive(Items())
      requires 0 <= i < x.Length && 0 <= j < x.Length && j != i && Placed(Items()[j])
      modifies x, y
      ensures Items() == old(Items())[i := Items()[i]]
      ensures PairStep(rule, old(Items())[i], old(Items())[j]) == Step(ok, Items()[i])
      ensures AllLive(Items())
    {
      ghost var items := Items();
      var a := Item(x[i], w[i], y[i], h[i]);
      var b := Item(x[j], w[j], y[j], h[j]);
      var rx := ReachX(rule, a, b);
      var ry := ReachY(rule, a, b);
      ExclusionShrinks(a.y, ry);
      PairStepShrinks(rule, a, b);
      ghost var s := PairStep(rule, a, b);
      if Assigned(x[i]) && rx.Contains(Val(x[i])) {
        ok := ExcludeY(i, ry);
        if !ok {
          return;
        }
      }
      ghost var a1 := Items()[i];
      assert Items() == items[i := a1];
      if Assigned(y[i]) && ry.Contains(Val(y[i])) {
        ok := ExcludeX(i, rx);
        return;
      }
      ok := true;
    }

    /**
     * `propagate`: every item against every placed partner, `i` outer and
     * `j` inner. The statuses and the domains left behind are exactly those
     * of `Pass`; a successful pass is subsumed exactly when every view is fixed.
     */
    method Propagate() returns (es: ExecStatus)
      requires Valid() && AllLive(Items())
      modifies x, y
      ensures Pass(rule, old(Items())) == Outcome(es != Failed, Items())
      ensures es != Ok
      ensures es != Failed ==> (es == Subsumed <==> AllPlaced(Items()))
    {
      ghost var start := Items();
      var n := x.Length;
      var i := 0;
      while i < n
        invariant 0 <= i <= n
        invariant AllLive(Items())
        invariant Rows(rule, Items(), i) == Pass(rule, start)
      {
        var j := 0;
        while j < n
          invariant 0 <= j <= n
          invariant AllLive(Items())
          invariant Continue(rule, Row(rule, Items(), i, j), i) == Pass(rule, start)
        {
          if j != i && Assigned(x[j]) && Assigned(y[j]) {
            ghost var before := Items();
            assert Placed(before[j]);
            var ok := PruneAgainst(i, j);
            if !ok {
              return Failed;
            }
          }
          j := j + 1;
        }
        i := i + 1;
      }
      if forall k :: 0 <= k < n ==> Assigned(x[k]) && Assigned(y[k]) {
        es := Subsumed;
      } else {
        es := Fix;
      }
    }
  }

  /** The rest of the pass once row `i` has produced `o`. */
  ghost function Continue(rule: Rule, o: Outcome, i: nat): Outcome
    requires i < |o.items| && AllLive(o.items)
  {
    if !o.ok then o else Rows(rule, o.items, i + 1)
  }

  /** The part of a space the wrapper touches: whether it has failed, and the propagators posted in it. */
  class Home {
    var failed: bool
    var propagators: seq<NoOverlap>

    constructor ()
      ensures !failed && propagators == []
    {
      failed := false;
      propagators := [];
    }
  }

  datatype Posting = Done | ArgumentSizeMismatch

  /**
   * `nooverlap`: reject arguments of different sizes; in a failed space do
   * nothing; otherwise copy the widths and heights into arrays of the space,
   * from the last index down, and post the propagator, failing the space if
   * posting does not succeed.
   */
  method NoOverlapPost(home: Home, rule: Rule, x: array<Dom>, w: seq<int>, y: array<Dom>, h: seq<int>)
    returns (r: Posting)
    requires x != y
    modifies home
    ensures r == ArgumentSizeMismatch <==> x.Length != y.Length || x.Length != |w| || y.Length != |h|
    ensures home.failed == old(home.failed)
    ensures r == ArgumentSizeMismatch || old(home.failed) || x.Length <= 1 ==>
      home.propagators == old(home.propagators)
    ensures r == Done && !old(home.failed) && x.Length > 1 ==>
      |home.propagators| == |old(home.propagators)| + 1 &&
      home.propagators[..|old(home.propagators)|] == old(home.propagators) &&
      var p := home.propagators[|old(home.propagators)|];
      fresh(p) && fresh(p.w) && fresh(p.h) && p.Valid() && p.rule == rule &&
      p.x == x && p.y == y && p.w[..] == w && p.h[..] == h
  {
    if x.Length != y.Length || x.Length != |w| || y.Length != |h| {
      return ArgumentSizeMismatch;
    }
    r := Done;
    if home.failed {
      return;
    }
    var wc := new int[x.Length];
    var hc := new int[y.Length];
    var i := x.Length;
    while i > 0
      invariant 0 <= i <= x.Length
      invariant forall k :: i <= k < x.Length ==> wc[k] == w[k] && hc[k] == h[k]
      modifies wc, hc
    {
      i := i - 1;
      wc[i] := w[i];
      hc[i] := h[i];
    }
    assert wc[..] == w && hc[..] == h;
    var es, p := NoOverlap.Post(rule, x, wc, y, hc);
    if p != null {
      home.propagators := home.propagators + [p];
    }
    // Posting always returns `Ok`, so the branch that fails the space is never taken.
    assert es == Ok;
  }
}
