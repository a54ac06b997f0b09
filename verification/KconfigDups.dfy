/** Merging duplicate operands: expr_eliminate_dups1, expr_extract_eq, expr_eliminate_dups2
    and the loop expr_eliminate_dups (scripts/kconfig/expr.c), on values. */
module KconfigDups {
  import opened Basics
  import opened KconfigExpr
  import opened KconfigEq
  import opened KconfigJoin
  import opened KconfigTransform
  import opened KconfigPaths

  /** A rewritten tree and how often trans_count was raised. */
  datatype Rewrite = Rewrite(t: Expr, count: nat)

  /** What every pass guarantees of the tree it is given: the spine stays, the tree does not
      grow, nothing changes unless it is counted, and what is counted leaves a y or n to
      prune. */
  ghost predicate Sound(op: Op, t: Expr, w: Rewrite) {
    && SameShape(op, t, w.t)
    && Size(w.t) <= Size(t)
    && (w.count == 0 ==> w.t == t)
    && (w.count > 0 ==> HasYn(w.t))
  }

  lemma SoundStep(op: Op, t: Expr, w: Rewrite, x: Rewrite)
    requires Sound(op, t, w) && Sound(op, w.t, x)
    ensures Sound(op, t, Rewrite(x.t, w.count + x.count))
  {
    SameShapeTransitive(op, t, w.t, x.t);
  }

  /** Two cursors of one frame: their remaining work on the spine. */
  function Work(op: Op, t: Expr, p: Path, q: Path): nat
    requires OnSpine(op, t, p) && OnSpine(op, t, q)
  {
    OnSpineFacts(op, t, p);
    OnSpineFacts(op, t, q);
    SpineSize(op, Sub(t, p)) + SpineSize(op, Sub(t, q))
  }

  /** In a tree of the same shape both cursors are still on the spine, with the same work. */
  lemma WorkSame(op: Op, t: Expr, t': Expr, p: Path, q: Path)
    requires SameShape(op, t, t') && OnSpine(op, t, p) && OnSpine(op, t, q)
    ensures OnSpine(op, t', p) && OnSpine(op, t', q) && Work(op, t', p, q) == Work(op, t, p, q)
  {
    SameShapeAt(op, t, t', p);
    SameShapeAt(op, t, t', q);
    SameShapeFacts(op, Sub(t, p), Sub(t', p));
    SameShapeFacts(op, Sub(t, q), Sub(t', q));
  }

  /** Moving either cursor down leaves less work. */
  lemma WorkLess(op: Op, t: Expr, p: Path, q: Path)
    requires OnSpine(op, t, p) && OnSpine(op, t, q) && Within(t, p) && IsSpine(op, Sub(t, p))
    ensures forall d :: OnSpine(op, t, p + [d]) && Work(op, t, p + [d], q) < Work(op, t, p, q)
    ensures forall d :: Work(op, t, q, p + [d]) < Work(op, t, q, p)
  {
    OnSpineFacts(op, t, p);
    OnSpineFacts(op, t, q);
    forall d ensures OnSpine(op, t, p + [d]) && Work(op, t, p + [d], q) < Work(op, t, p, q)
    {
      assert d == L || d == R;
      Descend(t, p, d);
    }
  }

  // --------------------------------------------------------------------- first pass

  lemma OnSpineFactsAtLeaf(op: Op, t: Expr, p: Path)
    requires AtLeaf(op, t, p)
    ensures Within(t, p) && !IsSpine(op, Sub(t, p))
  {
    AtLeafOnSpine(op, t, p);
    OnSpineFacts(op, t, p);
  }

  lemma JoinLeavesSound(op: Op, t: Expr, p: Path, q: Path, x: Expr)
    requires AtLeaf(op, t, p) && AtLeaf(op, t, q) && p != q && Within(t, p) && Within(t, q)
    requires Join(op, Sub(t, p), Sub(t, q)) == Some(x)
    requires Within(Store(t, p, Neutral(op)), q)
    ensures Sound(op, t, Rewrite(Store(Store(t, p, Neutral(op)), q, x), 1))
  {
    var n := Neutral(op);
    var t1 := Store(t, p, n);
    JoinSmaller(op, Sub(t, p), Sub(t, q));
    OnSpineFactsAtLeaf(op, t, p);
    LeavesApart(op, t, p, q, n);
    StoreKeepsShape(op, t, p, n);
    StoreKeepsShape(op, t1, q, x);
    SameShapeTransitive(op, t, t1, Store(t1, q, x));
    SubStore(t, p, n);
    SubStore(t1, q, x);
    LeavesApart(op, t1, q, p, x);
    HasYnBelow(Store(t1, q, x), p);
  }

  /** Join the leaves at `p` and `q`, if they can be joined. */
  function JoinLeaves(op: Op, t: Expr, p: Path, q: Path): (w: Rewrite)
    requires AtLeaf(op, t, p) && AtLeaf(op, t, q) && p != q
    ensures Sound(op, t, w)
  {
    AtLeafOnSpine(op, t, p);
    AtLeafOnSpine(op, t, q);
    OnSpineFacts(op, t, p);
    OnSpineFacts(op, t, q);
    SameShapeFacts(op, t, t);
    match Join(op, Sub(t, p), Sub(t, q))
    case None => Rewrite(t, 0)
    case Some(x) =>
      var t1 := Store(t, p, Neutral(op));
      LeavesApart(op, t, p, q, Neutral(op));
      var t2 := Store(t1, q, x);
      JoinLeavesSound(op, t, p, q, x);
      Rewrite(t2, 1)
  }

  /** A rewrite of the subtree at a leaf, seen from the whole tree. */
  lemma SoundAtLeaf(op: Op, t: Expr, p: Path, w: Rewrite)
    requires AtLeaf(op, t, p) && p != [] && Within(t, p)
    requires Sub(t, p).Bin? && Sound(Sub(t, p).op, Sub(t, p), w)
    ensures !IsSpine(op, w.t) && Sound(op, t, Rewrite(Store(t, p, w.t), w.count))
    ensures AtLeaf(op, Store(t, p, w.t), p)
  {
    OnSpineFactsAtLeaf(op, t, p);
    assert IsSpine(Sub(t, p).op, w.t);
    StoreKeepsShape(op, t, p, w.t);
    SubStore(t, p, w.t);
    HasYnBelow(Store(t, p, w.t), p);
  }

  /** expr_eliminate_dups1 with both cursors in the tree `t`. */
  function Dups1(op: Op, t: Expr, p: Path, q: Path): (w: Rewrite)
    requires OnSpine(op, t, p) && OnSpine(op, t, q)
    ensures Sound(op, t, w)
    decreases Size(t), Work(op, t, p, q)
  {
    OnSpineFacts(op, t, p);
    OnSpineFacts(op, t, q);
    SameShapeFacts(op, t, t);
    if IsSpine(op, Sub(t, p)) then
      WorkLess(op, t, p, q);
      var a := Dups1(op, t, p + [L], q);
      WorkSame(op, t, a.t, p + [R], q);
      var b := Dups1(op, a.t, p + [R], q);
      SoundStep(op, t, a, b);
      Rewrite(b.t, a.count + b.count)
    else if IsSpine(op, Sub(t, q)) then
      WorkLess(op, t, q, p);
      var a := Dups1(op, t, p, q + [L]);
      WorkSame(op, t, a.t, p, q + [R]);
      var b := Dups1(op, a.t, p, q + [R]);
      SoundStep(op, t, a, b);
      Rewrite(b.t, a.count + b.count)
    else if p == q then Rewrite(t, 0)
    else
      var a := Inner1(op, t, p);
      SameShapeAt(op, t, a.t, q);
      OnSpineFacts(op, a.t, q);
      var b := JoinLeaves(op, a.t, p, q);
      SoundStep(op, t, a, b);
      Rewrite(b.t, a.count + b.count)
  }

  /** The pass over the operands of the leaf at `p`, when it is a node of the other kind. */
  function Inner1(op: Op, t: Expr, p: Path): (w: Rewrite)
    requires AtLeaf(op, t, p) && p != []
    ensures Sound(op, t, w) && AtLeaf(op, w.t, p)
    decreases Size(t), 0
  {
    OnSpineFactsAtLeaf(op, t, p);
    SameShapeFacts(op, t, t);
    var e := Sub(t, p);
    SubSmaller(t, p);
    if e.Bin? then
      var w := Dups1(e.op, e, [], []);
      SoundAtLeaf(op, t, p, w);
      Rewrite(Store(t, p, w.t), w.count)
    else Rewrite(t, 0)
  }

  lemma JoinLeavesSame(op: Op, t: Expr, p: Path, q: Path, v: Valuation)
    requires AtLeaf(op, t, p) && AtLeaf(op, t, q) && p != q && Proper(v)
    ensures Value(JoinLeaves(op, t, p, q).t, v) == Value(t, v)
  {
    OnSpineFactsAtLeaf(op, t, p);
    OnSpineFactsAtLeaf(op, t, q);
    var a, b := Sub(t, p), Sub(t, q);
    if Join(op, a, b).Some? {
      var x := Join(op, a, b).value;
      LeavesApart(op, t, p, q, Neutral(op));
      JoinSound(op, a, b, v);
      assert v.tri(SYM_YES) == YES && v.tri(SYM_NO) == NO;
      TwoSlots(op, t, p, q, Neutral(op), x, v);
    }
  }

  lemma StoreSame(op: Op, t: Expr, p: Path, x: Expr, v: Valuation)
    requires OnSpine(op, t, p) && Within(t, p) && Proper(v) && Value(x, v) == Value(Sub(t, p), v)
    ensures Value(Store(t, p, x), v) == Value(t, v)
  {
    SubStore(t, p, x);
    SlotValue(op, t, p, x, v);
    SlotValue(op, t, p, Sub(t, p), v);
  }

  /** The first pass keeps the value in every valuation, m included, wherever the two cursors
      stand on the spine; in particular with both at the root. */
  lemma {:induction false} Dups1Same(op: Op, t: Expr, p: Path, q: Path, v: Valuation)
    requires OnSpine(op, t, p) && OnSpine(op, t, q) && Proper(v)
    ensures Value(Dups1(op, t, p, q).t, v) == Value(t, v)
    decreases Size(t), Work(op, t, p, q)
  {
    OnSpineFacts(op, t, p);
    OnSpineFacts(op, t, q);
    if IsSpine(op, Sub(t, p)) {
      WorkLess(op, t, p, q);
      var a := Dups1(op, t, p + [L], q);
      WorkSame(op, t, a.t, p + [R], q);
      Dups1Same(op, t, p + [L], q, v);
      Dups1Same(op, a.t, p + [R], q, v);
    } else if IsSpine(op, Sub(t, q)) {
      WorkLess(op, t, q, p);
      var a := Dups1(op, t, p, q + [L]);
      WorkSame(op, t, a.t, p, q + [R]);
      Dups1Same(op, t, p, q + [L], v);
      Dups1Same(op, a.t, p, q + [R], v);
    } else if p != q {
      Inner1Same(op, t, p, v);
      var a := Inner1(op, t, p);
      SameShapeAt(op, t, a.t, q);
      OnSpineFacts(op, a.t, q);
      JoinLeavesSame(op, a.t, p, q, v);
    }
  }

  lemma {:induction false} Inner1Same(op: Op, t: Expr, p: Path, v: Valuation)
    requires AtLeaf(op, t, p) && p != [] && Proper(v)
    ensures Value(Inner1(op, t, p).t, v) == Value(t, v)
    decreases Size(t), 0
  {
    OnSpineFactsAtLeaf(op, t, p);
    AtLeafOnSpine(op, t, p);
    SubSmaller(t, p);
    var e := Sub(t, p);
    if e.Bin? {
      Dups1Same(e.op, e, [], [], v);
      StoreSame(op, t, p, Dups1(e.op, e, [], []).t, v);
    }
  }

  // ---------------------------------------------------------------- common operands

  /** What expr_extract_eq has taken out so far, and the two trees it is taken out of. */
  datatype Extract = Extract(common: Option<Expr>, e1: Expr, e2: Expr)

  /** expr_extract_eq */
  function ExtractEq(op: Op, common: Option<Expr>, e1: Expr, e2: Expr): (x: Extract)
    ensures Size(x.e1) <= Size(e1) && Size(x.e2) <= Size(e2)
    decreases Size(e1) + Size(e2)
  {
    if IsSpine(op, e1) then
      var a := ExtractEq(op, common, e1.l, e2);
      var b := ExtractEq(op, a.common, e1.r, a.e2);
      Extract(b.common, Bin(op, a.e1, b.e1), b.e2)
    else if IsSpine(op, e2) then
      var a := ExtractEq(op, common, e1, e2.l);
      var b := ExtractEq(op, a.common, a.e1, e2.r);
      Extract(b.common, b.e1, Bin(op, a.e2, b.e2))
    else if ExprEq(e1, e2) then
      Extract(Some(if common.Some? then Bin(op, common.value, e1) else e1), Neutral(op), Neutral(op))
    else Extract(common, e1, e2)
  }

  /** expr_extract_eq_and, expr_extract_eq_or */
  function Extracted(op: Op, e1: Expr, e2: Expr): Extract {
    var x := ExtractEq(op, None, e1, e2);
    if x.common.Some? then Extract(x.common, EliminateYn(x.e1), EliminateYn(x.e2)) else x
  }

  function CommonValue(op: Op, common: Option<Expr>, v: Valuation): Tri {
    if common.Some? then Value(common.value, v) else if op == Or then NO else YES
  }

  /** Both trees are the part taken out combined with what is left of them. */
  ghost predicate TakesOut(op: Op, before: Option<Expr>, e1: Expr, e2: Expr, x: Extract, v: Valuation, c: Tri)
  {
    && CommonValue(op, x.common, v) == Combine(op, CommonValue(op, before, v), c)
    && Cancels(op, e1, e2, Pair(x.e1, x.e2, 0), v, c)
  }

  lemma {:induction false} ExtractEqTakesOut(op: Op, common: Option<Expr>, e1: Expr, e2: Expr, v: Valuation)
    returns (c: Tri)
    requires Proper(v)
    ensures TakesOut(op, common, e1, e2, ExtractEq(op, common, e1, e2), v, c)
    decreases Size(e1) + Size(e2)
  {
    if IsSpine(op, e1) {
      var a := ExtractEq(op, common, e1.l, e2);
      var b := ExtractEq(op, a.common, e1.r, a.e2);
      var c1 := ExtractEqTakesOut(op, common, e1.l, e2, v);
      var c2 := ExtractEqTakesOut(op, a.common, e1.r, a.e2, v);
      CancelsLeft(op, e1.l, e1.r, e2, Pair(a.e1, a.e2, 0), Pair(b.e1, b.e2, 0), v, c1, c2);
      Regroup(op, CommonValue(op, common, v), c1, c2, NO);
      c := Combine(op, c1, c2);
    } else if IsSpine(op, e2) {
      var a := ExtractEq(op, common, e1, e2.l);
      var b := ExtractEq(op, a.common, a.e1, e2.r);
      var c1 := ExtractEqTakesOut(op, common, e1, e2.l, v);
      var c2 := ExtractEqTakesOut(op, a.common, a.e1, e2.r, v);
      CancelsRight(op, e1, e2.l, e2.r, Pair(a.e1, a.e2, 0), Pair(b.e1, b.e2, 0), v, c1, c2);
      Regroup(op, CommonValue(op, common, v), c1, c2, NO);
      c := Combine(op, c1, c2);
    } else {
      CancelsLeaf(op, e1, e2, v);
      if ExprEq(e1, e2) {
        ExprEqSoundFor(e1, e2, v);
        c := Value(e1, v);
      } else {
        c := if op == Or then NO else YES;
      }
    }
  }

  /** expr_extract_eq takes the same part out of both expressions, exactly. */
  lemma ExtractedExact(op: Op, e1: Expr, e2: Expr, v: Valuation)
    requires Proper(v)
    ensures var x := Extracted(op, e1, e2);
            && Value(e1, v) == Combine(op, CommonValue(op, x.common, v), Value(x.e1, v))
            && Value(e2, v) == Combine(op, CommonValue(op, x.common, v), Value(x.e2, v))
  {
    var x := ExtractEq(op, None, e1, e2);
    var c := ExtractEqTakesOut(op, None, e1, e2, v);
    EliminateYnSame(x.e1);
    EliminateYnSame(x.e2);
  }

  // -------------------------------------------------------------------- second pass

  /** The leaf `e1` of an `op` spine is opposed by `e2`: each operand of its negation occurs
      in `e2`, so the two together amount to a constant. */
  predicate Opposed(op: Op, e1: Expr, e2: Expr) {
    e1.Bin? && e1.op == Dual(op) && Extracted(op, Transform(Not(e1)), e2).e1 == Neutral(op)
  }

  /** Replace the leaf at `p` by the absorbing constant if what `q` points at opposes it. */
  function Oppose(op: Op, t: Expr, p: Path, q: Path): (w: Rewrite)
    requires AtLeaf(op, t, p) && p != [] && OnSpine(op, t, q)
    ensures Sound(op, t, w)
  {
    OnSpineFactsAtLeaf(op, t, p);
    OnSpineFacts(op, t, q);
    SameShapeFacts(op, t, t);
    if Opposed(op, Sub(t, p), Sub(t, q)) then
      StoreKeepsShape(op, t, p, Absorbing(op));
      SubStore(t, p, Absorbing(op));
      HasYnBelow(Store(t, p, Absorbing(op)), p);
      Rewrite(Store(t, p, Absorbing(op)), 1)
    else Rewrite(t, 0)
  }

  /** expr_eliminate_dups2.  A spine node under the second cursor is gone through and then
      looked at as a whole as well. */
  function Dups2(op: Op, t: Expr, p: Path, q: Path): (w: Rewrite)
    requires OnSpine(op, t, p) && OnSpine(op, t, q)
    ensures Sound(op, t, w)
    decreases Size(t), Work(op, t, p, q)
  {
    OnSpineFacts(op, t, p);
    OnSpineFacts(op, t, q);
    SameShapeFacts(op, t, t);
    if IsSpine(op, Sub(t, p)) then
      WorkLess(op, t, p, q);
      var a := Dups2(op, t, p + [L], q);
      WorkSame(op, t, a.t, p + [R], q);
      var b := Dups2(op, a.t, p + [R], q);
      SoundStep(op, t, a, b);
      Rewrite(b.t, a.count + b.count)
    else
      var a := Below2(op, t, p, q);
      WorkSame(op, t, a.t, p, q);
      OnSpineFacts(op, a.t, p);
      OnSpineFacts(op, a.t, q);
      SameShapeAt(op, t, a.t, p);
      if p == q then a
      else
        var b := Inner2(op, a.t, p);
        SoundStep(op, t, a, b);
        SameShapeAt(op, a.t, b.t, q);
        var c := Oppose(op, b.t, p, q);
        SoundStep(op, t, Rewrite(b.t, a.count + b.count), c);
        Rewrite(c.t, a.count + b.count + c.count)
  }

  /** Going through the spine node under the second cursor, if it is one. */
  function Below2(op: Op, t: Expr, p: Path, q: Path): (w: Rewrite)
    requires AtLeaf(op, t, p) && OnSpine(op, t, p) && OnSpine(op, t, q)
    ensures Sound(op, t, w)
    decreases Size(t), Work(op, t, p, q), 0
  {
    OnSpineFacts(op, t, q);
    SameShapeFacts(op, t, t);
    if IsSpine(op, Sub(t, q)) then
      WorkLess(op, t, q, p);
      var a := Dups2(op, t, p, q + [L]);
      WorkSame(op, t, a.t, p, q + [R]);
      var b := Dups2(op, a.t, p, q + [R]);
      SoundStep(op, t, a, b);
      Rewrite(b.t, a.count + b.count)
    else Rewrite(t, 0)
  }

  function Inner2(op: Op, t: Expr, p: Path): (w: Rewrite)
    requires AtLeaf(op, t, p) && p != []
    ensures Sound(op, t, w) && AtLeaf(op, w.t, p)
    decreases Size(t), 0
  {
    OnSpineFactsAtLeaf(op, t, p);
    SameShapeFacts(op, t, t);
    var e := Sub(t, p);
    SubSmaller(t, p);
    if e.Bin? then
      var w := Dups2(e.op, e, [], []);
      SoundAtLeaf(op, t, p, w);
      Rewrite(Store(t, p, w.t), w.count)
    else Rewrite(t, 0)
  }

  /** A value of y or n is kept; m may become anything. */
  ghost predicate Keeps(t: Expr, t': Expr, v: Valuation) {
    Value(t, v) != MOD ==> Value(t', v) == Value(t, v)
  }

  /** A leaf and what opposes it are never both neutral. */
  lemma OpposedClash(op: Op, e1: Expr, e2: Expr, v: Valuation)
    requires Opposed(op, e1, e2) && Proper(v)
    ensures !(Value(e1, v) == Value(e2, v) == Value(Neutral(op), v))
  {
    assert v.tri(SYM_YES) == YES && v.tri(SYM_NO) == NO;
    ExtractedExact(op, Transform(Not(e1)), e2, v);
    TransformSameFor(Not(e1), v);
  }

  lemma AbsorbingSlot(op: Op, t: Expr, p: Path, v: Valuation)
    requires OnSpine(op, t, p) && Within(t, p) && Proper(v)
    ensures Value(Store(t, p, Absorbing(op)), v) == Value(Absorbing(op), v)
    ensures Value(Symbol(SYM_YES), v) == YES && Value(Symbol(SYM_NO), v) == NO
  {
    assert v.tri(SYM_YES) == YES && v.tri(SYM_NO) == NO;
    SlotValue(op, t, p, Absorbing(op), v);
  }

  lemma OpposeKeeps(op: Op, t: Expr, p: Path, q: Path, v: Valuation)
    requires AtLeaf(op, t, p) && p != [] && OnSpine(op, t, q) && Proper(v)
    ensures Keeps(t, Oppose(op, t, p, q).t, v)
  {
    OnSpineFactsAtLeaf(op, t, p);
    AtLeafOnSpine(op, t, p);
    OnSpineFacts(op, t, q);
    if Opposed(op, Sub(t, p), Sub(t, q)) {
      OpposedClash(op, Sub(t, p), Sub(t, q), v);
      SlotBounds(op, t, p, v);
      SlotBounds(op, t, q, v);
      AbsorbingSlot(op, t, p, v);
    }
  }

  lemma StoreKeeps(op: Op, t: Expr, p: Path, x: Expr, v: Valuation)
    requires OnSpine(op, t, p) && Within(t, p) && Proper(v) && Keeps(Sub(t, p), x, v)
    ensures Keeps(t, Store(t, p, x), v)
  {
    SubStore(t, p, x);
    SlotValue(op, t, p, x, v);
    SlotValue(op, t, p, Sub(t, p), v);
  }

  /** The second pass keeps y and n in every valuation. */
  lemma {:induction false} Dups2Keeps(op: Op, t: Expr, p: Path, q: Path, v: Valuation)
    requires OnSpine(op, t, p) && OnSpine(op, t, q) && Proper(v)
    ensures Keeps(t, Dups2(op, t, p, q).t, v)
    decreases Size(t), Work(op, t, p, q)
  {
    OnSpineFacts(op, t, p);
    OnSpineFacts(op, t, q);
    if IsSpine(op, Sub(t, p)) {
      WorkLess(op, t, p, q);
      var a := Dups2(op, t, p + [L], q);
      WorkSame(op, t, a.t, p + [R], q);
      Dups2Keeps(op, t, p + [L], q, v);
      Dups2Keeps(op, a.t, p + [R], q, v);
    } else {
      var a := Below2(op, t, p, q);
      Below2Keeps(op, t, p, q, v);
      WorkSame(op, t, a.t, p, q);
      OnSpineFacts(op, a.t, p);
      SameShapeAt(op, t, a.t, p);
      if p != q {
        var b := Inner2(op, a.t, p);
        Inner2Keeps(op, a.t, p, v);
        SameShapeAt(op, a.t, b.t, q);
        OpposeKeeps(op, b.t, p, q, v);
      }
    }
  }

  lemma {:induction false} Below2Keeps(op: Op, t: Expr, p: Path, q: Path, v: Valuation)
    requires AtLeaf(op, t, p) && OnSpine(op, t, p) && OnSpine(op, t, q) && Proper(v)
    ensures Keeps(t, Below2(op, t, p, q).t, v)
    decreases Size(t), Work(op, t, p, q), 0
  {
    OnSpineFacts(op, t, q);
    if IsSpine(op, Sub(t, q)) {
      WorkLess(op, t, q, p);
      var a := Dups2(op, t, p, q + [L]);
      WorkSame(op, t, a.t, p, q + [R]);
      Dups2Keeps(op, t, p, q + [L], v);
      Dups2Keeps(op, a.t, p, q + [R], v);
    }
  }

  lemma {:induction false} Inner2Keeps(op: Op, t: Expr, p: Path, v: Valuation)
    requires AtLeaf(op, t, p) && p != [] && Proper(v)
    ensures Keeps(t, Inner2(op, t, p).t, v)
    decreases Size(t), 0
  {
    OnSpineFactsAtLeaf(op, t, p);
    AtLeafOnSpine(op, t, p);
    SubSmaller(t, p);
    var e := Sub(t, p);
    if e.Bin? {
      Dups2Keeps(e.op, e, [], [], v);
      StoreKeeps(op, t, p, Dups2(e.op, e, [], []).t, v);
    }
  }

  // ------------------------------------------------------------------------ the loop

  /** Both passes over a whole expression. */
  function Passes(e: Expr): (w: Rewrite)
    ensures Size(w.t) <= Size(e)
    ensures w.count == 0 ==> w.t == e
    ensures w.count > 0 ==> HasYn(w.t)
  {
    if !e.Bin? then Rewrite(e, 0)
    else
      var a := Dups1(e.op, e, [], []);
      var b := Dups2(e.op, a.t, [], []);
      SoundStep(e.op, e, a, b);
      Rewrite(b.t, a.count + b.count)
  }

  /** expr_eliminate_dups: repeat the passes until they change nothing.  Each round that
      changes something leaves a constant to prune, so the tree shrinks. */
  function EliminateDups(e: Expr): (r: Expr)
    ensures Size(r) <= Size(e)
    decreases Size(e)
  {
    var w := Passes(e);
    if w.count == 0 then e
    else
      EliminateYnPrunes(w.t);
      EliminateDups(EliminateYn(w.t))
  }

  lemma PassesKeeps(e: Expr, v: Valuation)
    requires Proper(v)
    ensures Keeps(e, Passes(e).t, v)
  {
    if e.Bin? {
      var a := Dups1(e.op, e, [], []);
      Dups1Same(e.op, e, [], [], v);
      Dups2Keeps(e.op, a.t, [], [], v);
    }
  }

  /** Whatever expr_eliminate_dups does, in every valuation an expression that is y or n keeps
      its value.  An m may change. */
  lemma {:induction false} EliminateDupsKeeps(e: Expr, v: Valuation)
    requires Proper(v)
    ensures Keeps(e, EliminateDups(e), v)
    decreases Size(e)
  {
    var w := Passes(e);
    if w.count != 0 {
      PassesKeeps(e, v);
      EliminateYnPrunes(w.t);
      EliminateYnSame(w.t);
      EliminateDupsKeeps(EliminateYn(w.t), v);
    }
  }

  lemma {:induction false} TwoValuedValue(e: Expr, v: Valuation)
    requires TwoValued(e, v)
    ensures Value(e, v) != MOD
  {
    match e
    case Not(x) => TwoValuedValue(x, v);
    case Bin(_, a, b) => TwoValuedValue(a, v); TwoValuedValue(b, v);
    case _ =>
  }

  /** Without m among its symbols an expression keeps its value. */
  lemma EliminateDupsTwoValued(e: Expr, v: Valuation)
    requires Proper(v) && TwoValued(e, v)
    ensures Value(EliminateDups(e), v) == Value(e, v)
  {
    TwoValuedValue(e, v);
    EliminateDupsKeeps(e, v);
  }

  /** The result is stable: another call changes nothing. */
  lemma {:induction false} EliminateDupsStable(e: Expr)
    ensures Passes(EliminateDups(e)).count == 0
    ensures EliminateDups(EliminateDups(e)) == EliminateDups(e)
    decreases Size(e)
  {
    var w := Passes(e);
    if w.count != 0 {
      EliminateYnPrunes(w.t);
      EliminateDupsStable(EliminateYn(w.t));
    }
  }
}
