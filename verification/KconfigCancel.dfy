/** What the cancellation of common operands (__expr_eliminate_eq in scripts/kconfig/expr.c)
    leaves: nothing that is common.  So expr_eq answers yes for an expression and itself. */
module KconfigCancel {
  import opened KconfigExpr
  import opened KconfigEq
  import opened KconfigPaths

  /** The operands of a spine. */
  function LeafSet(op: Op, e: Expr): set<Expr> {
    if IsSpine(op, e) then LeafSet(op, e.l) + LeafSet(op, e.r) else {e}
  }

  /** What equals a constant is that constant. */
  lemma EqualsConstant(a: Expr, b: Expr)
    requires ExprEq(a, b) && (IsYn(a) || IsYn(b))
    ensures a == b
  {
  }

  lemma LeavesJoin(op: Op, l: Expr, r: Expr, x: Expr, y: Expr)
    requires LeafSet(op, x) <= LeafSet(op, l) + {Neutral(op)} && LeafSet(op, y) <= LeafSet(op, r) + {Neutral(op)}
    ensures LeafSet(op, Bin(op, x, y)) <= LeafSet(op, Bin(op, l, r)) + {Neutral(op)}
  {
    assert LeafSet(op, Bin(op, x, y)) == LeafSet(op, x) + LeafSet(op, y);
    assert LeafSet(op, Bin(op, l, r)) == LeafSet(op, l) + LeafSet(op, r);
  }

  /** Cancelled operands are replaced by the neutral constant, others stay. */
  lemma {:induction false} CancelKeepsLeaves(op: Op, e1: Expr, e2: Expr)
    ensures LeafSet(op, EliminateEqAt(op, e1, e2).e1) <= LeafSet(op, e1) + {Neutral(op)}
    ensures LeafSet(op, EliminateEqAt(op, e1, e2).e2) <= LeafSet(op, e2) + {Neutral(op)}
    decreases Size(e1) + Size(e2)
  {
    if IsSpine(op, e1) {
      var p := EliminateEqAt(op, e1.l, e2);
      var q := EliminateEqAt(op, e1.r, p.e2);
      CancelKeepsLeaves(op, e1.l, e2);
      CancelKeepsLeaves(op, e1.r, p.e2);
      LeavesJoin(op, e1.l, e1.r, p.e1, q.e1);
    } else if IsSpine(op, e2) {
      var p := EliminateEqAt(op, e1, e2.l);
      var q := EliminateEqAt(op, p.e1, e2.r);
      CancelKeepsLeaves(op, e1, e2.l);
      CancelKeepsLeaves(op, p.e1, e2.r);
      LeavesJoin(op, e2.l, e2.r, p.e2, q.e2);
    }
  }

  /** No operand of the one is equal to an operand of the other, but for constants. */
  ghost predicate Apart(op: Op, e1: Expr, e2: Expr) {
    forall a, b {:trigger ExprEq(a, b)} | a in LeafSet(op, e1) && b in LeafSet(op, e2) && ExprEq(a, b) ::
      a == b && IsYn(a)
  }

  lemma ApartStays(op: Op, e1: Expr, e2: Expr, x1: Expr, x2: Expr)
    requires Apart(op, e1, e2)
    requires LeafSet(op, x1) <= LeafSet(op, e1) + {Neutral(op)} && LeafSet(op, x2) <= LeafSet(op, e2) + {Neutral(op)}
    ensures Apart(op, x1, x2)
  {
    forall a, b {:trigger ExprEq(a, b)} | a in LeafSet(op, x1) && b in LeafSet(op, x2) && ExprEq(a, b)
      ensures a == b && IsYn(a)
    {
      if a == Neutral(op) || b == Neutral(op) { EqualsConstant(a, b); }
    }
  }

  /** Everything that is common is cancelled. */
  lemma {:induction false} CancelsAll(op: Op, e1: Expr, e2: Expr)
    ensures Apart(op, EliminateEqAt(op, e1, e2).e1, EliminateEqAt(op, e1, e2).e2)
    decreases Size(e1) + Size(e2)
  {
    var r := EliminateEqAt(op, e1, e2);
    if IsSpine(op, e1) {
      var p := EliminateEqAt(op, e1.l, e2);
      var q := EliminateEqAt(op, e1.r, p.e2);
      CancelsAll(op, e1.l, e2);
      CancelsAll(op, e1.r, p.e2);
      CancelKeepsLeaves(op, e1.r, p.e2);
      ApartStays(op, p.e1, p.e2, p.e1, q.e2);
    } else if IsSpine(op, e2) {
      var p := EliminateEqAt(op, e1, e2.l);
      var q := EliminateEqAt(op, p.e1, e2.r);
      CancelsAll(op, e1, e2.l);
      CancelsAll(op, p.e1, e2.r);
      CancelKeepsLeaves(op, p.e1, e2.r);
      ApartStays(op, p.e1, p.e2, q.e1, p.e2);
    }
  }

  // --------------------------------------------------------------- an expression and itself

  /** All operands but constants replaced. */
  function Blank(op: Op, e: Expr): Expr {
    if IsSpine(op, e) then Bin(op, Blank(op, e.l), Blank(op, e.r)) else if IsYn(e) then e else Neutral(op)
  }

  predicate AllYn(op: Op, e: Expr) {
    if IsSpine(op, e) then AllYn(op, e.l) && AllYn(op, e.r) else IsYn(e)
  }

  lemma {:induction false} BlankAllYn(op: Op, e: Expr)
    ensures AllYn(op, Blank(op, e)) && (IsSpine(op, Blank(op, e)) <==> IsSpine(op, e))
  {
    if IsSpine(op, e) {
      BlankAllYn(op, e.l);
      BlankAllYn(op, e.r);
    }
  }

  lemma {:induction false} AllYnPrunes(op: Op, e: Expr)
    requires AllYn(op, e)
    ensures IsYn(EliminateYn(e))
  {
    if IsSpine(op, e) {
      AllYnPrunes(op, e.l);
      AllYnPrunes(op, e.r);
    }
  }

  /** A constant cancels nothing, and nothing is cancelled against constants. */
  lemma {:induction false} ConstantsStay(op: Op, a: Expr, t: Expr)
    requires !IsSpine(op, a) && (IsYn(a) || AllYn(op, t))
    ensures EliminateEqAt(op, a, t) == Pair(a, t, 0)
    decreases t
  {
    if IsSpine(op, t) {
      ConstantsStay(op, a, t.l);
      ConstantsStay(op, a, t.r);
    } else if ExprEq(a, t) {
      EqualsConstant(a, t);
    }
  }

  /** All operands before the place are constants. */
  predicate BeforeAllYn(op: Op, t: Expr, p: Path)
    requires OnSpine(op, t, p)
    decreases |p|
  {
    p != [] ==>
      (p[0] == R ==> AllYn(op, t.l)) && BeforeAllYn(op, Child(t, p[0]), p[1..])
  }

  /** An operand cancels against itself, if what comes before it has been cancelled. */
  lemma {:induction false} LeafCancels(op: Op, t: Expr, p: Path)
    requires AtLeaf(op, t, p) && OnSpine(op, t, p) && Within(t, p) && BeforeAllYn(op, t, p)
    requires ExprEq(Sub(t, p), Sub(t, p))
    ensures var a, r := Sub(t, p), EliminateEqAt(op, Sub(t, p), t);
            r.e1 == Blank(op, a) && r.e2 == Store(t, p, Blank(op, a))
    decreases |p|
  {
    var a := Sub(t, p);
    OnSpineFacts(op, t, p);
    if p != [] {
      LeafCancels(op, Child(t, p[0]), p[1..]);
      if p[0] == L {
        ConstantsStay(op, Blank(op, a), t.r);
      } else {
        ConstantsStay(op, a, t.l);
      }
    }
  }

  lemma {:induction false} BeforeRight(op: Op, t: Expr, p: Path, x: Expr)
    requires OnSpine(op, t, p) && Within(t, p) && BeforeAllYn(op, t, p) && IsSpine(op, Sub(t, p)) && AllYn(op, x)
    ensures OnSpine(op, t, p + [L]) && BeforeAllYn(op, t, p + [L]) && Within(t, p + [L])
    ensures var t' := Store(t, p + [L], x);
            && OnSpine(op, t', p + [R]) && BeforeAllYn(op, t', p + [R]) && Within(t', p + [R])
            && Sub(t', p + [R]) == Sub(t, p).r && Sub(t, p + [L]) == Sub(t, p).l
            && forall y :: Store(t', p + [R], y) == Store(t, p, Bin(op, x, y))
    decreases |p|
  {
    if p != [] {
      assert (p + [L])[1..] == p[1..] + [L] && (p + [R])[1..] == p[1..] + [R];
      BeforeRight(op, Child(t, p[0]), p[1..], x);
    }
  }

  /** So does a part of a spine. */
  lemma {:induction false} SpineCancels(op: Op, t: Expr, p: Path)
    requires OnSpine(op, t, p) && Within(t, p) && BeforeAllYn(op, t, p)
    requires forall a | a in LeafSet(op, Sub(t, p)) :: ExprEq(a, a)
    ensures var s, r := Sub(t, p), EliminateEqAt(op, Sub(t, p), t);
            r.e1 == Blank(op, s) && r.e2 == Store(t, p, Blank(op, s))
    decreases Sub(t, p)
  {
    var s := Sub(t, p);
    if IsSpine(op, s) {
      BlankAllYn(op, s.l);
      BeforeRight(op, t, p, Blank(op, s.l));
      SpineCancels(op, t, p + [L]);
      SpineCancels(op, Store(t, p + [L], Blank(op, s.l)), p + [R]);
    } else {
      OnSpineFacts(op, t, p);
      LeafCancels(op, t, p);
    }
  }

  lemma {:induction false} LeafSmaller(op: Op, e: Expr, a: Expr)
    requires a in LeafSet(op, e)
    ensures Size(a) <= Size(e) && (IsSpine(op, e) ==> Size(a) < Size(e))
  {
    if IsSpine(op, e) {
      LeafSmaller(op, if a in LeafSet(op, e.l) then e.l else e.r, a);
    }
  }

  /** expr_eq is reflexive. */
  lemma {:induction false} ExprEqReflexive(e: Expr)
    ensures ExprEq(e, e)
    decreases Size(e)
  {
    if e.Not? {
      ExprEqReflexive(e.e);
    } else if e.Bin? {
      forall a | a in LeafSet(e.op, e) ensures ExprEq(a, a) {
        LeafSmaller(e.op, e, a);
        ExprEqReflexive(a);
      }
      SpineCancels(e.op, e, []);
      BlankAllYn(e.op, e);
      AllYnPrunes(e.op, Blank(e.op, e));
    }
  }
}
