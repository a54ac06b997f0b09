/** Equality of dependency expressions up to associativity, commutativity and shared parts:
    expr_eq and the cancellation it rests on (scripts/kconfig/expr.c). */
module KconfigEq {
  import opened KconfigExpr

  /** Two trees after cancelling equal leaves, and how often that happened. */
  datatype Pair = Pair(e1: Expr, e2: Expr, count: nat)

  predicate IsSpine(op: Op, e: Expr) { e.Bin? && e.op == op }

  /** __expr_eliminate_eq: every leaf of the `op`-spine of `e1` against every leaf of `e2`'s. */
  function EliminateEqAt(op: Op, e1: Expr, e2: Expr): (p: Pair)
    ensures Size(p.e1) <= Size(e1) && Size(p.e2) <= Size(e2)
    ensures IsSpine(op, e1) ==> IsSpine(op, p.e1)
    decreases Size(e1) + Size(e2), if IsSpine(op, e1) || IsSpine(op, e2) then 0 else 3
  {
    if IsSpine(op, e1) then
      var p := EliminateEqAt(op, e1.l, e2);
      var q := EliminateEqAt(op, e1.r, p.e2);
      Pair(Bin(op, p.e1, q.e1), q.e2, p.count + q.count)
    else if IsSpine(op, e2) then
      var p := EliminateEqAt(op, e1, e2.l);
      var q := EliminateEqAt(op, p.e1, e2.r);
      Pair(q.e1, Bin(op, p.e2, q.e2), p.count + q.count)
    else if e1 == e2 && IsYn(e1) then Pair(e1, e2, 0)
    else if !ExprEq(e1, e2) then Pair(e1, e2, 0)
    else Pair(Neutral(op), Neutral(op), 1)
  }

  /** expr_eliminate_eq */
  function EliminateEq(e1: Expr, e2: Expr): (p: Pair)
    decreases Size(e1) + Size(e2), 1
  {
    var p := if e1.Bin? then EliminateEqAt(e1.op, e1, e2) else Pair(e1, e2, 0);
    var q := if p.e2.Bin? && !IsSpine(p.e2.op, p.e1)
             then EliminateEqAt(p.e2.op, p.e1, p.e2)
             else Pair(p.e1, p.e2, 0);
    Pair(EliminateYn(q.e1), EliminateYn(q.e2), p.count + q.count)
  }

  /** expr_eq */
  predicate ExprEq(e1: Expr, e2: Expr)
    decreases Size(e1) + Size(e2), 2
  {
    match (e1, e2)
    case (Symbol(s), Symbol(t)) => s == t
    case (Equal(a, b), Equal(c, d)) => a == c && b == d
    case (Unequal(a, b), Unequal(c, d)) => a == c && b == d
    case (Not(x), Not(y)) => ExprEq(x, y)
    case (Bin(op, _, _), Bin(op', _, _)) =>
      op == op' &&
      var p := EliminateEq(e1, e2);
      p.e1.Symbol? && p.e2.Symbol? && p.e1.sym == p.e2.sym
    case _ => false
  }

  // ---------------------------------------------------------------------- soundness

  /** The two residues leave out one common part: what was cancelled. */
  ghost predicate Cancels(op: Op, e1: Expr, e2: Expr, p: Pair, v: Valuation, c: Tri) {
    && Value(e1, v) == Combine(op, c, Value(p.e1, v))
    && Value(e2, v) == Combine(op, c, Value(p.e2, v))
  }

  lemma Regroup(op: Op, a: Tri, b: Tri, c: Tri, d: Tri)
    ensures Combine(op, Combine(op, a, b), Combine(op, c, d))
         == Combine(op, Combine(op, a, c), Combine(op, b, d))
    ensures Combine(op, a, Combine(op, b, c)) == Combine(op, Combine(op, a, b), c)
  {
  }

  lemma CancelsLeft(op: Op, l: Expr, r: Expr, e2: Expr, p: Pair, q: Pair, v: Valuation, c: Tri, d: Tri)
    requires Cancels(op, l, e2, p, v, c) && Cancels(op, r, p.e2, q, v, d)
    ensures Cancels(op, Bin(op, l, r), e2, Pair(Bin(op, p.e1, q.e1), q.e2, p.count + q.count), v,
                    Combine(op, c, d))
  {
    Regroup(op, c, Value(p.e1, v), d, Value(q.e1, v));
    Regroup(op, c, d, Value(q.e2, v), NO);
  }

  lemma CancelsRight(op: Op, e1: Expr, l: Expr, r: Expr, p: Pair, q: Pair, v: Valuation, c: Tri, d: Tri)
    requires Cancels(op, e1, l, p, v, c) && Cancels(op, p.e1, r, q, v, d)
    ensures Cancels(op, e1, Bin(op, l, r), Pair(q.e1, Bin(op, p.e2, q.e2), p.count + q.count), v,
                    Combine(op, c, d))
  {
    Regroup(op, c, Value(p.e2, v), d, Value(q.e2, v));
    Regroup(op, c, d, Value(q.e1, v), NO);
  }

  /** A leaf pair: cancelled against itself, or left alone. */
  lemma CancelsLeaf(op: Op, e1: Expr, e2: Expr, v: Valuation)
    requires Proper(v)
    ensures Cancels(op, e1, e2, Pair(e1, e2, 0), v, if op == Or then NO else YES)
    ensures Value(e1, v) == Value(e2, v) ==>
              Cancels(op, e1, e2, Pair(Neutral(op), Neutral(op), 1), v, Value(e1, v))
  {
    assert v.tri(SYM_YES) == YES && v.tri(SYM_NO) == NO;
  }

  lemma {:induction false} EliminateEqAtCancels(op: Op, e1: Expr, e2: Expr, v: Valuation)
    returns (c: Tri)
    requires Proper(v)
    ensures Cancels(op, e1, e2, EliminateEqAt(op, e1, e2), v, c)
    decreases Size(e1) + Size(e2), if IsSpine(op, e1) || IsSpine(op, e2) then 0 else 3
  {
    if IsSpine(op, e1) {
      var p := EliminateEqAt(op, e1.l, e2);
      var c1 := EliminateEqAtCancels(op, e1.l, e2, v);
      var c2 := EliminateEqAtCancels(op, e1.r, p.e2, v);
      CancelsLeft(op, e1.l, e1.r, e2, p, EliminateEqAt(op, e1.r, p.e2), v, c1, c2);
      c := Combine(op, c1, c2);
    } else if IsSpine(op, e2) {
      var p := EliminateEqAt(op, e1, e2.l);
      var c1 := EliminateEqAtCancels(op, e1, e2.l, v);
      var c2 := EliminateEqAtCancels(op, p.e1, e2.r, v);
      CancelsRight(op, e1, e2.l, e2.r, p, EliminateEqAt(op, p.e1, e2.r), v, c1, c2);
      c := Combine(op, c1, c2);
    } else {
      CancelsLeaf(op, e1, e2, v);
      if !(e1 == e2 && IsYn(e1)) && ExprEq(e1, e2) {
        ExprEqSoundFor(e1, e2, v);
        c := Value(e1, v);
      } else {
        c := if op == Or then NO else YES;
      }
    }
  }

  /** The residues are ordered as the originals are, in either direction. */
  ghost predicate ReflectsOrder(e1: Expr, e2: Expr, p: Pair, v: Valuation) {
    && (Value(p.e1, v) <= Value(p.e2, v) ==> Value(e1, v) <= Value(e2, v))
    && (Value(p.e1, v) >= Value(p.e2, v) ==> Value(e1, v) >= Value(e2, v))
  }

  lemma CancelsReflects(op: Op, e1: Expr, e2: Expr, p: Pair, v: Valuation, c: Tri)
    requires Cancels(op, e1, e2, p, v, c)
    ensures ReflectsOrder(e1, e2, p, v)
  {
  }

  lemma {:induction false} EliminateEqReflectsFor(e1: Expr, e2: Expr, v: Valuation)
    requires Proper(v)
    ensures ReflectsOrder(e1, e2, EliminateEq(e1, e2), v)
    decreases Size(e1) + Size(e2), 1
  {
    var p := if e1.Bin? then EliminateEqAt(e1.op, e1, e2) else Pair(e1, e2, 0);
    if e1.Bin? {
      var c := EliminateEqAtCancels(e1.op, e1, e2, v);
      CancelsReflects(e1.op, e1, e2, p, v, c);
    }
    var second := p.e2.Bin? && !IsSpine(p.e2.op, p.e1);
    var q := if second then EliminateEqAt(p.e2.op, p.e1, p.e2) else Pair(p.e1, p.e2, 0);
    if second {
      var c := EliminateEqAtCancels(p.e2.op, p.e1, p.e2, v);
      CancelsReflects(p.e2.op, p.e1, p.e2, q, v, c);
    }
    EliminateYnSame(q.e1);
    EliminateYnSame(q.e2);
    var r := EliminateEq(e1, e2);
    assert r.e1 == EliminateYn(q.e1) && r.e2 == EliminateYn(q.e2);
    assert Value(r.e1, v) == Value(q.e1, v) && Value(r.e2, v) == Value(q.e2, v);
  }

  lemma {:induction false} ExprEqSoundFor(e1: Expr, e2: Expr, v: Valuation)
    requires Proper(v) && ExprEq(e1, e2)
    ensures Value(e1, v) == Value(e2, v)
    decreases Size(e1) + Size(e2), 2
  {
    if e1.Not? {
      ExprEqSoundFor(e1.e, e2.e, v);
    } else if e1.Bin? {
      EliminateEqReflectsFor(e1, e2, v);
    }
  }

  /** expr_eq is sound: expressions it calls equal have the same value in every valuation. */
  lemma ExprEqSound(e1: Expr, e2: Expr)
    requires ExprEq(e1, e2)
    ensures Same(e1, e2)
  {
    forall v: Valuation | Proper(v) ensures Value(e1, v) == Value(e2, v) {
      ExprEqSoundFor(e1, e2, v);
    }
  }

  /** expr_eliminate_eq reflects order: where the first residue is at most the second, the
      first expression is at most the second, and conversely. */
  lemma EliminateEqReflects(e1: Expr, e2: Expr)
    ensures forall v: Valuation | Proper(v) :: ReflectsOrder(e1, e2, EliminateEq(e1, e2), v)
  {
    forall v: Valuation | Proper(v) ensures ReflectsOrder(e1, e2, EliminateEq(e1, e2), v) {
      EliminateEqReflectsFor(e1, e2, v);
    }
  }

  /** A second residue of y: the first expression implies the second. */
  lemma YesResidueImplies(e1: Expr, e2: Expr, v: Valuation)
    requires Proper(v) && EliminateEq(e1, e2).e2 == Symbol(SYM_YES)
    ensures Value(e1, v) <= Value(e2, v)
  {
    EliminateEqReflectsFor(e1, e2, v);
    assert v.tri(SYM_YES) == YES;
  }
}
