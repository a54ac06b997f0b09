/** What expr_eliminate_dups (scripts/kconfig/expr.c) is for: what it returns has no duplicate
    operands left, none that could be joined, and none that is opposed by others. */
module KconfigReduced {
  import opened Basics
  import opened KconfigExpr
  import opened KconfigEq
  import opened KconfigJoin
  import opened KconfigTransform
  import opened KconfigPaths
  import opened KconfigDups
  import opened KconfigCancel

  lemma PathStep(p: Path, x: Path)
    requires x != []
    ensures p + x == (p + [x[0]]) + x[1..]
  {
  }

  /** At a leaf a path ends, and on a spine it goes on. */
  lemma {:induction false} LeafEnds(op: Op, t: Expr, p: Path, x: Path)
    requires OnSpine(op, t, p) && Within(t, p) && AtLeaf(op, t, p + x)
    ensures IsSpine(op, Sub(t, p)) <==> x != []
    decreases |p|
  {
    if p == [] {
      assert p + x == x;
    } else {
      assert (p + x)[1..] == p[1..] + x;
      LeafEnds(op, Child(t, p[0]), p[1..], x);
    }
  }

  lemma QuietLeaves(op: Op, t: Expr, p: Path, q: Path)
    requires AtLeaf(op, t, p) && AtLeaf(op, t, q) && OnSpine(op, t, p) && OnSpine(op, t, q) && p != q
    requires Dups1(op, t, p, q).count == 0
    ensures Within(t, p) && Within(t, q)
    ensures Join(op, Sub(t, p), Sub(t, q)) == None && Inner1(op, t, p).count == 0
  {
    OnSpineFacts(op, t, p);
    OnSpineFacts(op, t, q);
  }

  /** A first pass that changes nothing has found nothing to join: with the first cursor at a leaf, */
  lemma {:induction false} QuietRow1(op: Op, t: Expr, p: Path, q: Path, y: Path)
    requires AtLeaf(op, t, p) && OnSpine(op, t, p) && OnSpine(op, t, q) && Dups1(op, t, p, q).count == 0
    requires AtLeaf(op, t, q + y) && p != q + y
    ensures Within(t, p) && Within(t, q + y)
    ensures Join(op, Sub(t, p), Sub(t, q + y)) == None && Inner1(op, t, p).count == 0
    decreases |y|
  {
    OnSpineFacts(op, t, p);
    OnSpineFacts(op, t, q);
    LeafEnds(op, t, q, y);
    if y != [] {
      WorkLess(op, t, q, p);
      PathStep(q, y);
      assert y[0] == L || y[0] == R;
      QuietRow1(op, t, p, q + [y[0]], y[1..]);
    } else {
      assert q + y == q;
      QuietLeaves(op, t, p, q);
    }
  }

  /** and anywhere. */
  lemma {:induction false} QuietPass1(op: Op, t: Expr, p: Path, q: Path, x: Path, y: Path)
    requires OnSpine(op, t, p) && OnSpine(op, t, q) && Dups1(op, t, p, q).count == 0
    requires AtLeaf(op, t, p + x) && AtLeaf(op, t, q + y) && p + x != q + y
    ensures Within(t, p + x) && Within(t, q + y)
    ensures Join(op, Sub(t, p + x), Sub(t, q + y)) == None && Inner1(op, t, p + x).count == 0
    decreases |x|
  {
    OnSpineFacts(op, t, p);
    LeafEnds(op, t, p, x);
    if x != [] {
      WorkLess(op, t, p, q);
      PathStep(p, x);
      assert x[0] == L || x[0] == R;
      QuietPass1(op, t, p + [x[0]], q, x[1..], y);
    } else {
      assert p + x == p;
      QuietRow1(op, t, p, q, y);
    }
  }

  function FirstLeaf(op: Op, t: Expr): Path {
    if IsSpine(op, t) then [L] + FirstLeaf(op, t.l) else []
  }

  lemma {:induction false} FirstLeafIsLeaf(op: Op, t: Expr)
    ensures AtLeaf(op, t, FirstLeaf(op, t))
  {
    if IsSpine(op, t) { FirstLeafIsLeaf(op, t.l); }
  }

  /** A spine has more than one leaf. */
  lemma OtherLeaf(op: Op, t: Expr, p: Path) returns (q: Path)
    requires IsSpine(op, t) && AtLeaf(op, t, p)
    ensures AtLeaf(op, t, q) && q != p
  {
    if p[0] == L {
      FirstLeafIsLeaf(op, t.r);
      q := [R] + FirstLeaf(op, t.r);
      assert q[1..] == FirstLeaf(op, t.r);
    } else {
      FirstLeafIsLeaf(op, t.l);
      q := [L] + FirstLeaf(op, t.l);
      assert q[1..] == FirstLeaf(op, t.l);
    }
  }

  /** Nothing is left for the first pass to do. */
  predicate Quiet1(t: Expr) { t.Bin? ==> Dups1(t.op, t, [], []).count == 0 }

  /** Then there is nothing to do in an operand either. */
  lemma QuietInside1(op: Op, t: Expr, p: Path)
    requires IsSpine(op, t) && Quiet1(t) && AtLeaf(op, t, p)
    ensures Within(t, p) && Quiet1(Sub(t, p)) && Size(Sub(t, p)) < Size(t)
  {
    var q := OtherLeaf(op, t, p);
    assert [] + p == p && [] + q == q;
    QuietPass1(op, t, [], [], p, q);
    SubSmaller(t, p);
  }

  lemma AppendAssoc(a: Path, b: Path, c: Path)
    ensures (a + b) + c == a + (b + c)
  {
  }

  /** From a place on a spine its leaves are leaves of the whole spine. */
  lemma {:induction false} LeafBelow(op: Op, t: Expr, v: Path, p: Path)
    requires OnSpine(op, t, v) && Within(t, v) && AtLeaf(op, Sub(t, v), p)
    ensures AtLeaf(op, t, v + p) && Within(t, v + p) && Within(Sub(t, v), p) && Sub(t, v + p) == Sub(Sub(t, v), p)
    decreases |v|
  {
    AtLeafOnSpine(op, Sub(t, v), p);
    OnSpineFacts(op, Sub(t, v), p);
    Compose(t, v, p);
    if v == [] {
      assert v + p == p;
    } else {
      assert (v + p)[1..] == v[1..] + p;
      LeafBelow(op, Child(t, v[0]), v[1..], p);
    }
  }

  /** Two leaves of a spine, wherever in the tree the spine is: from the place `v` on the spine of
      the root follow `w`, and then `x` or `y`. */
  lemma {:induction false} NothingJoins(t: Expr, v: Path, w: Path, x: Path, y: Path)
    requires t.Bin? && Quiet1(t) && OnSpine(t.op, t, v) && Within(t, v) && Within(Sub(t, v), w)
    requires var f := Sub(Sub(t, v), w); f.Bin? && AtLeaf(f.op, f, x) && AtLeaf(f.op, f, y) && x != y
    ensures var f := Sub(Sub(t, v), w);
            Within(f, x) && Within(f, y) && Join(f.op, Sub(f, x), Sub(f, y)) == None
    decreases Size(t), |w|
  {
    var op, s := t.op, Sub(t, v);
    OnSpineFacts(op, t, v);
    if IsSpine(op, s) {
      if w == [] {
        LeafBelow(op, t, v, x);
        LeafBelow(op, t, v, y);
        assert [] + (v + x) == v + x && [] + (v + y) == v + y;
        assert v + x != v + y by { assert (v + x)[|v|..] == x && (v + y)[|v|..] == y; }
        QuietPass1(op, t, [], [], v + x, v + y);
      } else {
        Descend(t, v, w[0]);
        assert w[0] == L || w[0] == R;
        NothingJoins(t, v + [w[0]], w[1..], x, y);
      }
    } else {
      QuietInside1(op, t, v);
      NothingJoins(s, [], w, x, y);
    }
  }

  // ------------------------------------------------------------------- what cannot be joined

  /** "or" of the two is always y, or one comparison says the same. */
  predicate ClashesBelowOr(a: Expr, b: Expr) {
    || (a.Symbol? && b == Not(a) && a.sym.Type() == Boolean)
    || (a.Equal? && b.Equal? && a.left == b.left && a.left.Type() == Tristate && a.right != b.right
        && IsYmn(a.right) && IsYmn(b.right))
  }

  /** "and" of the two is always n, or one of the two or one comparison says the same. */
  predicate ClashesBelowAnd(a: Expr, b: Expr) {
    || (a.Symbol? && a.sym.Type() in {Boolean, Tristate}
        && b in {Equal(a.sym, SYM_YES), Unequal(a.sym, SYM_NO), Unequal(a.sym, SYM_MOD)})
    || (a.Equal? && b.Unequal? && a.left == b.left && a.left.Type() == Tristate
        && a.right.Const? && b.right.Const?)
    || (a.Unequal? && b.Unequal? && a.left == b.left && a.left.Type() == Tristate && a.right != b.right
        && IsYmn(a.right) && IsYmn(b.right))
  }

  predicate Clashes(op: Op, a: Expr, b: Expr) {
    if op == Or then ClashesBelowOr(a, b) else ClashesBelowAnd(a, b)
  }

  lemma ClashesJoin(op: Op, a: Expr, b: Expr)
    requires Clashes(op, a, b)
    ensures Join(op, a, b).Some?
  {
    assert "y"[0] != "m"[0] && "m"[0] != "n"[0] && "y"[0] != "n"[0];
  }

  lemma EqualJoin(op: Op, a: Expr, b: Expr)
    requires ExprEq(a, b) || a == b
    ensures Join(op, a, b).Some?
  {
    if a == b { ExprEqReflexive(a); }
  }

  predicate Quiet2(t: Expr) { t.Bin? ==> Dups2(t.op, t, [], []).count == 0 }

  lemma EliminateDupsQuiet(e: Expr)
    ensures Quiet1(EliminateDups(e)) && Quiet2(EliminateDups(e))
  {
    EliminateDupsStable(e);
  }

  /** expr_eliminate_dups leaves no duplicates.  In what it returns take any "and" or "or", at
      `w`, and any two of the operands of its spine, at `x` and `y`: they are different
      expressions, expr_eq does not take them for equal, and they cannot be joined. */
  lemma EliminateDupsReduces(e: Expr, w: Path, x: Path, y: Path)
    requires Within(EliminateDups(e), w)
    requires var f := Sub(EliminateDups(e), w); f.Bin? && AtLeaf(f.op, f, x) && AtLeaf(f.op, f, y) && x != y
    ensures var f := Sub(EliminateDups(e), w);
            && Within(f, x) && Within(f, y)
            && var a, b := Sub(f, x), Sub(f, y); a != b && !ExprEq(a, b) && !Clashes(f.op, a, b)
  {
    var r := EliminateDups(e);
    var f := Sub(r, w);
    EliminateDupsQuiet(e);
    assert r.Bin?;
    NothingJoins(r, [], w, x, y);
    var a, b := Sub(f, x), Sub(f, y);
    if ExprEq(a, b) || a == b { EqualJoin(f.op, a, b); }
    if Clashes(f.op, a, b) { ClashesJoin(f.op, a, b); }
  }

  // ------------------------------------------------------------------- what is opposed

  lemma QuietLeaf2(op: Op, t: Expr, p: Path, q: Path)
    requires AtLeaf(op, t, p) && OnSpine(op, t, p) && OnSpine(op, t, q) && p != q
    requires Dups2(op, t, p, q).count == 0
    ensures Within(t, p) && Within(t, q) && !Opposed(op, Sub(t, p), Sub(t, q)) && Inner2(op, t, p).count == 0
  {
    OnSpineFacts(op, t, p);
    OnSpineFacts(op, t, q);
    assert Below2(op, t, p, q).t == t;
  }

  /** A second pass that changes nothing has found no operand opposed. */
  lemma {:induction false} QuietPass2(op: Op, t: Expr, p: Path, q: Path, x: Path)
    requires OnSpine(op, t, p) && OnSpine(op, t, q) && Dups2(op, t, p, q).count == 0
    requires AtLeaf(op, t, p + x) && p + x != q
    ensures Within(t, p + x) && Within(t, q) && !Opposed(op, Sub(t, p + x), Sub(t, q))
    ensures Inner2(op, t, p + x).count == 0
    decreases Size(t), Work(op, t, p, q)
  {
    OnSpineFacts(op, t, p);
    OnSpineFacts(op, t, q);
    LeafEnds(op, t, p, x);
    if x != [] {
      WorkLess(op, t, p, q);
      PathStep(p, x);
      assert x[0] == L || x[0] == R;
      QuietPass2(op, t, p + [x[0]], q, x[1..]);
    } else {
      assert p + x == p;
      QuietLeaf2(op, t, p, q);
    }
  }

  lemma QuietInside2(op: Op, t: Expr, p: Path)
    requires IsSpine(op, t) && Quiet2(t) && AtLeaf(op, t, p)
    ensures Within(t, p) && Quiet2(Sub(t, p)) && Size(Sub(t, p)) < Size(t)
    ensures !Opposed(op, Sub(t, p), t)
  {
    assert p != [] && [] + p == p;
    QuietPass2(op, t, [], [], p);
    SubSmaller(t, p);
  }

  lemma {:induction false} LeafInSet(op: Op, t: Expr, p: Path)
    requires AtLeaf(op, t, p) && Within(t, p)
    ensures Sub(t, p) in LeafSet(op, t)
    decreases |p|
  {
    if p != [] { LeafInSet(op, Child(t, p[0]), p[1..]); }
  }

  lemma {:induction false} LeafAt(op: Op, t: Expr, a: Expr) returns (p: Path)
    requires a in LeafSet(op, t)
    ensures AtLeaf(op, t, p) && Within(t, p) && Sub(t, p) == a
    decreases t
  {
    p := [];
    if IsSpine(op, t) {
      var d := if a in LeafSet(op, t.l) then L else R;
      var q := LeafAt(op, Child(t, d), a);
      p := [d] + q;
      assert p[1..] == q;
    }
  }

  /** Different operands are not taken for equal. */
  ghost predicate Distinct(op: Op, t: Expr) {
    forall a, b {:trigger ExprEq(a, b)} | a in LeafSet(op, t) && b in LeafSet(op, t) && ExprEq(a, b) :: a == b
  }

  lemma QuietIsDistinct(op: Op, t: Expr)
    requires IsSpine(op, t) && Quiet1(t)
    ensures Distinct(op, t)
  {
    forall a, b {:trigger ExprEq(a, b)} | a in LeafSet(op, t) && b in LeafSet(op, t) && ExprEq(a, b)
      ensures a == b
    {
      var p := LeafAt(op, t, a);
      var q := LeafAt(op, t, b);
      if p != q {
        assert [] + p == p && [] + q == q;
        QuietPass1(op, t, [], [], p, q);
        EqualJoin(op, a, b);
      }
    }
  }

  /** No operand occurs on both sides of a node of the spine. */
  predicate Once(op: Op, t: Expr) {
    IsSpine(op, t) ==> LeafSet(op, t.l) !! LeafSet(op, t.r) && Once(op, t.l) && Once(op, t.r)
  }

  /** What has been taken out of the operands `ts`: nothing but what is equal to one of `xs`. */
  ghost predicate Lost(ts: set<Expr>, rest: set<Expr>, xs: set<Expr>) {
    forall b | b in ts && b !in rest :: exists a :: a in xs && ExprEq(a, b)
  }

  lemma {:induction false} ExtractNeutral(op: Op, common: Option<Expr>, t: Expr)
    ensures ExtractEq(op, common, Neutral(op), t).e1 == Neutral(op)
    ensures ExtractEq(op, common, Neutral(op), t).e2 == t
    ensures common.Some? ==> ExtractEq(op, common, Neutral(op), t).common.Some?
    decreases t
  {
    if IsSpine(op, t) {
      var a := ExtractEq(op, common, Neutral(op), t.l);
      ExtractNeutral(op, common, t.l);
      ExtractNeutral(op, a.common, t.r);
    } else if ExprEq(Neutral(op), t) {
      EqualsConstant(Neutral(op), t);
    }
  }

  /** An operand that occurs is taken out. */
  lemma {:induction false} ExtractLeaf(op: Op, common: Option<Expr>, a: Expr, t: Expr)
    requires !IsSpine(op, a)
    ensures a in LeafSet(op, t) ==> ExtractEq(op, common, a, t).e1 == Neutral(op)
    ensures Lost(LeafSet(op, t), LeafSet(op, ExtractEq(op, common, a, t).e2), {a})
    ensures ExtractEq(op, common, a, t).e1 in {a, Neutral(op)}
    ensures common.Some? || a in LeafSet(op, t) || ExtractEq(op, common, a, t).e1 != a ==>
              ExtractEq(op, common, a, t).common.Some?
    decreases t
  {
    if IsSpine(op, t) {
      var x := ExtractEq(op, common, a, t.l);
      ExtractLeaf(op, common, a, t.l);
      if x.e1 != a {
        ExtractNeutral(op, x.common, t.r);
      } else {
        ExtractLeaf(op, x.common, a, t.r);
      }
    } else {
      ExprEqReflexive(a);
      assert a in {a};
    }
  }

  predicate AllNeutral(op: Op, e: Expr) {
    if IsSpine(op, e) then AllNeutral(op, e.l) && AllNeutral(op, e.r) else e == Neutral(op)
  }

  lemma {:induction false} AllNeutralPrunes(op: Op, e: Expr)
    requires AllNeutral(op, e)
    ensures EliminateYn(e) == Neutral(op)
  {
    if IsSpine(op, e) {
      AllNeutralPrunes(op, e.l);
      AllNeutralPrunes(op, e.r);
    }
  }

  /** Different operands that all occur are all taken out. */
  lemma {:induction false} ExtractAll(op: Op, common: Option<Expr>, n: Expr, t: Expr, all: set<Expr>)
    requires Once(op, n) && LeafSet(op, n) <= LeafSet(op, t) && LeafSet(op, n) <= all
    requires forall a, b {:trigger ExprEq(a, b)} | a in all && b in all && ExprEq(a, b) :: a == b
    ensures var x := ExtractEq(op, common, n, t);
            && AllNeutral(op, x.e1) && x.common.Some? && Lost(LeafSet(op, t), LeafSet(op, x.e2), LeafSet(op, n))
    decreases n
  {
    if IsSpine(op, n) {
      var a := ExtractEq(op, common, n.l, t);
      ExtractAll(op, common, n.l, t, all);
      forall b | b in LeafSet(op, n.r) ensures b in LeafSet(op, a.e2) {
        assert b !in LeafSet(op, n.l);
      }
      ExtractAll(op, a.common, n.r, a.e2, all);
    } else {
      ExtractLeaf(op, common, n, t);
    }
  }

  /** An operand is opposed if all the operands of its negation, being different, are operands. */
  lemma OpposedIfAll(op: Op, e: Expr, t: Expr)
    requires e.Bin? && e.op == Dual(op) && Distinct(op, t)
    requires Once(op, Transform(Not(e))) && LeafSet(op, Transform(Not(e))) <= LeafSet(op, t)
    ensures Opposed(op, e, t)
  {
    var n := Transform(Not(e));
    ExtractAll(op, None, n, t, LeafSet(op, t));
    AllNeutralPrunes(op, ExtractEq(op, None, n, t).e1);
  }

  lemma {:induction false} LeavesBelow(op: Op, t: Expr, v: Path)
    requires OnSpine(op, t, v) && Within(t, v)
    ensures LeafSet(op, Sub(t, v)) <= LeafSet(op, t)
    decreases |v|
  {
    if v != [] { LeavesBelow(op, Child(t, v[0]), v[1..]); }
  }

  /** The operands of the negation of an operand, all of them different, are all operands. */
  predicate IsOpposite(op: Op, e: Expr, t: Expr) {
    e.Bin? && Once(op, Transform(Not(e))) && LeafSet(op, Transform(Not(e))) <= LeafSet(op, t)
  }

  lemma {:induction false} NothingOpposed(t: Expr, v: Path, w: Path, x: Path)
    requires t.Bin? && Quiet1(t) && Quiet2(t) && OnSpine(t.op, t, v) && Within(t, v) && Within(Sub(t, v), w)
    requires var f := Sub(Sub(t, v), w); f.Bin? && AtLeaf(f.op, f, x)
    ensures var f := Sub(Sub(t, v), w); Within(f, x) && !IsOpposite(f.op, Sub(f, x), f)
    decreases Size(t), |w|
  {
    var op, s := t.op, Sub(t, v);
    OnSpineFacts(op, t, v);
    if IsSpine(op, s) {
      if w == [] {
        LeafBelow(op, t, v, x);
        OnSpineFactsAtLeaf(op, s, x);
        QuietInside2(op, t, v + x);
        QuietIsDistinct(op, t);
        LeavesBelow(op, t, v);
        if IsOpposite(op, Sub(s, x), s) { OpposedIfAll(op, Sub(s, x), t); }
      } else {
        Descend(t, v, w[0]);
        assert w[0] == L || w[0] == R;
        NothingOpposed(t, v + [w[0]], w[1..], x);
      }
    } else {
      QuietInside1(op, t, v);
      QuietInside2(op, t, v);
      NothingOpposed(s, [], w, x);
    }
  }

  /** Nor does expr_eliminate_dups leave an operand of the other kind all of whose negated operands
      stand beside it. */
  lemma EliminateDupsLeavesNoOpposite(e: Expr, w: Path, x: Path)
    requires Within(EliminateDups(e), w)
    requires var f := Sub(EliminateDups(e), w); f.Bin? && AtLeaf(f.op, f, x)
    ensures var f := Sub(EliminateDups(e), w); Within(f, x) && !IsOpposite(f.op, Sub(f, x), f)
  {
    EliminateDupsQuiet(e);
    assert EliminateDups(e).Bin?;
    NothingOpposed(EliminateDups(e), [], w, x);
  }

  lemma TwoLeaves(op: Op, l: Expr, r: Expr)
    requires !IsSpine(op, l) && !IsSpine(op, r) && l != r
    ensures Once(op, Bin(op, l, r)) && LeafSet(op, Bin(op, l, r)) == {l, r}
  {
    assert LeafSet(op, l) == {l} && LeafSet(op, r) == {r};
    assert Once(op, l) && Once(op, r);
  }

  lemma NegatedPair(op: Op, a: Sym, b: Sym)
    requires !IsYmn(a) && !IsYmn(b)
    ensures Transform(Not(Bin(Dual(op), Symbol(a), Symbol(b)))) == Bin(op, Not(Symbol(a)), Not(Symbol(b)))
  {
    var e, n := Bin(Dual(op), Symbol(a), Symbol(b)), Bin(op, Not(Symbol(a)), Not(Symbol(b)));
    assert Transform(Symbol(a)) == Symbol(a) && Transform(Symbol(b)) == Symbol(b);
    assert Transform(Not(Symbol(a))) == Not(Symbol(a)) && Transform(Not(Symbol(b))) == Not(Symbol(b));
    assert Transform(e) == e && PushNot(Dual(op), Symbol(a), Symbol(b)) == n && Transform(n) == n;
  }

  /** With symbols: in what it returns a || b does not stand beside !a and !b below "and", nor
      a && b below "or". */
  lemma NoOppositePair(e: Expr, w: Path, x: Path, a: Sym, b: Sym)
    requires Within(EliminateDups(e), w) && a != b && !IsYmn(a) && !IsYmn(b)
    requires var f := Sub(EliminateDups(e), w);
             f.Bin? && AtLeaf(f.op, f, x) && Within(f, x) && Sub(f, x) == Bin(Dual(f.op), Symbol(a), Symbol(b))
    ensures var f := Sub(EliminateDups(e), w);
            !({Not(Symbol(a)), Not(Symbol(b))} <= LeafSet(f.op, f))
  {
    var f := Sub(EliminateDups(e), w);
    EliminateDupsLeavesNoOpposite(e, w, x);
    NegatedPair(f.op, a, b);
    TwoLeaves(f.op, Not(Symbol(a)), Not(Symbol(b)));
  }
}
