/** Rewriting expressions into a normal form, and comparing them with a constant:
    expr_transform, expr_trans_bool, expr_trans_compare, expr_contains_symbol and
    expr_depends_symbol (scripts/kconfig/expr.c). */
module KconfigTransform {
  import opened Basics
  import opened KconfigExpr
  import opened KconfigJoin

  // ---------------------------------------------------------------- expr_transform

  /** Negations weigh double, so pushing one inwards loses weight. */
  function Weight(e: Expr): nat {
    match e
    case Symbol(_) => 1
    case Equal(_, _) => 2
    case Unequal(_, _) => 2
    case Not(x) => 2 * Weight(x)
    case Bin(_, a, b) => 1 + Weight(a) + Weight(b)
  }

  predicate IsYmn(s: Sym) { s == SYM_YES || s == SYM_MOD || s == SYM_NO }

  function Dual(op: Op): Op { if op == Or then And else Or }

  /** A comparison of a bool symbol with y, m or n needs no comparison. */
  function TransformEqual(a: Sym, b: Sym): Expr {
    if a.Type() != Boolean then Equal(a, b)
    else if b == SYM_NO then Not(Symbol(a))
    else if b == SYM_MOD then Symbol(SYM_NO)
    else if b == SYM_YES then Symbol(a)
    else Equal(a, b)
  }

  function TransformUnequal(a: Sym, b: Sym): Expr {
    if a.Type() != Boolean then Unequal(a, b)
    else if b == SYM_NO then Symbol(a)
    else if b == SYM_MOD then Symbol(SYM_YES)
    else if b == SYM_YES then Not(Symbol(a))
    else Unequal(a, b)
  }

  /** The negation of a joined pair, pushed inwards. */
  function PushNot(op: Op, a: Expr, b: Expr): Expr { Bin(Dual(op), Not(a), Not(b)) }

  lemma PushedIsLighter(op: Op, a: Expr, b: Expr)
    ensures Weight(PushNot(op, a, b)) < Weight(Not(Bin(op, a, b)))
  {
    assert Weight(Not(a)) == 2 * Weight(a) && Weight(Not(b)) == 2 * Weight(b);
  }

  lemma {:induction false} WeightPositive(e: Expr)
    ensures 1 <= Weight(e)
  {
    match e
    case Not(x) => WeightPositive(x);
    case Bin(_, a, b) => WeightPositive(a); WeightPositive(b);
    case _ =>
  }

  /** expr_transform */
  function Transform(e: Expr): (r: Expr)
    ensures 1 <= Weight(r) <= Weight(e)
    decreases Weight(e), Size(e)
  {
    match e
    case Symbol(_) => e
    case Equal(a, b) => TransformEqual(a, b)
    case Unequal(a, b) => TransformUnequal(a, b)
    case Bin(op, a, b) => Bin(op, Transform(a), Transform(b))
    case Not(x) =>
      WeightPositive(x);
      var t := Transform(x);
      match t
      case Not(a) => Transform(a)
      case Equal(a, b) => Unequal(a, b)
      case Unequal(a, b) => Equal(a, b)
      case Bin(op, a, b) => PushedIsLighter(op, a, b); Transform(PushNot(op, a, b))
      case Symbol(s) =>
        if s == SYM_YES then Symbol(SYM_NO)
        else if s == SYM_MOD then Symbol(SYM_MOD)
        else if s == SYM_NO then Symbol(SYM_YES)
        else Not(t)
  }

  lemma ComparisonSame(a: Sym, b: Sym, v: Valuation)
    requires Proper(v)
    ensures Value(TransformEqual(a, b), v) == Value(Equal(a, b), v)
    ensures Value(TransformUnequal(a, b), v) == Value(Unequal(a, b), v)
  {
    ProperFacts(v, a);
  }

  /** expr_transform keeps the value in every valuation, m included. */
  lemma {:induction false} TransformSameFor(e: Expr, v: Valuation)
    requires Proper(v)
    ensures Value(Transform(e), v) == Value(e, v)
    decreases Weight(e), Size(e)
  {
    match e
    case Symbol(_) =>
    case Equal(a, b) => ComparisonSame(a, b, v);
    case Unequal(a, b) => ComparisonSame(a, b, v);
    case Bin(op, a, b) =>
      TransformSameFor(a, v);
      TransformSameFor(b, v);
    case Not(x) =>
      WeightPositive(x);
      TransformSameFor(x, v);
      var t := Transform(x);
      match t
      case Not(a) => WeightPositive(a); TransformSameFor(a, v);
      case Bin(op, a, b) => PushedIsLighter(op, a, b); TransformSameFor(PushNot(op, a, b), v);
      case Symbol(s) => ProperFacts(v, s);
      case _ =>
  }

  /** Negation stands only on symbols other than y, m and n, and no bool symbol is compared
      with one of these. */
  predicate Normal(e: Expr) {
    match e
    case Symbol(_) => true
    case Equal(a, b) => !(a.Type() == Boolean && IsYmn(b))
    case Unequal(a, b) => !(a.Type() == Boolean && IsYmn(b))
    case Not(x) => x.Symbol? && !IsYmn(x.sym)
    case Bin(_, a, b) => Normal(a) && Normal(b)
  }

  lemma {:induction false} TransformNormal(e: Expr)
    ensures Normal(Transform(e))
    decreases Weight(e), Size(e)
  {
    match e
    case Symbol(_) =>
    case Equal(a, b) =>
    case Unequal(a, b) =>
    case Bin(op, a, b) =>
      TransformNormal(a);
      TransformNormal(b);
    case Not(x) =>
      WeightPositive(x);
      TransformNormal(x);
      var t := Transform(x);
      match t
      case Not(a) => WeightPositive(a); TransformNormal(a);
      case Bin(op, a, b) => PushedIsLighter(op, a, b); TransformNormal(PushNot(op, a, b));
      case _ =>
  }

  /** The normal forms are exactly the expressions it leaves alone. */
  lemma {:induction false} TransformFixesNormal(e: Expr)
    ensures Normal(e) <==> Transform(e) == e
  {
    if Transform(e) == e {
      TransformNormal(e);
    }
    if Normal(e) && e.Bin? {
      TransformFixesNormal(e.l);
      TransformFixesNormal(e.r);
    }
  }

  lemma TransformIdempotent(e: Expr)
    ensures Transform(Transform(e)) == Transform(e)
  {
    TransformNormal(e);
    TransformFixesNormal(Transform(e));
  }

  // --------------------------------------------------------------- expr_trans_bool

  /** Comparing a tristate symbol with n for inequality is replaced by the symbol. */
  function TransBool(e: Expr): Expr {
    match e
    case Bin(op, a, b) => Bin(op, TransBool(a), TransBool(b))
    case Not(x) => Not(TransBool(x))
    case Unequal(a, b) => if a.Type() == Tristate && b == SYM_NO then Symbol(a) else e
    case _ => e
  }

  /** On normal forms this may lower y to m, but never to n and never raises: visibility of
      a symbol that is not a tristate, which reads m as y, is unchanged. */
  lemma {:induction false} TransBoolKeepsVisibility(e: Expr, v: Valuation)
    requires Proper(v) && Normal(e)
    ensures Value(TransBool(e), v) <= Value(e, v)
    ensures Value(TransBool(e), v) == NO <==> Value(e, v) == NO
  {
    match e
    case Bin(_, a, b) =>
      TransBoolKeepsVisibility(a, v);
      TransBoolKeepsVisibility(b, v);
    case Unequal(a, _) => ProperFacts(v, a);
    case _ =>
  }

  /** Is a tristate symbol compared with n for inequality anywhere? */
  predicate HasUnequalNo(e: Expr) {
    match e
    case Unequal(a, b) => a.Type() == Tristate && b == SYM_NO
    case Not(x) => HasUnequalNo(x)
    case Bin(_, a, b) => HasUnequalNo(a) || HasUnequalNo(b)
    case _ => false
  }

  /** No such comparison is left, and an expression without one is left alone. */
  lemma {:induction false} TransBoolDropsUnequal(e: Expr)
    ensures !HasUnequalNo(TransBool(e))
    ensures TransBool(e) == e <==> !HasUnequalNo(e)
  {
    match e
    case Not(x) => TransBoolDropsUnequal(x);
    case Bin(_, a, b) =>
      TransBoolDropsUnequal(a);
      TransBoolDropsUnequal(b);
    case _ =>
  }

  // ------------------------------------------------------------ expr_trans_compare

  /** expr_trans_compare against y or n; `eq` is E_EQUAL. */
  function TransCompare(e: Expr, eq: bool, s: Sym): Expr
    requires s == SYM_YES || s == SYM_NO
  {
    match e
    case Bin(op, a, b) =>
      var both := Bin(if s == SYM_YES then op else Dual(op), TransCompare(a, true, s), TransCompare(b, true, s));
      if eq then both else Not(both)
    case Not(x) => TransCompare(x, !eq, s)
    case Symbol(t) => if eq then Equal(t, s) else Unequal(t, s)
    case _ => if eq == (s == SYM_YES) then e else Not(e)
  }

  /** Symbols standing alone are bools, tristates, y, m or n. */
  predicate Logical(e: Expr) {
    match e
    case Symbol(s) => IsYmn(s) || s.Type() in {Boolean, Tristate}
    case Not(x) => Logical(x)
    case Bin(_, a, b) => Logical(a) && Logical(b)
    case _ => true
  }

  /** No symbol standing alone is m. */
  predicate TwoValued(e: Expr, v: Valuation) {
    match e
    case Symbol(s) => v.tri(s) != MOD
    case Not(x) => TwoValued(x, v)
    case Bin(_, a, b) => TwoValued(a, v) && TwoValued(b, v)
    case _ => true
  }

  /** No symbol standing alone under an odd number of negations is m; `neg` says whether there
      is an odd number of them above the expression. */
  predicate NoNegatedMod(e: Expr, neg: bool, v: Valuation) {
    match e
    case Symbol(s) => neg ==> v.tri(s) != MOD
    case Not(x) => NoNegatedMod(x, !neg, v)
    case Bin(_, a, b) => NoNegatedMod(a, neg, v) && NoNegatedMod(b, neg, v)
    case _ => true
  }

  function Reads(b: bool): Tri { if b then YES else NO }

  /** Compared with n, an expression in which nothing negated is m gives the answer asked for;
      one in which all that is m is negated is compared with y instead. */
  lemma {:induction false} TransCompareNo(e: Expr, eq: bool, v: Valuation)
    requires Proper(v) && Logical(e)
    ensures NoNegatedMod(e, false, v) ==>
      Value(TransCompare(e, eq, SYM_NO), v) == Reads((Value(e, v) == NO) == eq)
    ensures NoNegatedMod(e, true, v) ==>
      Value(TransCompare(e, eq, SYM_NO), v) == Reads((Value(e, v) != YES) == eq)
  {
    match e
    case Symbol(s) => ProperFacts(v, s);
    case Not(x) => TransCompareNo(x, !eq, v);
    case Bin(_, a, b) =>
      TransCompareNo(a, true, v);
      TransCompareNo(b, true, v);
    case _ =>
  }

  /** In any valuation a yes to "not n" means not n, and a no means not y. */
  lemma {:induction false} TransCompareBounds(e: Expr, eq: bool, v: Valuation)
    requires Proper(v) && Logical(e)
    ensures (Value(TransCompare(e, eq, SYM_NO), v) == YES) != eq ==> Value(e, v) != NO
    ensures (Value(TransCompare(e, eq, SYM_NO), v) == YES) == eq ==> Value(e, v) != YES
    ensures Value(TransCompare(e, eq, SYM_NO), v) != MOD
  {
    match e
    case Symbol(s) => ProperFacts(v, s);
    case Not(x) => TransCompareBounds(x, !eq, v);
    case Bin(_, a, b) =>
      TransCompareBounds(a, true, v);
      TransCompareBounds(b, true, v);
    case _ =>
  }

  /** The valuation in which every symbol standing alone that is m is y instead. */
  function Raised(v: Valuation): Valuation {
    Valuation(s => if v.tri(s) == NO then NO else YES, v.str)
  }

  /** What the comparison with n answers in any valuation: it takes m for y.  So the answer is
      the one asked for exactly if that makes no difference to whether the expression is n. */
  lemma {:induction false} TransCompareRaises(e: Expr, eq: bool, v: Valuation)
    requires Proper(v) && Logical(e)
    ensures Value(e, Raised(v)) != MOD
    ensures Value(TransCompare(e, eq, SYM_NO), v) == Reads((Value(e, Raised(v)) == NO) == eq)
  {
    match e
    case Symbol(s) => ProperFacts(v, s);
    case Not(x) => TransCompareRaises(x, !eq, v);
    case Bin(_, a, b) =>
      TransCompareRaises(a, true, v);
      TransCompareRaises(b, true, v);
    case _ =>
  }

  /** The valuation in which every symbol standing alone that is m is n instead. */
  function Lowered(v: Valuation): Valuation {
    Valuation(s => if v.tri(s) == YES then YES else NO, v.str)
  }

  /** What the comparison with y answers in any valuation: it takes m for n. */
  lemma {:induction false} TransCompareLowers(e: Expr, eq: bool, v: Valuation)
    requires Proper(v) && Logical(e)
    ensures Value(e, Lowered(v)) != MOD
    ensures Value(TransCompare(e, eq, SYM_YES), v) == Reads((Value(e, Lowered(v)) == YES) == eq)
  {
    match e
    case Symbol(s) => ProperFacts(v, s);
    case Not(x) => TransCompareLowers(x, !eq, v);
    case Bin(_, a, b) =>
      TransCompareLowers(a, true, v);
      TransCompareLowers(b, true, v);
    case _ =>
  }

  // ------------------------------------- expr_contains_symbol, expr_depends_symbol

  predicate Contains(e: Expr, s: Sym) {
    match e
    case Symbol(t) => t == s
    case Equal(a, b) => a == s || b == s
    case Unequal(a, b) => a == s || b == s
    case Not(x) => Contains(x, s)
    case Bin(_, a, b) => Contains(a, s) || Contains(b, s)
  }

  predicate In(e: Option<Expr>, s: Sym) { e.Some? && Contains(e.value, s) }

  predicate Depends(e: Expr, s: Sym) {
    match e
    case Bin(And, a, b) => Depends(a, s) || Depends(b, s)
    case Symbol(t) => t == s
    case Equal(a, b) => a == s && (b == SYM_YES || b == SYM_MOD)
    case Unequal(a, b) => a == s && b == SYM_NO
    case _ => false
  }

  /** The value depends on no symbol but those the expression contains. */
  lemma {:induction false} ContainsAll(e: Expr, v: Valuation, w: Valuation)
    requires forall s | Contains(e, s) :: v.tri(s) == w.tri(s) && v.str(s) == w.str(s)
    ensures Value(e, v) == Value(e, w)
  {
    match e
    case Symbol(s) => assert Contains(e, s);
    case Equal(a, b) => assert Contains(e, a) && Contains(e, b);
    case Unequal(a, b) => assert Contains(e, a) && Contains(e, b);
    case Not(x) => ContainsAll(x, v, w);
    case Bin(_, a, b) => ContainsAll(a, v, w); ContainsAll(b, v, w);
  }

  /** An expression that depends on a bool or tristate symbol is n whenever the symbol is. */
  lemma {:induction false} DependsForces(e: Expr, s: Sym, v: Valuation)
    requires Proper(v) && Depends(e, s) && s.Type() in {Boolean, Tristate} && v.tri(s) == NO
    ensures Value(e, v) == NO && Contains(e, s)
  {
    ProperFacts(v, s);
    if e.Bin? {
      if Depends(e.l, s) {
        DependsForces(e.l, s, v);
      } else {
        DependsForces(e.r, s, v);
      }
    }
  }
}
