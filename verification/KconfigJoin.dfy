/** Joining two operands of an "or" or an "and" into one: expr_join_or and expr_join_and
    (scripts/kconfig/expr.c). */
module KconfigJoin {
  import opened Basics
  import opened KconfigExpr
  import opened KconfigEq

  /** The symbol a left operand is about; a negation must be of a comparison or a symbol. */
  function LeftSubject(e: Expr): Option<Sym> {
    match e
    case Symbol(s) => Some(s)
    case Equal(a, _) => Some(a)
    case Unequal(a, _) => Some(a)
    case Not(Symbol(s)) => Some(s)
    case Not(Equal(a, _)) => Some(a)
    case Not(Unequal(a, _)) => Some(a)
    case _ => None
  }

  /** The symbol a right operand is about; a negation must be of a symbol. */
  function RightSubject(e: Expr): Option<Sym> {
    match e
    case Symbol(s) => Some(s)
    case Equal(a, _) => Some(a)
    case Unequal(a, _) => Some(a)
    case Not(Symbol(s)) => Some(s)
    case _ => None
  }

  /** The symbol both operands are about, if it is one bool or tristate symbol. */
  function Subject(e1: Expr, e2: Expr): Option<Sym> {
    if LeftSubject(e1).Some? && LeftSubject(e1) == RightSubject(e2)
       && LeftSubject(e1).value.Type() in {Boolean, Tristate}
    then LeftSubject(e1) else None
  }

  /** The operands compare with `a` and `b`, in some order. */
  predicate Against(x: Sym, y: Sym, a: Sym, b: Sym) {
    (x == a && y == b) || (x == b && y == a)
  }

  /** expr_join_or */
  function JoinOr(e1: Expr, e2: Expr): Option<Expr> {
    if ExprEq(e1, e2) then Some(e1)
    else if Subject(e1, e2).None? then None
    else
      var s := Subject(e1, e2).value;
      if s.Type() == Tristate && e1.Equal? && e2.Equal? && Against(e1.right, e2.right, SYM_YES, SYM_MOD)
      then Some(Unequal(s, SYM_NO))
      else if s.Type() == Tristate && e1.Equal? && e2.Equal? && Against(e1.right, e2.right, SYM_YES, SYM_NO)
      then Some(Unequal(s, SYM_MOD))
      else if s.Type() == Tristate && e1.Equal? && e2.Equal? && Against(e1.right, e2.right, SYM_MOD, SYM_NO)
      then Some(Unequal(s, SYM_YES))
      else if s.Type() == Boolean && ((e1.Not? && e1.e.Symbol? && e2.Symbol?)
                                      || (e2.Not? && e2.e.Symbol? && e1.Symbol?))
      then Some(Symbol(SYM_YES))
      else None
  }

  /** One operand is the symbol itself and the other compares it, in some order. */
  predicate PlainAndEqual(e1: Expr, e2: Expr, c: Sym) {
    (e1.Symbol? && e2.Equal? && e2.right == c) || (e2.Symbol? && e1.Equal? && e1.right == c)
  }

  predicate PlainAndUnequal(e1: Expr, e2: Expr, c: Sym) {
    (e1.Symbol? && e2.Unequal? && e2.right == c) || (e2.Symbol? && e1.Unequal? && e1.right == c)
  }

  /** expr_join_and */
  function JoinAnd(e1: Expr, e2: Expr): Option<Expr> {
    if ExprEq(e1, e2) then Some(e1)
    else if Subject(e1, e2).None? then None
    else
      var s := Subject(e1, e2).value;
      if PlainAndEqual(e1, e2, SYM_YES) then Some(Equal(s, SYM_YES))
      else if PlainAndUnequal(e1, e2, SYM_NO) then Some(Symbol(s))
      else if PlainAndUnequal(e1, e2, SYM_MOD) then Some(Equal(s, SYM_YES))
      else if s.Type() != Tristate then None
      else if e1.Equal? && e2.Unequal? && e1.right.Const? && e2.right.Const?
      then Some(if e1.right != e2.right then Equal(s, e1.right) else Symbol(SYM_NO))
      else if e1.Unequal? && e2.Equal? && e1.right.Const? && e2.right.Const?
      then Some(if e1.right != e2.right then Equal(s, e2.right) else Symbol(SYM_NO))
      else if e1.Unequal? && e2.Unequal? && Against(e1.right, e2.right, SYM_YES, SYM_NO)
      then Some(Equal(s, SYM_MOD))
      else if e1.Unequal? && e2.Unequal? && Against(e1.right, e2.right, SYM_YES, SYM_MOD)
      then Some(Equal(s, SYM_NO))
      else if e1.Unequal? && e2.Unequal? && Against(e1.right, e2.right, SYM_MOD, SYM_NO)
      then Some(Equal(s, SYM_YES))
      else None
  }

  function Join(op: Op, e1: Expr, e2: Expr): Option<Expr> {
    if op == Or then JoinOr(e1, e2) else JoinAnd(e1, e2)
  }

  /** What a proper valuation fixes about a bool or tristate symbol and the constants. */
  lemma ProperFacts(v: Valuation, s: Sym)
    requires Proper(v)
    ensures v.tri(SYM_YES) == YES && v.tri(SYM_MOD) == MOD && v.tri(SYM_NO) == NO
    ensures v.str(SYM_YES) == "y" && v.str(SYM_MOD) == "m" && v.str(SYM_NO) == "n"
    ensures s.Type() == Boolean ==> v.tri(s) != MOD
    ensures s.Type() in {Boolean, Tristate} ==> v.str(s) == TriString(v.tri(s))
    ensures s.Const? ==> v.str(s) == s.name
    ensures "y" != "m" && "m" != "n" && "y" != "n"
  {
    assert "y"[0] != "m"[0] && "m"[0] != "n"[0] && "y"[0] != "n"[0];
  }

  lemma JoinOrSound(e1: Expr, e2: Expr, v: Valuation)
    requires Proper(v) && JoinOr(e1, e2).Some?
    ensures Value(JoinOr(e1, e2).value, v) == Max(Value(e1, v), Value(e2, v))
  {
    if ExprEq(e1, e2) {
      ExprEqSoundFor(e1, e2, v);
    } else {
      ProperFacts(v, Subject(e1, e2).value);
    }
  }

  lemma JoinAndSound(e1: Expr, e2: Expr, v: Valuation)
    requires Proper(v) && JoinAnd(e1, e2).Some?
    ensures Value(JoinAnd(e1, e2).value, v) == Min(Value(e1, v), Value(e2, v))
  {
    if ExprEq(e1, e2) {
      ExprEqSoundFor(e1, e2, v);
    } else {
      ProperFacts(v, Subject(e1, e2).value);
      if e1.Equal? || e1.Unequal? { ProperFacts(v, e1.right); }
      if e2.Equal? || e2.Unequal? { ProperFacts(v, e2.right); }
    }
  }

  /** Every join is exact in all three values. */
  lemma JoinSound(op: Op, e1: Expr, e2: Expr, v: Valuation)
    requires Proper(v) && Join(op, e1, e2).Some?
    ensures Value(Join(op, e1, e2).value, v) == Combine(op, Value(e1, v), Value(e2, v))
  {
    if op == Or { JoinOrSound(e1, e2, v); } else { JoinAndSound(e1, e2, v); }
  }

  /** A join is smaller than its operands together, and no new node of the joined kind. */
  lemma JoinSmaller(op: Op, e1: Expr, e2: Expr)
    requires Join(op, e1, e2).Some?
    ensures Size(Join(op, e1, e2).value) < Size(e1) + Size(e2)
    ensures !IsSpine(op, e1) ==> !IsSpine(op, Join(op, e1, e2).value)
  {
  }
}
