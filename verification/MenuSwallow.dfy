/** The test by which menu_finalize (scripts/kconfig/menu.c) takes a following entry for a
    child of a symbol's entry, and why a child it is. */
module MenuSwallow {
  import opened Basics
  import opened KconfigExpr
  import opened KconfigEq
  import opened KconfigJoin
  import opened KconfigTransform
  import opened KconfigCancel
  import opened KconfigDups
  import opened KconfigDupsMod

  /** The condition "this is not n", simplified; no condition at all is always met. */
  function Condition(dep: Option<Expr>): Expr {
    var c := if dep.None? then Not(Symbol(SYM_NO)) else TransCompare(dep.value, false, SYM_NO);
    EliminateDups(Transform(c))
  }

  /** Is the entry with the condition `dep` a child of the entry of `sym`, whose prompt has the
      condition `base`? */
  predicate Swallows(sym: Sym, base: Option<Expr>, dep: Option<Expr>) {
    && dep.Some? && Contains(dep.value, sym)
    && (Depends(dep.value, sym)
        || EliminateEq(Condition(dep), Condition(base)).e2 == Symbol(SYM_YES))
  }

  /** The symbol itself, or a comparison that is n where the symbol is. */
  predicate Demands(e: Expr, sym: Sym) {
    e in {Symbol(sym), Equal(sym, SYM_YES), Equal(sym, SYM_MOD), Unequal(sym, SYM_NO)}
  }

  lemma {:induction false} DependsIff(e: Expr, sym: Sym)
    ensures Depends(e, sym) <==> exists a :: a in LeafSet(And, e) && Demands(a, sym)
    ensures Depends(e, sym) ==> Contains(e, sym)
  {
    if IsSpine(And, e) {
      DependsIff(e.l, sym);
      DependsIff(e.r, sym);
      if a :| a in LeafSet(And, e.l) && Demands(a, sym) { assert a in LeafSet(And, e); }
      if a :| a in LeafSet(And, e.r) && Demands(a, sym) { assert a in LeafSet(And, e); }
      if a :| a in LeafSet(And, e) && Demands(a, sym) { assert a in LeafSet(And, e.l) || a in LeafSet(And, e.r); }
    } else {
      assert e in LeafSet(And, e);
    }
  }

  /** An entry that demands the symbol in one operand of a conjunction is swallowed, whatever the
      condition of the prompt is. */
  lemma DemandIsSwallowed(sym: Sym, base: Option<Expr>, dep: Expr, a: Expr)
    requires a in LeafSet(And, dep) && Demands(a, sym)
    ensures Swallows(sym, base, Some(dep))
  {
    DependsIff(dep, sym);
  }

  lemma AlwaysCondition()
    ensures Condition(None) == Symbol(SYM_YES)
  {
    assert SYM_NO != SYM_YES && SYM_NO != SYM_MOD by { assert "n"[0] != "y"[0] && "n"[0] != "m"[0]; }
    assert Transform(Symbol(SYM_NO)) == Symbol(SYM_NO);
  }

  /** A constant on its own is not cancelled. */
  lemma {:induction false} ConstantStays(op: Op, e: Expr, c: Expr)
    requires IsYn(c)
    ensures EliminateEqAt(op, e, c).e2 == c
    decreases e
  {
    if IsSpine(op, e) {
      ConstantStays(op, e.l, c);
      ConstantStays(op, e.r, c);
    } else if ExprEq(e, c) {
      EqualsConstant(e, c);
    }
  }

  /** Under a prompt without a condition exactly the entries that mention the symbol are
      swallowed. */
  lemma UnderFreePrompt(sym: Sym, dep: Option<Expr>)
    ensures Swallows(sym, None, dep) <==> In(dep, sym)
  {
    AlwaysCondition();
    if dep.Some? {
      var c := Condition(dep);
      if c.Bin? { ConstantStays(c.op, c, Symbol(SYM_YES)); }
    }
  }

  lemma {:induction false} LeafSecond(op: Op, e: Expr, b: Expr)
    requires !IsSpine(op, b)
    ensures EliminateEqAt(op, e, b).e2 in {b, Neutral(op)}
    decreases e
  {
    if IsSpine(op, e) {
      LeafSecond(op, e.l, b);
      LeafSecond(op, e.r, EliminateEqAt(op, e.l, b).e2);
    }
  }

  /** An operand cancels against a spine it is a leaf of. */
  lemma {:induction false} LeafAgainst(op: Op, e: Expr, b: Expr)
    requires b in LeafSet(op, e) && !IsSpine(op, b) && !IsYn(b)
    ensures EliminateEqAt(op, e, b).e2 == Neutral(op)
    decreases e
  {
    if IsSpine(op, e) {
      LeafSecond(op, e.l, b);
      if b in LeafSet(op, e.l) { LeafAgainst(op, e.l, b); }
      if EliminateEqAt(op, e.l, b).e2 == b {
        LeafAgainst(op, e.r, b);
      } else {
        ConstantStays(op, e.r, Neutral(op));
      }
    } else {
      ExprEqReflexive(b);
    }
  }

  /** An entry that mentions the symbol, and whose simplified condition is that of the prompt and
      more, is swallowed. */
  lemma NarrowerIsSwallowed(sym: Sym, base: Option<Expr>, dep: Expr)
    requires Contains(dep, sym) && IsSpine(And, Condition(Some(dep)))
    requires Condition(base) in LeafSet(And, Condition(Some(dep)))
    requires !IsSpine(And, Condition(base)) && !IsYn(Condition(base))
    ensures Swallows(sym, base, Some(dep))
  {
    LeafAgainst(And, Condition(Some(dep)), Condition(base));
  }

  /** What the simplified condition answers, in any valuation: it takes m for y. */
  lemma ConditionRaises(dep: Expr, v: Valuation)
    requires Proper(v) && Logical(dep)
    ensures Value(Condition(Some(dep)), v) == Reads(Value(dep, Raised(v)) != NO)
  {
    var c := TransCompare(dep, false, SYM_NO);
    TransCompareRaises(dep, false, v);
    TransformSameFor(c, v);
    EliminateDupsKeeps(Transform(c), v);
  }

  /** What is not n with every m raised to y is not n; without a negated m, the other way round
      as well. */
  lemma RaisedVisible(e: Expr, v: Valuation)
    requires Proper(v) && Logical(e)
    ensures Value(e, Raised(v)) != NO ==> Value(e, v) != NO
    ensures NoNegatedMod(e, false, v) && Value(e, v) != NO ==> Value(e, Raised(v)) != NO
  {
    TransCompareRaises(e, false, v);
    TransCompareBounds(e, false, v);
    TransCompareNo(e, false, v);
  }

  /** A swallowed entry whose condition is not n, and would not be with every m raised to y, is
      visible only where the symbol is set, or where the prompt of the symbol's entry is visible
      and would be as well. */
  lemma SwallowedIsChild(sym: Sym, base: Option<Expr>, dep: Option<Expr>, v: Valuation)
    requires Proper(v) && Swallows(sym, base, dep) && sym.Type() in {Boolean, Tristate}
    requires Logical(dep.value) && (base.Some? ==> Logical(base.value))
    requires Value(dep.value, Raised(v)) != NO
    ensures || v.tri(sym) != NO || base.None?
            || (Value(base.value, v) != NO && Value(base.value, Raised(v)) != NO)
  {
    if Depends(dep.value, sym) {
      RaisedVisible(dep.value, v);
      if v.tri(sym) == NO { DependsForces(dep.value, sym, v); }
    } else if base.Some? {
      ConditionRaises(dep.value, v);
      ConditionRaises(base.value, v);
      YesResidueImplies(Condition(dep), Condition(base), v);
      RaisedVisible(base.value, v);
    }
  }

  /** So without a negated m a swallowed entry can only be visible where the symbol is set, or
      where the prompt of the symbol's entry is visible. */
  lemma SwallowedWithoutNegatedMod(sym: Sym, base: Option<Expr>, dep: Option<Expr>, v: Valuation)
    requires Proper(v) && Swallows(sym, base, dep) && sym.Type() in {Boolean, Tristate}
    requires Logical(dep.value) && NoNegatedMod(dep.value, false, v) && (base.Some? ==> Logical(base.value))
    requires Value(dep.value, v) != NO
    ensures v.tri(sym) != NO || base.None? || Value(base.value, v) != NO
  {
    RaisedVisible(dep.value, v);
    SwallowedIsChild(sym, base, dep, v);
  }

  // ------------------------------------------------------------------ a negated m

  /** !a && !o, and the same with a compared with n. */
  function Entry(a: Sym, o: Sym): Expr { Bin(And, Not(Symbol(a)), Not(Symbol(o))) }
  function Prompt(a: Sym, o: Sym): Expr { Bin(And, Equal(a, SYM_NO), Not(Symbol(o))) }

  lemma Compared(a: Sym, o: Sym)
    ensures TransCompare(Entry(a, o), false, SYM_NO) == Not(Bin(Or, Unequal(a, SYM_NO), Unequal(o, SYM_NO)))
    ensures TransCompare(Prompt(a, o), false, SYM_NO)
         == Not(Bin(Or, Not(Equal(a, SYM_NO)), Unequal(o, SYM_NO)))
  {
    assert TransCompare(Not(Symbol(a)), true, SYM_NO) == Unequal(a, SYM_NO);
    assert TransCompare(Not(Symbol(o)), true, SYM_NO) == Unequal(o, SYM_NO);
  }

  lemma Transformed(a: Sym, o: Sym)
    requires a.Type() == Tristate && o.Type() == Boolean
    ensures Transform(Not(Bin(Or, Unequal(a, SYM_NO), Unequal(o, SYM_NO)))) == Prompt(a, o)
    ensures Transform(Not(Bin(Or, Not(Equal(a, SYM_NO)), Unequal(o, SYM_NO)))) == Prompt(a, o)
  {
    var x, n := Unequal(a, SYM_NO), Equal(a, SYM_NO);
    assert Transform(n) == n && Transform(x) == x;
    assert Transform(Not(n)) == x && Transform(Not(x)) == n;
    assert TransformUnequal(o, SYM_NO) == Symbol(o);
    assert Transform(Unequal(o, SYM_NO)) == Symbol(o);
    assert Transform(Not(Symbol(o))) == Not(Symbol(o));
    assert Transform(PushNot(Or, x, Symbol(o))) == Prompt(a, o);
    assert Transform(Bin(Or, x, Unequal(o, SYM_NO))) == Bin(Or, x, Symbol(o));
    assert Transform(Bin(Or, Not(n), Unequal(o, SYM_NO))) == Bin(Or, x, Symbol(o));
  }

  /** The conditions of the two cannot be told apart. */
  lemma SameConditions(a: Sym, o: Sym)
    requires a.Type() == Tristate && o.Type() == Boolean
    ensures Condition(Some(Entry(a, o))) == Prompt(a, o) == Condition(Some(Prompt(a, o)))
  {
    Compared(a, o);
    Transformed(a, o);
    Dups1Nothing(And, Equal(a, SYM_NO), Not(Symbol(o)));
    Dups2Nothing(And, Equal(a, SYM_NO), Not(Symbol(o)));
    assert Passes(Prompt(a, o)).count == 0;
  }

  /** Cancelled against itself, nothing is left of it. */
  lemma NothingLeft(a: Sym, o: Sym)
    ensures EliminateEq(Prompt(a, o), Prompt(a, o)).e2 == Symbol(SYM_YES)
  {
    var e, y, l, r := Prompt(a, o), Symbol(SYM_YES), Equal(a, SYM_NO), Not(Symbol(o));
    assert ExprEq(Symbol(o), Symbol(o));
    assert ExprEq(r, r) && !ExprEq(y, r) && !ExprEq(r, y);
    assert !IsSpine(And, r) && !IsYn(r) && Neutral(And) == y;
    assert EliminateEqAt(And, r, r) == Pair(y, y, 1);
    assert EliminateEqAt(And, l, l) == Pair(y, y, 1);
    assert EliminateEqAt(And, y, r) == Pair(y, r, 0) && EliminateEqAt(And, r, y) == Pair(r, y, 0);
    assert EliminateEqAt(And, l, e) == Pair(y, Bin(And, y, r), 1);
    assert EliminateEqAt(And, r, Bin(And, y, r)) == Pair(y, Bin(And, y, y), 1);
    assert EliminateEqAt(And, e, e) == Pair(Bin(And, y, y), Bin(And, y, y), 2);
  }

  /** With a negated m the test errs: an entry with the condition !a && !o is swallowed by that of
      the bool o, whose prompt needs a to be n, and is visible when a is m and o is n. */
  lemma NegatedModEscapesFor(a: Sym, o: Sym, v: Valuation)
    requires a.Type() == Tristate && o.Type() == Boolean
    requires Proper(v) && v.tri(a) == MOD && v.tri(o) == NO
    ensures Swallows(o, Some(Prompt(a, o)), Some(Entry(a, o)))
    ensures Value(Entry(a, o), v) == MOD && Value(Prompt(a, o), v) == NO
  {
    SameConditions(a, o);
    NothingLeft(a, o);
    assert Contains(Not(Symbol(o)), o);
    ProperFacts(v, a);
    assert Value(Not(Symbol(a)), v) == MOD && Value(Not(Symbol(o)), v) == YES;
  }

  const OWNER := Config("S", Boolean)

  lemma NegatedModEscapes()
    ensures Proper(MODS) && MODS.tri(OWNER) == NO && Swallows(OWNER, Some(Prompt(A, OWNER)), Some(Entry(A, OWNER)))
    ensures Value(Entry(A, OWNER), MODS) == MOD && Value(Prompt(A, OWNER), MODS) == NO
  {
    ModsProper();
    NegatedModEscapesFor(A, OWNER, MODS);
  }
}
