/** Kconfig's dependency expressions (scripts/kconfig/expr.h, expr.c): their syntax, the
    three-valued logic that gives them meaning, and the pruning of constants. */
module KconfigExpr {

  /** no < mod < yes. */
  type Tri = t: int | 0 <= t <= 2

  const NO: Tri := 0
  const MOD: Tri := 1
  const YES: Tri := 2

  function Max(a: Tri, b: Tri): Tri { if a > b then a else b }
  function Min(a: Tri, b: Tri): Tri { if a < b then a else b }

  datatype SymType = Unknown | Boolean | Tristate | Integer | Hex | Text | OtherType

  /** A symbol is a constant, of which there is one per string, or a config symbol. */
  datatype Sym = Const(name: string) | Config(name: string, ty: SymType)
  {
    function Type(): SymType { if Config? then ty else Unknown }
  }

  const SYM_YES := Const("y")
  const SYM_MOD := Const("m")
  const SYM_NO := Const("n")

  datatype Op = And | Or

  datatype Expr =
    | Symbol(sym: Sym)
    | Equal(left: Sym, right: Sym)
    | Unequal(left: Sym, right: Sym)
    | Not(e: Expr)
    | Bin(op: Op, l: Expr, r: Expr)

  // ----------------------------------------------------------------------- meaning

  /** Values of all symbols: as a tristate and as the string it is compared by. */
  datatype Valuation = Valuation(tri: Sym -> Tri, str: Sym -> string)

  function TriString(t: Tri): string {
    if t == NO then "n" else if t == MOD then "m" else "y"
  }

  /** Constants stand for themselves, a bool is never m, and a bool or tristate symbol is
      compared by its own value. */
  ghost predicate Proper(v: Valuation) {
    forall s: Sym {:trigger v.tri(s)} {:trigger v.str(s)} ::
      && (s.Const? ==> v.str(s) == s.name)
      && (s == SYM_YES ==> v.tri(s) == YES)
      && (s == SYM_MOD ==> v.tri(s) == MOD)
      && (s == SYM_NO ==> v.tri(s) == NO)
      && (s.Type() == Boolean ==> v.tri(s) != MOD)
      && (s.Type() == Boolean || s.Type() == Tristate ==> v.str(s) == TriString(v.tri(s)))
  }

  function Combine(op: Op, a: Tri, b: Tri): Tri {
    if op == Or then Max(a, b) else Min(a, b)
  }

  /** expr_calc_value */
  function Value(e: Expr, v: Valuation): Tri {
    match e
    case Symbol(s) => v.tri(s)
    case Equal(a, b) => if v.str(a) == v.str(b) then YES else NO
    case Unequal(a, b) => if v.str(a) == v.str(b) then NO else YES
    case Not(x) => 2 - Value(x, v)
    case Bin(op, a, b) => Combine(op, Value(a, v), Value(b, v))
  }

  /** The same value in every proper valuation. */
  ghost predicate Same(a: Expr, b: Expr) {
    forall v: Valuation | Proper(v) :: Value(a, v) == Value(b, v)
  }

  // ----------------------------------------------------------------------- constants

  function Neutral(op: Op): Expr { if op == Or then Symbol(SYM_NO) else Symbol(SYM_YES) }
  function Absorbing(op: Op): Expr { if op == Or then Symbol(SYM_YES) else Symbol(SYM_NO) }

  predicate IsYn(e: Expr) { e == Symbol(SYM_YES) || e == Symbol(SYM_NO) }

  function Size(e: Expr): nat {
    match e
    case Not(x) => 1 + Size(x)
    case Bin(_, a, b) => 1 + Size(a) + Size(b)
    case _ => 1
  }

  /** expr_eliminate_yn: y and n below "and" and "or" are evaluated away; the parts below a
      negation are left alone. */
  function EliminateYn(e: Expr): Expr {
    match e
    case Bin(op, a, b) =>
      var l, r := EliminateYn(a), EliminateYn(b);
      if l == Absorbing(op) then Absorbing(op)
      else if l == Neutral(op) then r
      else if r == Absorbing(op) then Absorbing(op)
      else if r == Neutral(op) then l
      else Bin(op, l, r)
    case _ => e
  }

  /** A y or n directly below an "and" or "or" that only such nodes separate from the root. */
  predicate HasYn(e: Expr) {
    e.Bin? && (IsYn(e.l) || IsYn(e.r) || HasYn(e.l) || HasYn(e.r))
  }

  lemma {:induction false} EliminateYnSame(e: Expr)
    ensures Same(EliminateYn(e), e)
  {
    if e.Bin? {
      EliminateYnSame(e.l);
      EliminateYnSame(e.r);
      forall v: Valuation | Proper(v)
        ensures Value(EliminateYn(e), v) == Value(e, v)
      {
        assert v.tri(SYM_YES) == YES && v.tri(SYM_NO) == NO;
      }
    }
  }

  /** Pruning removes every such constant, and shrinks exactly the trees that hold one. */
  lemma {:induction false} EliminateYnPrunes(e: Expr)
    ensures !HasYn(EliminateYn(e))
    ensures HasYn(e) ==> Size(EliminateYn(e)) < Size(e)
    ensures !HasYn(e) ==> EliminateYn(e) == e
  {
    if e.Bin? {
      EliminateYnPrunes(e.l);
      EliminateYnPrunes(e.r);
    }
  }
}
