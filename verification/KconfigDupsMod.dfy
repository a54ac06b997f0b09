/** The one value expr_eliminate_dups does not keep: an expression that is m can become n, and,
    the other way around, y. */
module KconfigDupsMod {
  import opened Basics
  import opened KconfigExpr
  import opened KconfigEq
  import opened KconfigJoin
  import opened KconfigTransform
  import opened KconfigPaths
  import opened KconfigDups

  const A := Config("A", Tristate)
  const RIGHT := Not(Symbol(A))

  /** (A || n) && !A, and (A && y) || !A. */
  function Left(op: Op): Expr { Bin(Dual(op), Symbol(A), Neutral(Dual(op))) }
  function Contrary(op: Op): Expr { Bin(op, Left(op), RIGHT) }

  /** What becomes of it when the left operand is replaced. */
  function Replaced(op: Op): Expr { Bin(op, Absorbing(op), RIGHT) }

  /** All tristate symbols are m. */
  function AllMod(s: Sym): Tri {
    match s
    case Const(n) => if n == "y" then YES else if n == "m" then MOD else NO
    case Config(_, ty) => if ty == Tristate then MOD else NO
  }

  function AllModText(s: Sym): string {
    if s.Const? then s.name else TriString(AllMod(s))
  }

  const MODS := Valuation(AllMod, AllModText)

  lemma TwoLeafPaths(op: Op, x: Expr, y: Expr)
    requires !IsSpine(op, x) && !IsSpine(op, y)
    ensures var t := Bin(op, x, y);
            && AtLeaf(op, t, [L]) && AtLeaf(op, t, [R])
            && OnSpine(op, t, [L]) && OnSpine(op, t, [R]) && OnSpine(op, t, [])
            && Within(t, [L]) && Sub(t, [L]) == x && Within(t, [R]) && Sub(t, [R]) == y
  {
    assert [L][1..] == [] && [R][1..] == [];
  }

  /** The first pass finds nothing in a pair of operands that do not join and hold nothing
      to join themselves. */
  lemma Dups1Nothing(op: Op, x: Expr, y: Expr)
    requires !IsSpine(op, x) && !IsSpine(op, y)
    requires Join(op, x, y).None? && Join(op, y, x).None?
    requires x.Bin? ==> Dups1(x.op, x, [], []).count == 0
    requires y.Bin? ==> Dups1(y.op, y, [], []).count == 0
    ensures Dups1(op, Bin(op, x, y), [], []).count == 0
  {
    var t := Bin(op, x, y);
    TwoLeafPaths(op, x, y);
    var l: Path, r: Path := [L], [R];
    assert [] + [L] == l && [] + [R] == r;
    assert Inner1(op, t, l) == Rewrite(t, 0) by { SubStore(t, l, x); }
    assert Inner1(op, t, r) == Rewrite(t, 0) by { SubStore(t, r, y); }
    assert Dups1(op, t, l, l) == Rewrite(t, 0) && Dups1(op, t, r, r) == Rewrite(t, 0);
    assert Dups1(op, t, l, r) == Rewrite(t, 0);
    assert Dups1(op, t, r, l) == Rewrite(t, 0);
    assert Dups1(op, t, l, []) == Rewrite(t, 0);
    assert Dups1(op, t, r, []) == Rewrite(t, 0);
  }

  lemma Dups2Nothing(op: Op, x: Expr, y: Expr)
    requires !x.Bin? && !y.Bin?
    ensures Dups2(op, Bin(op, x, y), [], []).count == 0
  {
    var t := Bin(op, x, y);
    TwoLeafPaths(op, x, y);
    var l: Path, r: Path := [L], [R];
    assert [] + [L] == l && [] + [R] == r;
    assert Below2(op, t, l, l) == Rewrite(t, 0) && Below2(op, t, r, r) == Rewrite(t, 0);
    assert Below2(op, t, l, r) == Rewrite(t, 0) && Below2(op, t, r, l) == Rewrite(t, 0);
    assert Inner2(op, t, l) == Rewrite(t, 0) && Inner2(op, t, r) == Rewrite(t, 0);
    assert Dups2(op, t, l, l) == Rewrite(t, 0);
    assert Dups2(op, t, r, r) == Rewrite(t, 0);
    assert Dups2(op, t, l, r) == Rewrite(t, 0);
    assert Dups2(op, t, r, l) == Rewrite(t, 0);
    assert Below2(op, t, l, []) == Rewrite(t, 0) && Below2(op, t, r, []) == Rewrite(t, 0);
    assert Dups2(op, t, l, []) == Rewrite(t, 0);
    assert Dups2(op, t, r, []) == Rewrite(t, 0);
  }

  lemma Dups2AfterReplacing(op: Op)
    ensures var u := Replaced(op);
            && OnSpine(op, u, [R]) && OnSpine(op, u, []) && Dups2(op, u, [R], []) == Rewrite(u, 0)
  {
    var u := Replaced(op);
    TwoLeafPaths(op, Absorbing(op), RIGHT);
    var l: Path, r: Path := [L], [R];
    assert [] + [L] == l && [] + [R] == r;
    assert Dups2(op, u, r, r) == Rewrite(u, 0);
    assert Dups2(op, u, r, l) == Rewrite(u, 0);
    assert Below2(op, u, r, []) == Rewrite(u, 0);
  }

  lemma LeftIsOpposed(op: Op)
    ensures Opposed(op, Left(op), RIGHT)
  {
    var n := Transform(Not(Left(op)));
    var y := Neutral(op);
    assert Transform(Left(op)) == Left(op);
    assert n == Transform(Bin(op, Not(Symbol(A)), Not(Neutral(Dual(op)))));
    assert n == Bin(op, RIGHT, y);
    var a := ExtractEq(op, None, RIGHT, RIGHT);
    assert a == Extract(Some(RIGHT), y, y);
    var b := ExtractEq(op, a.common, y, y);
    assert b.e1 == y && b.common.Some?;
  }

  lemma OpposeAtLeft(op: Op)
    ensures var t := Contrary(op);
            && AtLeaf(op, t, [L]) && OnSpine(op, t, [R]) && Inner2(op, t, [L]) == Rewrite(t, 0)
            && Oppose(op, t, [L], [R]) == Rewrite(Replaced(op), 1)
  {
    TwoLeafPaths(op, Left(op), RIGHT);
    Dups2Nothing(Dual(op), Symbol(A), Neutral(Dual(op)));
    SubStore(Contrary(op), [L], Left(op));
    LeftIsOpposed(op);
    assert [L][1..] == [];
  }

  lemma Dups2AtLeft(op: Op)
    ensures var t := Contrary(op);
            && OnSpine(op, t, [L]) && OnSpine(op, t, []) && Dups2(op, t, [L], []).t == Replaced(op)
  {
    var t, u := Contrary(op), Replaced(op);
    TwoLeafPaths(op, Left(op), RIGHT);
    var l: Path, r: Path := [L], [R];
    assert [] + [L] == l && [] + [R] == r;
    OpposeAtLeft(op);
    assert Below2(op, t, l, l) == Rewrite(t, 0) && Below2(op, t, l, r) == Rewrite(t, 0);
    assert Dups2(op, t, l, l) == Rewrite(t, 0);
    assert Dups2(op, t, l, r) == Rewrite(u, 1);
    assert Below2(op, t, l, []) == Rewrite(u, 1);
  }

  /** The second pass takes the left operand to be opposed by the right one. */
  lemma Dups2Replaces(op: Op)
    ensures Dups2(op, Contrary(op), [], []).t == Replaced(op)
  {
    Dups2AtLeft(op);
    Dups2AfterReplacing(op);
    assert [] + [L] == [L] && [] + [R] == [R];
  }

  lemma ContraryIsDecided(op: Op)
    ensures EliminateDups(Contrary(op)) == Absorbing(op)
  {
    Dups1Nothing(Dual(op), Symbol(A), Neutral(Dual(op)));
    Dups1Nothing(op, Left(op), RIGHT);
    Dups2Replaces(op);
    assert Passes(Contrary(op)).t == Replaced(op) && Replaced(op) != Contrary(op);
    assert EliminateYn(Replaced(op)) == Absorbing(op);
    assert Passes(Absorbing(op)).count == 0;
  }

  lemma YmnDiffer()
    ensures "n" != "y" && "n" != "m" && "m" != "y"
  {
    assert "n"[0] != "y"[0] && "n"[0] != "m"[0] && "m"[0] != "y"[0];
  }

  lemma ModsProper()
    ensures Proper(MODS)
  {
    YmnDiffer();
  }

  lemma ContraryIsMod(op: Op)
    ensures Value(Contrary(op), MODS) == MOD
    ensures Value(Symbol(SYM_NO), MODS) == NO && Value(Symbol(SYM_YES), MODS) == YES
  {
    YmnDiffer();
    assert Value(Symbol(A), MODS) == MOD;
    assert Value(Left(op), MODS) == MOD;
    assert Value(RIGHT, MODS) == MOD;
  }

  /** (A || n) && !A is m when A is m, and is rewritten to n; (A && y) || !A is m as well, and
      is rewritten to y. */
  lemma EliminateDupsLosesMod()
    ensures Proper(MODS) && Value(Contrary(And), MODS) == MOD && Value(Contrary(Or), MODS) == MOD
    ensures Value(EliminateDups(Contrary(And)), MODS) == NO
    ensures Value(EliminateDups(Contrary(Or)), MODS) == YES
  {
    ContraryIsDecided(And);
    ContraryIsDecided(Or);
    ModsProper();
    ContraryIsMod(And);
    ContraryIsMod(Or);
  }
}
