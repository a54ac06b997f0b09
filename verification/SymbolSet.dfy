/** Setting a value: sym_tristate_within_range and sym_set_tristate_value
    (scripts/kconfig/symbol.c), for symbols outside choices. */
module SymbolSet {
  import opened Basics
  import opened KconfigExpr
  import opened SymbolMeaning

  /** sym_tristate_within_range */
  predicate WithinRange(c: Config, d: Values, p: Props, val: Tri) {
    var visible, rev := Visible(c, d, p), Selected(c, d, p);
    && visible != NO
    && !(CannotBeMod(c, p) && val == MOD)
    && visible > rev
    && rev <= val <= visible
  }

  /** sym_set_tristate_value accepts the value the symbol has, and any value in range. */
  predicate Accepts(c: Config, d: Values, s: Sym, val: Tri)
    requires s in c.props
  {
    d(s) == val || WithinRange(c, d, c.props[s], val)
  }

  /** Can the value be given by the user: is it visible, or does visibility not matter? */
  predicate Reachable(c: Config, d: Values, p: Props, val: Tri) {
    Visible(c, d, p) == NO || val <= Visible(c, d, p) || val == Selected(c, d, p)
  }

  /** What is accepted of a symbol: the value it has, and of a symbol that is more visible than
      selected every value that it would get by being set to it. */
  lemma AcceptsIff(c: Config, d: Values, s: Sym, val: Tri)
    requires s in c.props
    ensures Accepts(c, d, s, val) <==>
      || d(s) == val
      || (Visible(c, d, c.props[s]) > Selected(c, d, c.props[s]) && Compute(c, d, c.props[s], Some(val)) == val)
  {
  }

  /** One symbol, everything it depends on as it is. */
  lemma RecomputedIs(c: Config, d: Values, p: Props, user: Option<Tri>, val: Tri)
    requires Compute(c, d, p, user) == val || WithinRange(c, d, p, val)
    ensures Compute(c, d, p, Some(val)) == val <==> Reachable(c, d, p, val)
  {
  }

  /** Symbols that cannot depend on `s` keep their values when its user value changes. */
  lemma {:induction false} OthersKeep(c: Config, u: User, d: Values, d': Values, rank: Sym -> nat,
                                      s: Sym, val: Tri, t: Sym)
    requires Ranked(c, rank) && Solves(c, u, d) && Solves(c, u[s := val], d')
    requires t in c.props && rank(t) <= rank(s) && t != s
    ensures d'(t) == d(t)
    decreases rank(t)
  {
    forall x | x in c.props && Uses(c.props[t], x) ensures d(x) == d'(x) {
      OthersKeep(c, u, d, d', rank, s, val, x);
    }
    assert Equation(c, u, d, t) && Equation(c, u[s := val], d', t);
    ComputeLocal(c, d, d', c.props[t], UserOf(u, t));
  }

  /** After an accepted value has been set and everything is recomputed, the symbol has the
      value asked for, if and only if that value was not beyond what the prompt allows.  It can
      be beyond only when it was the value already, and came from a default. */
  lemma SetGivesValueIff(c: Config, u: User, d: Values, d': Values, rank: Sym -> nat, s: Sym, val: Tri)
    requires Ranked(c, rank) && Solves(c, u, d) && Solves(c, u[s := val], d')
    requires s in c.props && Accepts(c, d, s, val)
    ensures d'(s) == val <==> Reachable(c, d, c.props[s], val)
    ensures !Reachable(c, d, c.props[s], val) ==> d(s) == val && Visible(c, d, c.props[s]) < val
  {
    var p := c.props[s];
    forall x | x in c.props && Uses(p, x) ensures d(x) == d'(x) {
      OthersKeep(c, u, d, d', rank, s, val, x);
    }
    assert Equation(c, u, d, s) && Equation(c, u[s := val], d', s);
    ComputeLocal(c, d, d', p, Some(val));
    RecomputedIs(c, d, p, UserOf(u, s), val);
  }

  /** With modules off, what is accepted is what one gets. */
  lemma SetGivesValueTwoValued(c: Config, u: User, d: Values, d': Values, rank: Sym -> nat, s: Sym, val: Tri)
    requires c.modules == NO
    requires Ranked(c, rank) && Solves(c, u, d) && Solves(c, u[s := val], d')
    requires s in c.props && Accepts(c, d, s, val)
    ensures d'(s) == val
  {
    SetGivesValueIff(c, u, d, d', rank, s, val);
    assert Equation(c, u, d, s);
  }

  // ---------------------------------------------------------- where it does not hold

  const T := Sym.Config("T", Tristate)

  /** A prompt visible as m, and y by default. */
  const BEYOND := SymbolMeaning.Config.Config(
    map[T := Props(true, [Some(Symbol(SYM_MOD))], [Default(None, Symbol(SYM_YES))], None, None)],
    YES, _ => "")

  lemma BeyondParts(d: Values)
    ensures Visible(BEYOND, d, BEYOND.props[T]) == MOD && Selected(BEYOND, d, BEYOND.props[T]) == NO
    ensures DefaultValue(BEYOND, d, BEYOND.props[T]) == YES
  {
    var p := BEYOND.props[T];
    assert SYM_MOD != SYM_YES by { assert "m"[0] != "y"[0]; }
    assert [Some(Symbol(SYM_MOD))][..0] == [];
    assert Best(BEYOND, d, []) == NO;
    assert Eval(BEYOND, d, Some(Symbol(SYM_MOD))) == MOD;
    assert Best(BEYOND, d, p.prompts) == MOD;
    assert FirstDefault(BEYOND, d, p.defaults) == Some(p.defaults[0]);
  }

  /** The symbol is y and the user asks for y; that is accepted, and once everything is
      recomputed the symbol is m. */
  lemma AcceptedIsLost()
    ensures Solves(BEYOND, map[], _ => YES) && Accepts(BEYOND, _ => YES, T, YES)
    ensures !Reachable(BEYOND, _ => YES, BEYOND.props[T], YES)
    ensures Solves(BEYOND, map[T := YES], _ => MOD)
  {
    BeyondParts(_ => YES);
    BeyondParts(_ => MOD);
    assert BEYOND.props.Keys == {T};
  }
}
