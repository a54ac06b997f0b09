/** What the value of a Kconfig symbol is (scripts/kconfig/symbol.c), without caches and
    flags: equations between the values of bool and tristate symbols outside choices. */
module SymbolMeaning {
  import opened Basics
  import opened KconfigExpr
  import opened KconfigTransform

  /** A default: its condition, none meaning always, and the value it gives. */
  datatype Default = Default(cond: Option<Expr>, value: Expr)

  /** The properties of a symbol: conditions of its prompts, defaults in order, "depends on",
      and the conditions under which others select it. */
  datatype Props = Props(
    tristate: bool,
    prompts: seq<Option<Expr>>,
    defaults: seq<Default>,
    dirDep: Option<Expr>,
    revDep: Option<Expr>)

  type Values = Sym -> Tri

  /** Properties of all symbols that have a definition, the setting of "modules", and the text
      of strings and numbers. */
  datatype Config = Config(props: map<Sym, Props>, modules: Tri, text: Sym -> string)

  /** The user's values. */
  type User = map<Sym, Tri>

  /** The valuation by which expressions are evaluated: constants and undefined symbols have
      fixed values, the others those of `d`. */
  function TriOf(c: Config, d: Values, s: Sym): Tri {
    if s == SYM_YES then YES
    else if s == SYM_MOD then MOD
    else if s in c.props && s.Config? then d(s)
    else NO
  }

  /** The text by which a symbol is compared, `t` being its value as a tristate. */
  function TextFor(c: Config, s: Sym, t: Tri): string {
    if s.Type() in {Boolean, Tristate} then TriString(t)
    else if s.Type() in {Integer, Hex, Text} then c.text(s) else s.name
  }

  function TextOf(c: Config, d: Values, s: Sym): string { TextFor(c, s, TriOf(c, d, s)) }

  function Under(c: Config, d: Values): Valuation {
    Valuation(s => TriOf(c, d, s), s => TextOf(c, d, s))
  }

  function Eval(c: Config, d: Values, e: Option<Expr>): Tri {
    if e.None? then YES else Value(e.value, Under(c, d))
  }

  /** m counts as y for a symbol that cannot be m. */
  predicate CannotBeMod(c: Config, p: Props) { !p.tristate || c.modules == NO }

  function Promote(c: Config, p: Props, t: Tri): Tri {
    if t == MOD && CannotBeMod(c, p) then YES else t
  }

  /** The best of the conditions. */
  function Best(c: Config, d: Values, conds: seq<Option<Expr>>): Tri {
    if conds == [] then NO
    else Max(Best(c, d, conds[..|conds| - 1]), Eval(c, d, conds[|conds| - 1]))
  }

  function Visible(c: Config, d: Values, p: Props): Tri { Promote(c, p, Best(c, d, p.prompts)) }

  function Selected(c: Config, d: Values, p: Props): Tri {
    if p.revDep.None? then NO else Promote(c, p, Eval(c, d, p.revDep))
  }

  /** The first default whose condition is not n. */
  function FirstDefault(c: Config, d: Values, ds: seq<Default>): Option<Default> {
    if ds == [] then None
    else if Eval(c, d, ds[0].cond) != NO then Some(ds[0])
    else FirstDefault(c, d, ds[1..])
  }

  function DefaultValue(c: Config, d: Values, p: Props): Tri {
    match FirstDefault(c, d, p.defaults)
    case None => NO
    case Some(f) => Min(Eval(c, d, Some(f.value)), Eval(c, d, f.cond))
  }

  /** The value of a symbol, from those of the symbols it depends on: the user's value as far
      as the prompt is visible, else the default, and never below what selects it. */
  function Compute(c: Config, d: Values, p: Props, user: Option<Tri>): Tri {
    var visible := Visible(c, d, p);
    var wanted := if visible != NO && user.Some? then Min(user.value, visible) else DefaultValue(c, d, p);
    Promote(c, p, Max(wanted, Selected(c, d, p)))
  }

  /** Is the value written to a configuration file? */
  predicate Written(c: Config, d: Values, p: Props) {
    || Visible(c, d, p) != NO || Selected(c, d, p) != NO
    || FirstDefault(c, d, p.defaults).Some?
  }

  function UserOf(u: User, s: Sym): Option<Tri> { if s in u then Some(u[s]) else None }

  predicate Equation(c: Config, u: User, d: Values, s: Sym)
    requires s in c.props
  {
    d(s) == Compute(c, d, c.props[s], UserOf(u, s))
  }

  /** `d` gives every symbol the value that follows from `d` itself. */
  ghost predicate Solves(c: Config, u: User, d: Values) {
    forall s {:trigger Equation(c, u, d, s)} | s in c.props :: Equation(c, u, d, s)
  }

  /** Definitions are of config symbols, with the type the symbol has. */
  ghost predicate Typed(c: Config) {
    forall s | s in c.props :: s.Config? && s.ty == if c.props[s].tristate then Tristate else Boolean
  }

  /** Computed values make a proper valuation: what the rewriting of expressions assumes. */
  lemma SolutionProper(c: Config, u: User, d: Values)
    requires Typed(c) && Solves(c, u, d)
    ensures Proper(Under(c, d))
  {
    forall s: Sym
      ensures s.Type() == Boolean ==> TriOf(c, d, s) != MOD
    {
      if s in c.props {
        assert Equation(c, u, d, s);
      }
    }
    assert "y"[0] != "m"[0] && "m"[0] != "n"[0] && "y"[0] != "n"[0];
  }

  // ------------------------------------------------------- values from the conditions

  /** The condition of the i-th default is the first that is not n. */
  predicate IsFirstMet(c: Config, d: Values, ds: seq<Default>, i: nat) {
    && i < |ds| && Eval(c, d, ds[i].cond) != NO
    && forall j | 0 <= j < i :: Eval(c, d, ds[j].cond) == NO
  }

  lemma {:induction false} FirstMetIsFirst(c: Config, d: Values, ds: seq<Default>, i: nat)
    requires IsFirstMet(c, d, ds, i)
    ensures FirstDefault(c, d, ds) == Some(ds[i])
  {
    if i > 0 {
      assert Eval(c, d, ds[0].cond) == NO;
      forall j | 0 <= j < i - 1 ensures Eval(c, d, ds[1..][j].cond) == NO {
        assert ds[1..][j] == ds[j + 1];
      }
      FirstMetIsFirst(c, d, ds[1..], i - 1);
    }
  }

  lemma {:induction false} NothingMet(c: Config, d: Values, ds: seq<Default>)
    requires forall f | f in ds :: Eval(c, d, f.cond) == NO
    ensures FirstDefault(c, d, ds) == None
  {
    if ds != [] {
      assert ds[0] in ds;
      NothingMet(c, d, ds[1..]);
    }
  }

  /** The best condition is that of one of the prompts, and none is better. */
  lemma {:induction false} BestIsGreatest(c: Config, d: Values, conds: seq<Option<Expr>>)
    ensures forall e | e in conds :: Eval(c, d, e) <= Best(c, d, conds)
    ensures Best(c, d, conds) == NO || exists e :: e in conds && Eval(c, d, e) == Best(c, d, conds)
  {
    if conds != [] {
      var n := |conds| - 1;
      BestIsGreatest(c, d, conds[..n]);
      assert conds == conds[..n] + [conds[n]];
      assert conds[n] in conds;
    }
  }

  /** The user has no say: there is no user value, or no prompt has a condition other than n. */
  ghost predicate Unasked(c: Config, u: User, d: Values, s: Sym)
    requires s in c.props
  {
    s !in u || forall e | e in c.props[s].prompts :: Eval(c, d, e) == NO
  }

  /** What selects the symbol, none counting as n. */
  function SelectedBy(c: Config, d: Values, s: Sym): Tri
    requires s in c.props
  {
    if c.props[s].revDep.None? then NO else Eval(c, d, c.props[s].revDep)
  }

  /** The value is `t`, except that m is y where the symbol cannot be m. */
  predicate Becomes(c: Config, d: Values, s: Sym, t: Tri)
    requires s in c.props
  {
    d(s) == if t == MOD && (!c.props[s].tristate || c.modules == NO) then YES else t
  }

  /** Without a say of the user the first default whose condition is met gives the value, its
      own value being cut to that of its condition, but never below what selects the symbol; and
      the symbol is written. */
  lemma DefaultDecides(c: Config, u: User, d: Values, s: Sym, i: nat)
    requires s in c.props && Equation(c, u, d, s) && Unasked(c, u, d, s)
    requires IsFirstMet(c, d, c.props[s].defaults, i)
    ensures var f := c.props[s].defaults[i];
            Becomes(c, d, s, Max(Min(Eval(c, d, Some(f.value)), Eval(c, d, f.cond)), SelectedBy(c, d, s)))
    ensures Written(c, d, c.props[s])
  {
    FirstMetIsFirst(c, d, c.props[s].defaults, i);
    BestIsGreatest(c, d, c.props[s].prompts);
  }

  /** If no condition of a default is met either, what selects the symbol gives the value; and it
      is written only if something does, or if a prompt is visible. */
  lemma SelectionDecides(c: Config, u: User, d: Values, s: Sym)
    requires s in c.props && Equation(c, u, d, s) && Unasked(c, u, d, s)
    requires forall f | f in c.props[s].defaults :: Eval(c, d, f.cond) == NO
    ensures Becomes(c, d, s, SelectedBy(c, d, s))
    ensures Written(c, d, c.props[s]) <==>
              SelectedBy(c, d, s) != NO || exists e :: e in c.props[s].prompts && Eval(c, d, e) != NO
  {
    NothingMet(c, d, c.props[s].defaults);
    BestIsGreatest(c, d, c.props[s].prompts);
  }

  /** A prompt that is visible, none being more so, lets the user's value through as far as it is
      visible, whatever the defaults are; m counts as y there for a symbol that cannot be m. */
  lemma UserDecides(c: Config, u: User, d: Values, s: Sym, e: Option<Expr>)
    requires s in c.props && Equation(c, u, d, s) && s in u
    requires e in c.props[s].prompts && Eval(c, d, e) != NO
    requires forall e' | e' in c.props[s].prompts :: Eval(c, d, e') <= Eval(c, d, e)
    ensures var visible := if CannotBeMod(c, c.props[s]) then YES else Eval(c, d, e);
            Becomes(c, d, s, Max(Min(u[s], visible), SelectedBy(c, d, s)))
    ensures Written(c, d, c.props[s])
  {
    BestIsGreatest(c, d, c.props[s].prompts);
  }

  const FEATURE := Sym.Config("F", Boolean)
  const TARGET := Sym.Config("T", Boolean)

  /** y if T is, and else n: two defaults, both of them met where T is y. */
  const TWO_DEFAULTS := Config.Config(
    map[FEATURE := Props(false, [], [Default(Some(Symbol(TARGET)), Symbol(SYM_YES)), Default(None, Symbol(SYM_NO))],
                         None, None),
        TARGET := Props(false, [], [Default(None, Symbol(SYM_YES))], None, None)],
    YES, _ => "")

  /** The first of them gives the value. */
  lemma FirstOfTwo(u: User, d: Values)
    requires Solves(TWO_DEFAULTS, u, d)
    ensures d(TARGET) == YES && d(FEATURE) == YES
    ensures forall f | f in TWO_DEFAULTS.props[FEATURE].defaults :: Eval(TWO_DEFAULTS, d, f.cond) != NO
  {
    assert FEATURE != TARGET by { assert "F"[0] != "T"[0]; }
    var c := TWO_DEFAULTS;
    assert Equation(c, u, d, FEATURE) && Equation(c, u, d, TARGET);
    DefaultDecides(c, u, d, TARGET, 0);
    DefaultDecides(c, u, d, FEATURE, 0);
  }

  // ---------------------------------------------------------------------- dependency

  /** Does the value follow from that of `s`?  "depends on" has no part in it: it is looked at,
      but has its effect through the conditions of the other properties. */
  predicate Uses(p: Props, s: Sym) {
    || (exists e | e in p.prompts :: In(e, s))
    || (exists f | f in p.defaults :: In(f.cond, s) || Contains(f.value, s))
    || In(p.revDep, s)
  }

  /** Does any property mention the symbol? */
  predicate DependsOn(p: Props, s: Sym) { Uses(p, s) || In(p.dirDep, s) }

  /** The values of symbols only follow from those of symbols of smaller rank. */
  ghost predicate Ranked(c: Config, rank: Sym -> nat) {
    forall s, t {:trigger Uses(c.props[s], t)}
      | s in c.props && t in c.props && Uses(c.props[s], t) :: rank(t) < rank(s)
  }

  ghost predicate AgreeOn(c: Config, d: Values, d': Values, p: Props) {
    forall t | t in c.props && Uses(p, t) :: d(t) == d'(t)
  }

  lemma EvalLocal(c: Config, d: Values, d': Values, e: Option<Expr>)
    requires forall t | t in c.props && In(e, t) :: d(t) == d'(t)
    ensures Eval(c, d, e) == Eval(c, d', e)
  {
    if e.Some? {
      ContainsAll(e.value, Under(c, d), Under(c, d'));
    }
  }

  lemma {:induction false} BestLocal(c: Config, d: Values, d': Values, conds: seq<Option<Expr>>)
    requires forall e, t | e in conds && t in c.props && In(e, t) :: d(t) == d'(t)
    ensures Best(c, d, conds) == Best(c, d', conds)
  {
    if conds != [] {
      BestLocal(c, d, d', conds[..|conds| - 1]);
      EvalLocal(c, d, d', conds[|conds| - 1]);
    }
  }

  lemma {:induction false} FirstDefaultLocal(c: Config, d: Values, d': Values, ds: seq<Default>)
    requires forall f, t | f in ds && t in c.props && In(f.cond, t) :: d(t) == d'(t)
    ensures FirstDefault(c, d, ds) == FirstDefault(c, d', ds)
    ensures FirstDefault(c, d, ds).Some? ==> FirstDefault(c, d, ds).value in ds
  {
    if ds != [] {
      EvalLocal(c, d, d', ds[0].cond);
      FirstDefaultLocal(c, d, d', ds[1..]);
    }
  }

  /** The value of a symbol follows from the values of the symbols its prompts, defaults and
      reverse dependency mention. */
  lemma ComputeLocal(c: Config, d: Values, d': Values, p: Props, user: Option<Tri>)
    requires AgreeOn(c, d, d', p)
    ensures Visible(c, d, p) == Visible(c, d', p) && Selected(c, d, p) == Selected(c, d', p)
    ensures DefaultValue(c, d, p) == DefaultValue(c, d', p)
    ensures Compute(c, d, p, user) == Compute(c, d', p, user)
    ensures Written(c, d, p) == Written(c, d', p)
  {
    BestLocal(c, d, d', p.prompts);
    FirstDefaultLocal(c, d, d', p.defaults);
    EvalLocal(c, d, d', p.revDep);
    var f := FirstDefault(c, d, p.defaults);
    if f.Some? {
      EvalLocal(c, d, d', f.value.cond);
      EvalLocal(c, d, d', Some(f.value.value));
    }
  }

  // ---------------------------------------------------------- existence and uniqueness

  /** The equations followed `n` deep. */
  function Unfold(c: Config, u: User, n: nat, s: Sym): Tri
    decreases n
  {
    if n == 0 || s !in c.props then NO
    else Compute(c, t => Unfold(c, u, n - 1, t), c.props[s], UserOf(u, s))
  }

  lemma {:induction false} UnfoldEnough(c: Config, u: User, rank: Sym -> nat, n: nat, m: nat, s: Sym)
    requires Ranked(c, rank) && rank(s) < n && rank(s) < m
    ensures Unfold(c, u, n, s) == Unfold(c, u, m, s)
    decreases rank(s)
  {
    if s in c.props {
      var d, d' := (t => Unfold(c, u, n - 1, t)), (t => Unfold(c, u, m - 1, t));
      forall t | t in c.props && Uses(c.props[s], t) ensures d(t) == d'(t) {
        UnfoldEnough(c, u, rank, n - 1, m - 1, t);
      }
      ComputeLocal(c, d, d', c.props[s], UserOf(u, s));
    }
  }

  /** The recursive definition of the values: follow the equations as deep as the rank. */
  function Meaning(c: Config, u: User, rank: Sym -> nat, s: Sym): Tri {
    Unfold(c, u, rank(s) + 1, s)
  }

  /** Without cycles the recursive definition solves the equations. */
  lemma MeaningSolves(c: Config, u: User, rank: Sym -> nat)
    requires Ranked(c, rank)
    ensures Solves(c, u, s => Meaning(c, u, rank, s))
  {
    var d := s => Meaning(c, u, rank, s);
    forall s | s in c.props ensures Equation(c, u, d, s) {
      var d' := t => Unfold(c, u, rank(s), t);
      forall t | t in c.props && Uses(c.props[s], t) ensures d(t) == d'(t) {
        UnfoldEnough(c, u, rank, rank(t) + 1, rank(s), t);
      }
      ComputeLocal(c, d, d', c.props[s], UserOf(u, s));
    }
  }

  /** And nothing else does. */
  lemma {:induction false} SolutionUnique(c: Config, u: User, rank: Sym -> nat, d: Values, d': Values, s: Sym)
    requires Ranked(c, rank) && Solves(c, u, d) && Solves(c, u, d') && s in c.props
    ensures d(s) == d'(s)
    decreases rank(s)
  {
    forall t | t in c.props && Uses(c.props[s], t) ensures d(t) == d'(t) {
      SolutionUnique(c, u, rank, d, d', t);
    }
    assert Equation(c, u, d, s) && Equation(c, u, d', s);
    ComputeLocal(c, d, d', c.props[s], UserOf(u, s));
  }
}
