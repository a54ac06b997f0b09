/** What the search for recursive dependencies is good for: when it reports nothing, the values
    of all symbols are determined.  Evaluation on demand finds them in any order if "depends on"
    closes no cycle either, which the search does not look at. */
module SymbolOrder {
  import opened Basics
  import opened KconfigExpr
  import opened KconfigTransform
  import opened SymbolMeaning
  import opened SymbolCalc
  import opened SymbolCheck

  function PropertiesOf(p: Props): seq<Property> {
    seq(|p.prompts|, i requires 0 <= i < |p.prompts| => PromptProp(p.prompts[i]))
    + seq(|p.defaults|, i requires 0 <= i < |p.defaults| =>
        DefaultProp(p.defaults[i].cond, p.defaults[i].value))
  }

  /** The dependencies that are searched, of the symbols whose values are computed. */
  function GraphOf(c: SymbolMeaning.Config): Graph {
    map s | s in c.props :: Node(c.props[s].revDep, PropertiesOf(c.props[s]))
  }

  lemma PropertyUses(p: Props, t: Sym)
    ensures (exists q | q in PropertiesOf(p) :: PropUses(q, t)) <==>
            || (exists e | e in p.prompts :: In(e, t))
            || (exists f | f in p.defaults :: In(f.cond, t) || Contains(f.value, t))
  {
    var qs, n := PropertiesOf(p), |p.prompts|;
    if e :| e in p.prompts && In(e, t) {
      var i :| 0 <= i < n && p.prompts[i] == e;
      assert qs[i] == PromptProp(e) && PropUses(qs[i], t);
    }
    if f :| f in p.defaults && (In(f.cond, t) || Contains(f.value, t)) {
      var i :| 0 <= i < |p.defaults| && p.defaults[i] == f;
      assert qs[n + i] == DefaultProp(f.cond, f.value) && PropUses(qs[n + i], t);
    }
    if q :| q in qs && PropUses(q, t) {
      var i :| 0 <= i < |qs| && qs[i] == q;
      if i < n {
        assert In(p.prompts[i], t);
      } else {
        assert p.defaults[i - n] in p.defaults;
      }
    }
  }

  /** The search follows exactly what values follow from. */
  lemma EdgeIsUse(c: SymbolMeaning.Config, s: Sym, t: Sym)
    ensures Edge(GraphOf(c), s, t) <==> s in c.props && Uses(c.props[s], t)
  {
    if s in c.props {
      PropertyUses(c.props[s], t);
      assert GraphOf(c)[s].props == PropertiesOf(c.props[s]);
    }
  }

  ghost function RankIn(order: seq<Sym>): Sym -> nat { s => if s in order then Place(order, s) else 0 }

  /** What the search leaves behind when it reports nothing is a rank. */
  lemma SortedIsRanked(c: SymbolMeaning.Config, order: seq<Sym>)
    requires Sorted(GraphOf(c), order) && forall s | s in c.props :: s in order
    ensures Ranked(c, RankIn(order))
  {
    forall s, t {:trigger Uses(c.props[s], t)}
      | s in c.props && t in c.props && Uses(c.props[s], t)
      ensures RankIn(order)(t) < RankIn(order)(s)
    {
      EdgeIsUse(c, s, t);
      if Place(order, s) <= Place(order, t) {
        NotBefore(GraphOf(c), order, s, t);
      }
    }
  }

  /** Along dependencies the rank falls. */
  lemma {:induction false} RankFalls(c: SymbolMeaning.Config, rank: Sym -> nat, p: seq<Sym>, n: nat)
    requires Ranked(c, rank) && Path(GraphOf(c), p) && n < |p|
    requires forall s | s in p :: s in c.props
    ensures rank(p[n]) + n <= rank(p[0])
    decreases n
  {
    if n > 0 {
      RankFalls(c, rank, p, n - 1);
      assert Edge(GraphOf(c), p[n - 1], p[n - 1 + 1]);
      EdgeIsUse(c, p[n - 1], p[n]);
    }
  }

  /** A rank rules out cycles. */
  lemma RankedHasNoCycle(c: SymbolMeaning.Config, rank: Sym -> nat, p: seq<Sym>)
    requires Ranked(c, rank)
    ensures !Cycle(GraphOf(c), p)
  {
    if Cycle(GraphOf(c), p) {
      forall i | 0 <= i < |p| ensures p[i] in c.props {
        if i < |p| - 1 {
          assert Edge(GraphOf(c), p[i], p[i + 1]);
        }
      }
      RankFalls(c, rank, p, |p| - 1);
      EdgeIsUse(c, p[|p| - 1], p[0]);
    }
  }

  ghost predicate HasRank(c: SymbolMeaning.Config) {
    exists rank :: Ranked(c, rank)
  }

  lemma ReportedHasNoRank(c: SymbolMeaning.Config)
    requires exists p :: Cycle(GraphOf(c), p)
    ensures !HasRank(c)
  {
    var p :| Cycle(GraphOf(c), p);
    if HasRank(c) {
      var rank :| Ranked(c, rank);
      RankedHasNoCycle(c, rank, p);
    }
  }

  /** The equations have a solution, and it is the only one. */
  ghost predicate Determined(c: SymbolMeaning.Config, user: User) {
    && (exists d :: Solves(c, user, d))
    && (forall d, d', s | Solves(c, user, d) && Solves(c, user, d') && s in c.props :: d(s) == d'(s))
  }

  lemma RankedIsDetermined(c: SymbolMeaning.Config, rank: Sym -> nat, user: User)
    requires Ranked(c, rank)
    ensures Determined(c, user)
  {
    MeaningSolves(c, user, rank);
    var d0 := s => Meaning(c, user, rank, s);
    assert Solves(c, user, d0);
    forall d, d', s | Solves(c, user, d) && Solves(c, user, d') && s in c.props ensures d(s) == d'(s) {
      SolutionUnique(c, user, rank, d, d', s);
    }
  }

  /** Is there a rank that never rises along "depends on" either? */
  ghost predicate HasSteadyRank(c: SymbolMeaning.Config) {
    exists rank :: Steady(c, rank)
  }

  /** Whatever "depends on" mentions, another property of the symbol mentions too.  menu_finalize
      sees to that for the properties an entry has, as far as the rewriting leaves symbols in
      place; an entry with neither prompt nor default has none. */
  ghost predicate Covered(c: SymbolMeaning.Config) {
    forall s, t {:trigger In(c.props[s].dirDep, t)}
      | s in c.props && t in c.props && In(c.props[s].dirDep, t) :: Uses(c.props[s], t)
  }

  /** One condition under which the search is enough. */
  lemma CoveredIsSteady(c: SymbolMeaning.Config)
    requires Covered(c) && HasRank(c)
    ensures HasSteadyRank(c)
  {
    var rank :| Ranked(c, rank);
    assert Steady(c, rank);
  }

  /** The search, and then evaluation of symbols in any order, whatever was reported.  Something
      is reported if and only if what values follow from has no rank; if nothing is, the values
      of all symbols are determined, for any user.  Evaluation finds them if there is a rank that
      never rises along "depends on". */
  method CheckAndEvaluate(c: SymbolMeaning.Config, user: User, all: seq<Sym>, order: seq<Sym>)
    returns (reported: bool, values: seq<Tri>)
    requires Typed(c) && forall s | s in c.props :: s in all
    ensures reported <==> !HasRank(c)
    ensures !reported ==> forall u :: Determined(c, u)
    ensures HasSteadyRank(c) ==> !reported && forall d | Solves(c, user, d) :: Gives(c, order, values, d)
  {
    var search := new DependencySearch(GraphOf(c));
    var _ := search.CheckAll(all);
    reported := search.reports != [];
    if reported {
      ReportedHasNoRank(c);
    } else {
      SortedIsRanked(c, search.order);
      forall u ensures Determined(c, u) {
        RankedIsDetermined(c, RankIn(search.order), u);
      }
    }
    var table := new SymbolTable(c, user);
    values := table.Evaluate(order);
  }

  // -------------------------------------------------------- where the order matters

  const A := Sym.Config("A", Boolean)
  const B := Sym.Config("B", Boolean)
  const C := Sym.Config("C", Boolean)

  /** C is y and selects A, which has neither prompt nor default and depends on B; B is y by
      default and depends on A. */
  const TANGLED := SymbolMeaning.Config.Config(
    map[A := Props(false, [], [], Some(Symbol(B)), Some(Symbol(C))),
        B := Props(false, [Some(Symbol(A))], [Default(Some(Symbol(A)), Symbol(SYM_YES))], Some(Symbol(A)), None),
        C := Props(false, [None], [Default(None, Symbol(SYM_YES))], None, None)],
    YES, _ => "")

  lemma TangledParts()
    ensures TANGLED.props.Keys == {A, B, C} && A != B && A != C && B != C && Typed(TANGLED)
    ensures forall t :: (Uses(TANGLED.props[A], t) <==> t == C) && (In(TANGLED.props[A].dirDep, t) <==> t == B)
    ensures forall t :: Uses(TANGLED.props[B], t) <==> t == A || t == SYM_YES
    ensures forall t :: DependsOn(TANGLED.props[C], t) <==> t == SYM_YES
  {
    assert "A"[0] != "B"[0] && "A"[0] != "C"[0] && "B"[0] != "C"[0];
  }

  /** What the values of the three are, depending on what is seen of the others. */
  lemma TangledValues(d: Values)
    ensures Visible(TANGLED, d, TANGLED.props[A]) == NO == DefaultValue(TANGLED, d, TANGLED.props[A])
    ensures Selected(TANGLED, d, TANGLED.props[A]) == if d(C) == NO then NO else YES
    ensures Visible(TANGLED, d, TANGLED.props[B]) == if d(A) == NO then NO else YES
    ensures DefaultValue(TANGLED, d, TANGLED.props[B]) == d(A) && Selected(TANGLED, d, TANGLED.props[B]) == NO
    ensures DefaultValue(TANGLED, d, TANGLED.props[C]) == YES
  {
    TangledParts();
    var b, c := TANGLED.props[B], TANGLED.props[C];
    assert b.prompts[..0] == [] && Best(TANGLED, d, []) == NO;
    assert Eval(TANGLED, d, Some(Symbol(A))) == d(A);
    assert FirstDefault(TANGLED, d, b.defaults[1..]) == None;
    assert FirstDefault(TANGLED, d, c.defaults) == Some(c.defaults[0]);
  }

  lemma TangledRanked()
    ensures Ranked(TANGLED, s => if s == B then 2 else if s == A then 1 else 0)
  {
    TangledParts();
  }

  /** There is a rank, so that nothing is reported; but none that never rises along "depends on". */
  lemma TangledIsSilent()
    ensures Typed(TANGLED) && HasRank(TANGLED) && !HasSteadyRank(TANGLED) && !Covered(TANGLED)
    ensures forall p :: !Cycle(GraphOf(TANGLED), p)
  {
    TangledParts();
    TangledRanked();
    var rank: Sym -> nat := s => if s == B then 2 else if s == A then 1 else 0;
    forall p ensures !Cycle(GraphOf(TANGLED), p) {
      RankedHasNoCycle(TANGLED, rank, p);
    }
    assert Uses(TANGLED.props[B], A) && In(TANGLED.props[A].dirDep, B) && !Uses(TANGLED.props[A], B);
  }

  /** The equations have one solution: without a user value all three are y. */
  lemma TangledIsYes(d: Values)
    ensures Determined(TANGLED, map[])
    ensures Solves(TANGLED, map[], d) <==> d(A) == d(B) == d(C) == YES
  {
    TangledParts();
    TangledRanked();
    RankedIsDetermined(TANGLED, s => if s == B then 2 else if s == A then 1 else 0, map[]);
    TangledValues(d);
    assert Solves(TANGLED, map[], d) <==>
      Equation(TANGLED, map[], d, A) && Equation(TANGLED, map[], d, B) && Equation(TANGLED, map[], d, C);
  }

  /** What is below a frame of a stack is not shown otherwise above it. */
  lemma {:induction false} WithinShows(c: SymbolMeaning.Config, below: Stack, s: Sym, t: Tri, stack: Stack)
    requires Linked(c, stack) && Within(Frame(below, s, t), stack)
    ensures Open(stack, s) && ShownOf(stack, s) == t
    decreases stack
  {
    if stack != Frame(below, s, t) { WithinShows(c, below, s, t, stack.below); }
  }

  /** A symbol that mentions no defined symbol is never waited for. */
  lemma {:induction false} LeafIsNotOpen(c: SymbolMeaning.Config, leaf: Sym, stack: Stack, s: Sym)
    requires Linked(c, stack) && Asks(c, stack, s) && s in c.props && leaf in c.props
    requires forall t | t in c.props :: !DependsOn(c.props[leaf], t)
    ensures !Open(stack, leaf)
    decreases stack
  {
    if stack.Frame? { LeafIsNotOpen(c, leaf, stack.below, stack.sym); }
  }

  /** What a finished symbol follows from. */
  lemma FinishedView(a: State, s: Sym, shown: Tri, d: Values)
    requires a.Finished(s)
    ensures var stack := Frame(a.past[s].callers, s, shown);
            && Linked(a.c, stack) && (shown == a.past[s].first ==> a.Sighted(s, View(a, stack, d)))
            && (shown == NO ==> a.Valued(s, View(a, stack, d)))
  {
    var stack := Frame(a.past[s].callers, s, shown);
    assert Linked(a.c, Frame(a.past[s].callers, s, NO));
    ViewSeen(a, stack, d);
  }

  /** Met while A is computed, B is n. */
  lemma AskedForA(a: State, z: State)
    requires z.c == a.c == TANGLED && z.user == map[] && z.Ready(Bottom) && a.past == map[]
    requires A in a.k && a.k[A].curr == NO && Entered(a, z, Bottom, A)
    ensures B in z.k && z.k[B].valid && z.k[B].curr == NO
  {
    TangledParts();
    assert In(TANGLED.props[A].dirDep, B) && z.Finished(B);
    var first, d := z.past[B].first, (_ => NO);
    var up, down := Frame(z.past[B].callers, B, first), Frame(z.past[B].callers, B, NO);
    FinishedView(z, B, first, d);
    FinishedView(z, B, NO, d);
    WithinShows(TANGLED, Bottom, A, NO, up);
    WithinShows(TANGLED, Bottom, A, NO, down);
    TangledValues(View(z, up, d));
    TangledValues(View(z, down, d));
  }

  /** Whatever C is met for, it is y if it is finished. */
  lemma CIsYes(z: State)
    requires z.c == TANGLED && z.user == map[] && z.Ready(Bottom)
    ensures C in z.past ==> C in z.k && z.k[C].curr == YES
  {
    TangledParts();
    if C in z.past {
      assert z.Finished(C);
      FinishedView(z, C, NO, _ => NO);
      TangledValues(View(z, Frame(z.past[C].callers, C, NO), _ => NO));
    }
  }

  lemma AIsYes(z: State)
    requires z.c == TANGLED && z.user == map[] && z.Ready(Bottom) && A in z.past
    ensures A in z.k && z.k[A].curr == YES
  {
    TangledParts();
    assert z.Finished(A);
    var first, d := z.past[A].first, (_ => YES);
    var up, down := Frame(z.past[A].callers, A, first), Frame(z.past[A].callers, A, NO);
    FinishedView(z, A, first, d);
    FinishedView(z, A, NO, d);
    LeafIsNotOpen(TANGLED, C, z.past[A].callers, A);
    CIsYes(z);
    assert !Open(up, C) && View(z, up, d)(C) == YES;
    TangledValues(View(z, up, d));
    TangledValues(View(z, down, d));
  }

  /** Asked for first, B is y. */
  lemma AskedForB(a: State, z: State)
    requires z.c == a.c == TANGLED && z.user == map[] && z.Ready(Bottom) && a.past == map[]
    requires B in a.k && a.k[B].curr == NO && Entered(a, z, Bottom, B)
    ensures B in z.k && z.k[B].curr == YES
  {
    TangledParts();
    assert In(TANGLED.props[B].dirDep, A) && z.Finished(B);
    AIsYes(z);
    var d, stack := (_ => YES), Frame(Bottom, B, NO);
    FinishedView(z, B, NO, d);
    assert !Open(stack, A) && View(z, stack, d)(A) == YES;
    TangledValues(View(z, stack, d));
  }

  /** So the order of evaluation matters: asked for after A, B is n, and asked for first it is y. */
  method OrderMatters() returns (after: Tri, before: Tri)
    ensures after == NO && before == YES
  {
    TangledParts();
    var one := new SymbolTable(TANGLED, map[]);
    ghost var start := one.Now();
    var _ := one.ValueOf(A);
    AskedForA(start, one.Now());
    after := one.ValueOf(B);
    var other := new SymbolTable(TANGLED, map[]);
    start := other.Now();
    before := other.ValueOf(B);
    AskedForB(start, other.Now());
  }
}
