/** sym_calc_value and sym_calc_visibility (scripts/kconfig/symbol.c): values computed on
    demand and kept, guarded by the VALID flag. */
module SymbolCalc {
  import opened Basics
  import opened KconfigExpr
  import opened KconfigTransform
  import opened SymbolMeaning

  /** The computed fields of one symbol: the VALID and WRITE flags, and curr.tri, visible,
      dir_dep.tri and rev_dep.tri. */
  datatype Cell = Cell(valid: bool, write: bool, curr: Tri, visible: Tri, dirDep: Tri, revDep: Tri)

  type Cells = map<Sym, Cell>

  /** The symbols still to be computed: the reason every call ends, cycles or not. */
  function Missing(k: Cells): nat { |set s | s in k && !k[s].valid| }

  /** Valid symbols stay valid. */
  ghost predicate Grows(k: Cells, k': Cells) {
    k.Keys == k'.Keys && forall s | s in k && k[s].valid :: k'[s].valid
  }

  lemma MissingLess(k: Cells, k': Cells, s: Sym)
    requires Grows(k, k')
    ensures Missing(k') <= Missing(k)
    ensures s in k && !k[s].valid && k'[s].valid ==> Missing(k') < Missing(k)
  {
    var a, b := (set t | t in k' && !k'[t].valid), (set t | t in k && !k[t].valid);
    SubsetSize(a, b);
    if s in k && !k[s].valid && k'[s].valid {
      SubsetSize(a, b - {s});
    }
  }

  /** Replacing a valid cell by another leaves as many to compute. */
  lemma MissingSame(k: Cells, s: Sym, x: Cell)
    requires s in k && k[s].valid && x.valid
    ensures Missing(k[s := x]) == Missing(k)
  {
    var k' := k[s := x];
    assert (set t | t in k' && !k'[t].valid) == (set t | t in k && !k[t].valid);
  }

  // ------------------------------------------------------------ symbols being computed

  /** The symbols whose values are being computed, innermost first.  Each shows, to those that
      ask meanwhile, the value it had before, until its visibility is known, and then n. */
  datatype Stack = Bottom | Frame(below: Stack, sym: Sym, shown: Tri)

  predicate Open(stack: Stack, s: Sym) {
    stack.Frame? && (stack.sym == s || Open(stack.below, s))
  }

  /** May the innermost of them ask for `s`? */
  predicate Asks(c: Config, stack: Stack, s: Sym) {
    stack.Frame? ==> stack.sym in c.props && DependsOn(c.props[stack.sym], s)
  }

  ghost predicate AsksAll(c: Config, stack: Stack, e: Option<Expr>) {
    forall s | In(e, s) :: Asks(c, stack, s)
  }

  /** Each symbol is defined, was asked for by the one below it, and occurs once. */
  predicate Linked(c: Config, stack: Stack) {
    stack.Frame? ==>
      && stack.sym in c.props && !Open(stack.below, stack.sym)
      && Asks(c, stack.below, stack.sym) && Linked(c, stack.below)
  }

  /** Is the one stack the lower part of the other? */
  predicate Within(stack: Stack, more: Stack) {
    stack == more || (more.Frame? && Within(stack, more.below))
  }

  lemma {:induction false} WithinTrans(a: Stack, b: Stack, c: Stack)
    requires Within(a, b) && Within(b, c)
    ensures Within(a, c)
    decreases c
  {
    if b != c { WithinTrans(a, b, c.below); }
  }

  /** Do the symbols on the stack have the values they show? */
  predicate Shown(stack: Stack, k: Cells) {
    stack.Frame? ==>
      && stack.sym in k && k[stack.sym].valid && k[stack.sym].curr == stack.shown && Shown(stack.below, k)
  }

  predicate ShownIn(stack: Stack, d: Values) {
    stack.Frame? ==> d(stack.sym) == stack.shown && ShownIn(stack.below, d)
  }

  lemma {:induction false} ShownAlike(stack: Stack, k: Cells, d: Values, s: Sym)
    requires Shown(stack, k) && ShownIn(stack, d) && Open(stack, s)
    ensures s in k && k[s].valid && k[s].curr == d(s)
    decreases stack
  {
    if stack.sym != s { ShownAlike(stack.below, k, d, s); }
  }

  lemma {:induction false} ShownKept(stack: Stack, k: Cells, k': Cells)
    requires Shown(stack, k) && k.Keys == k'.Keys
    requires forall s | s in k && k[s].valid && Open(stack, s) :: k'[s] == k[s]
    ensures Shown(stack, k')
    decreases stack
  {
    if stack.Frame? { ShownKept(stack.below, k, k'); }
  }

  lemma {:induction false} OpenValid(stack: Stack, k: Cells, s: Sym)
    requires Shown(stack, k) && Open(stack, s)
    ensures s in k && k[s].valid
    decreases stack
  {
    if stack.sym != s { OpenValid(stack.below, k, s); }
  }

  lemma ShownEnter(stack: Stack, k: Cells, s: Sym, x: Cell)
    requires Shown(stack, k) && s in k && !k[s].valid && x.valid
    ensures !Open(stack, s) && Shown(Frame(stack, s, x.curr), k[s := x])
  {
    if Open(stack, s) { OpenValid(stack, k, s); }
    assert k[s := x].Keys == k.Keys;
    ShownKept(stack, k, k[s := x]);
  }

  /** Of a symbol that is finished: for whom it was computed, and what it showed at first. */
  datatype Past = Past(callers: Stack, first: Tri)

  /** dir_dep.tri, in which m counts as y. */
  function Direct(c: Config, d: Values, p: Props): Tri {
    if Eval(c, d, p.dirDep) == MOD then YES else Eval(c, d, p.dirDep)
  }

  /** Everything in `e` has been looked at. */
  ghost predicate Seen(k: Cells, e: Option<Expr>) {
    forall s | In(e, s) && s in k :: k[s].valid
  }

  ghost predicate SeenAll(k: Cells, es: seq<Option<Expr>>) { forall e | e in es :: Seen(k, e) }

  /** Everything in the conditions of prompts, in "depends on" and in the reverse dependency. */
  ghost predicate Looked(k: Cells, p: Props) {
    SeenAll(k, p.prompts) && Seen(k, p.dirDep) && Seen(k, p.revDep)
  }

  /** The cells, and the history of those that are finished. */
  datatype State = State(c: Config, user: User, k: Cells, past: map<Sym, Past>)
  {
    /** `d` gives finished symbols their values, and those being computed what they show. */
    ghost predicate Sees(stack: Stack, d: Values) {
      ShownIn(stack, d) && forall s | s in past && s in k && !Open(stack, s) :: d(s) == k[s].curr
    }

    /** What sym_calc_visibility stores follows from `d`. */
    ghost predicate Sighted(s: Sym, d: Values)
      requires s in c.props && s in k
    {
      && k[s].visible == Visible(c, d, c.props[s])
      && k[s].dirDep == Direct(c, d, c.props[s])
      && k[s].revDep == Selected(c, d, c.props[s])
    }

    /** The user's value as far as it is visible, else the default. */
    ghost function Wanted(s: Sym, d: Values): Tri
      requires s in c.props && s in k
    {
      if k[s].visible != NO && s in user then Min(user[s], k[s].visible) else DefaultValue(c, d, c.props[s])
    }

    ghost predicate Marked(s: Sym, d: Values)
      requires s in c.props && s in k
    {
      k[s].write <==> || k[s].visible != NO || k[s].revDep != NO
                      || FirstDefault(c, d, c.props[s].defaults).Some?
    }

    /** The value and the WRITE flag follow from `d`. */
    ghost predicate Valued(s: Sym, d: Values)
      requires s in c.props && s in k
    {
      k[s].curr == Promote(c, c.props[s], Max(Wanted(s, d), k[s].revDep)) && Marked(s, d)
    }

    /** The fields of a finished symbol follow from final values, except that for symbols being
        computed at the time what they showed has been taken instead. */
    ghost predicate Finished(s: Sym) {
      s in past && s in c.props && s in k &&
      var h := past[s];
      && Linked(c, Frame(h.callers, s, NO))
      && (forall d | Sees(Frame(h.callers, s, h.first), d) :: Sighted(s, d))
      && (forall d | Sees(Frame(h.callers, s, NO), d) :: Valued(s, d))
    }

    /** What holds between calls, `stack` being computed. */
    ghost predicate Ready(stack: Stack) {
      && Typed(c) && k.Keys == c.props.Keys && Linked(c, stack) && Shown(stack, k)
      && (forall s | s in past :: s in k && k[s].valid && !Open(stack, s))
      && (forall s | s in k && k[s].valid :: s in past || Open(stack, s))
      && (forall s {:trigger Finished(s)} | s in past :: Finished(s))
    }
  }

  /** What is finished stays as it is. */
  ghost predicate Onward(a: State, b: State) {
    && a.c == b.c && a.user == b.user && a.k.Keys == b.k.Keys
    && (forall s | s in a.past :: s in b.past && b.past[s] == a.past[s])
    && (forall s | s in a.past && s in a.k :: b.k[s] == a.k[s])
  }

  /** But for the cell of `s`, if any, nothing valid has been touched; what has been finished was
      computed for the symbols on the stack. */
  ghost predicate Later(a: State, b: State, stack: Stack, s: Option<Sym>) {
    && Onward(a, b)
    && (forall t | t in a.k && a.k[t].valid :: b.k[t].valid && (s != Some(t) ==> b.k[t] == a.k[t]))
    && (forall t | t in b.past && t !in a.past :: Within(stack, b.past[t].callers))
  }

  lemma LaterGrows(a: State, b: State, stack: Stack, s: Option<Sym>)
    requires Later(a, b, stack, s)
    ensures Missing(b.k) <= Missing(a.k)
  {
    MissingLess(a.k, b.k, SYM_YES);
  }

  lemma LaterTrans(a: State, b: State, c: State, stack: Stack, s: Option<Sym>)
    requires Later(a, b, stack, s) && Later(b, c, stack, s)
    ensures Later(a, c, stack, s)
  {
  }

  lemma LaterWeaker(a: State, b: State, stack: Stack, s: Sym)
    requires Later(a, b, stack, None)
    ensures Later(a, b, stack, Some(s))
  {
  }

  lemma LaterThen(a: State, b: State, c: State, stack: Stack, s: Sym)
    requires Later(a, b, stack, None) && Later(b, c, stack, Some(s))
    ensures Later(a, c, stack, Some(s))
  {
    LaterWeaker(a, b, stack, s);
    LaterTrans(a, b, c, stack, Some(s));
  }

  /** Values that agree with a later state agree with an earlier one. */
  lemma SeesEarlier(a: State, b: State, stack: Stack, d: Values)
    requires Onward(a, b) && b.Sees(stack, d)
    ensures a.Sees(stack, d)
  {
  }

  lemma SeesAll(a: State, b: State, stack: Stack)
    requires Onward(a, b)
    ensures forall d | b.Sees(stack, d) :: a.Sees(stack, d)
  {
    forall d | b.Sees(stack, d) ensures a.Sees(stack, d) {
      SeesEarlier(a, b, stack, d);
    }
  }

  lemma FinishedOnward(a: State, b: State, s: Sym)
    requires Onward(a, b) && a.Finished(s)
    ensures b.Finished(s)
  {
    var h := a.past[s];
    forall d | b.Sees(Frame(h.callers, s, h.first), d) ensures b.Sighted(s, d) {
      SeesEarlier(a, b, Frame(h.callers, s, h.first), d);
      assert a.Sighted(s, d);
    }
    forall d | b.Sees(Frame(h.callers, s, NO), d) ensures b.Valued(s, d) {
      SeesEarlier(a, b, Frame(h.callers, s, NO), d);
      assert a.Valued(s, d);
    }
  }

  lemma AllOnward(a: State, b: State)
    requires Onward(a, b)
    ensures forall s {:trigger b.Finished(s)} | s in a.past && a.Finished(s) :: b.Finished(s)
  {
    forall s | s in a.past && a.Finished(s) ensures b.Finished(s) {
      FinishedOnward(a, b, s);
    }
  }

  /** Storing into the cell of the symbol on top. */
  lemma StoreReady(a: State, stack: Stack, s: Sym, x: Cell, shown: Tri)
    requires a.Ready(Frame(stack, s, shown)) && x.valid
    ensures s !in a.past && a.(k := a.k[s := x]).Ready(Frame(stack, s, x.curr))
  {
    var b := a.(k := a.k[s := x]);
    assert Open(Frame(stack, s, shown), s);
    assert b.k.Keys == a.k.Keys;
    ShownKept(stack, a.k, b.k);
    AllOnward(a, b);
  }

  /** Setting VALID puts a symbol on the stack. */
  lemma EnterReady(a: State, stack: Stack, s: Sym, x: Cell)
    requires a.Ready(stack) && s in a.c.props && !a.k[s].valid && Asks(a.c, stack, s) && x.valid
    ensures !Open(stack, s) && a.(k := a.k[s := x]).Ready(Frame(stack, s, x.curr))
  {
    var b := a.(k := a.k[s := x]);
    ShownEnter(stack, a.k, s, x);
    assert b.k.Keys == a.k.Keys && s !in a.past;
    AllOnward(a, b);
  }

  /** A symbol being computed may ask for what its properties mention. */
  lemma AsksOwn(c: Config, stack: Stack, s: Sym, shown: Tri)
    requires s in c.props
    ensures var p, more := c.props[s], Frame(stack, s, shown);
            && (forall e | e in p.prompts :: AsksAll(c, more, e))
            && AsksAll(c, more, p.dirDep) && AsksAll(c, more, p.revDep)
            && (forall f | f in p.defaults :: AsksAll(c, more, f.cond) && AsksAll(c, more, Some(f.value)))
  {
    var p, more := c.props[s], Frame(stack, s, shown);
    forall e, t | e in p.prompts && In(e, t) ensures Asks(c, more, t) {
      assert DependsOn(p, t);
    }
    forall f, t | f in p.defaults && (In(f.cond, t) || In(Some(f.value), t)) ensures Asks(c, more, t) {
      assert DependsOn(p, t);
    }
    forall t | In(p.dirDep, t) || In(p.revDep, t) ensures Asks(c, more, t) {
      assert DependsOn(p, t);
    }
  }

  /** What a call for `s` with its VALID flag clear leaves behind. */
  ghost predicate Entered(a: State, b: State, stack: Stack, s: Sym)
    requires s in a.c.props && s in a.k
  {
    && s in b.past && b.past[s] == Past(stack, a.k[s].curr) && Looked(b.k, a.c.props[s])
    && (forall t | t in b.past && t !in a.past && t != s ::
          || Within(Frame(stack, s, a.k[s].curr), b.past[t].callers)
          || Within(Frame(stack, s, NO), b.past[t].callers))
  }

  /** The stored value follows from what was seen: `sighted` is the state when the visibility was
      known, `wanted` that when the value was. */
  lemma FinishReady(sighted: State, wanted: State, b: State, stack: Stack, s: Sym, first: Tri, val: Tri)
    requires s in b.c.props && s in sighted.k && s in wanted.k && s in b.k && Linked(b.c, Frame(stack, s, NO))
    requires Onward(sighted, wanted) && Onward(wanted, b)
    requires forall d | sighted.Sees(Frame(stack, s, first), d) :: sighted.Sighted(s, d)
    requires forall d | wanted.Sees(Frame(stack, s, NO), d) :: val == wanted.Wanted(s, d) && wanted.Marked(s, d)
    requires wanted.k[s] == sighted.k[s].(curr := NO, write := wanted.k[s].write)
    requires b.k[s] == wanted.k[s].(curr := Promote(b.c, b.c.props[s], Max(val, wanted.k[s].revDep)))
    requires s in b.past && b.past[s] == Past(stack, first)
    ensures b.Finished(s)
  {
    forall d | b.Sees(Frame(stack, s, first), d) ensures b.Sighted(s, d) {
      SeesEarlier(wanted, b, Frame(stack, s, first), d);
      SeesEarlier(sighted, wanted, Frame(stack, s, first), d);
      assert sighted.Sighted(s, d);
    }
    forall d | b.Sees(Frame(stack, s, NO), d) ensures b.Valued(s, d) {
      SeesEarlier(wanted, b, Frame(stack, s, NO), d);
      assert val == wanted.Wanted(s, d) && wanted.Marked(s, d);
    }
  }

  /** The symbol leaves the stack. */
  lemma LeaveReady(wanted: State, b: State, stack: Stack, s: Sym, x: Cell, h: Past)
    requires wanted.Ready(Frame(stack, s, NO)) && x.valid
    requires b == wanted.(k := wanted.k[s := x], past := wanted.past[s := h])
    requires Onward(wanted, b) && b.Finished(s)
    ensures b.Ready(stack)
  {
    assert b.k.Keys == wanted.k.Keys;
    assert forall t | Open(stack, t) :: Open(Frame(stack, s, NO), t);
    ShownKept(stack, wanted.k, b.k);
    AllOnward(wanted, b);
  }

  /** The call for `s` in its two halves: from `a`, VALID being set, until its value is cleared in
      `b`, and from there until the new value is known in `c`. */
  ghost predicate Halves(a: State, x: Cell, b: State, c: State, stack: Stack, s: Sym, first: Tri) {
    && x.valid && Later(a.(k := a.k[s := x]), b, Frame(stack, s, first), Some(s))
    && Later(b, c, Frame(stack, s, NO), Some(s))
  }

  lemma HalvesKeep(a: State, x: Cell, b: State, c: State, stack: Stack, s: Sym, first: Tri, t: Sym)
    requires s in a.k && !a.k[s].valid && Halves(a, x, b, c, stack, s, first)
    requires t in a.k && a.k[t].valid
    ensures t in c.k && c.k[t] == a.k[t] && t != s
  {
    var entered := a.(k := a.k[s := x]);
    assert entered.k[t].valid && b.k[t] == a.k[t];
  }

  lemma HalvesHistory(a: State, x: Cell, b: State, c: State, stack: Stack, s: Sym, first: Tri, t: Sym)
    requires Halves(a, x, b, c, stack, s, first) && t in c.past && t !in a.past
    ensures || Within(Frame(stack, s, first), c.past[t].callers)
            || Within(Frame(stack, s, NO), c.past[t].callers)
    ensures Within(stack, c.past[t].callers)
  {
    assert t in b.past ==> Within(Frame(stack, s, first), c.past[t].callers);
    if Within(Frame(stack, s, first), c.past[t].callers) {
      WithinTrans(stack, Frame(stack, s, first), c.past[t].callers);
    } else {
      WithinTrans(stack, Frame(stack, s, NO), c.past[t].callers);
    }
  }

  /** Once the value has been stored, a call has done what it should. */
  lemma WholeLater(a: State, x: Cell, b: State, c: State, z: State, stack: Stack, s: Sym, first: Tri, y: Cell)
    requires s in a.k && !a.k[s].valid && a.k[s].curr == first && s in a.c.props && s !in c.past
    requires Halves(a, x, b, c, stack, s, first) && Looked(b.k, a.c.props[s]) && y.valid
    requires z == c.(k := c.k[s := y], past := c.past[s := Past(stack, first)])
    requires forall t | t in a.past && t in a.k :: a.k[t].valid
    ensures Later(a, z, stack, None) && Entered(a, z, stack, s)
  {
    assert z.k.Keys == c.k.Keys == a.k.Keys by { assert a.k[s := x].Keys == a.k.Keys; }
    forall t | t in a.k && a.k[t].valid ensures z.k[t] == a.k[t] {
      HalvesKeep(a, x, b, c, stack, s, first, t);
    }
    forall t | t in z.past && t !in a.past
      ensures Within(stack, z.past[t].callers)
      ensures t != s ==> || Within(Frame(stack, s, first), z.past[t].callers)
                         || Within(Frame(stack, s, NO), z.past[t].callers)
    {
      if t != s { HalvesHistory(a, x, b, c, stack, s, first, t); }
    }
    assert Looked(z.k, a.c.props[s]) by {
      assert forall t | t in b.k && b.k[t].valid :: c.k[t].valid && z.k[t].valid;
    }
  }

  lemma SeenMore(a: State, b: State, stack: Stack, es: seq<Option<Expr>>, i: nat)
    requires Later(a, b, stack, None) && i < |es| && SeenAll(a.k, es[..i]) && Seen(b.k, es[i])
    ensures SeenAll(b.k, es[..i + 1])
  {
    assert es[..i + 1] == es[..i] + [es[i]];
    forall e | e in es[..i] ensures Seen(b.k, e) {
      assert Seen(a.k, e);
    }
  }

  lemma BestSoFar(a: State, b: State, stack: Stack, conds: seq<Option<Expr>>, i: nat, tri: Tri, t: Tri)
    requires Onward(a, b) && i < |conds|
    requires forall d | a.Sees(stack, d) :: tri == Best(a.c, d, conds[..i])
    requires forall d | b.Sees(stack, d) :: t == Eval(b.c, d, conds[i])
    ensures forall d | b.Sees(stack, d) :: Max(tri, t) == Best(b.c, d, conds[..i + 1])
  {
    assert conds[..i + 1][..i] == conds[..i];
    SeesAll(a, b, stack);
  }

  lemma OnwardStored(c: State, stack: Stack, s: Sym, y: Cell, h: Past)
    requires c.Ready(Frame(stack, s, NO)) && s in c.k
    ensures s !in c.past && Onward(c, c.(k := c.k[s := y], past := c.past[s := h]))
  {
    assert Open(Frame(stack, s, NO), s);
    assert c.k[s := y].Keys == c.k.Keys;
  }

  /** Storing the value of the symbol on top and taking it off the stack. */
  lemma Stored(sighted: State, c: State, z: State, stack: Stack, s: Sym, first: Tri, val: Tri, y: Cell)
    requires c.Ready(Frame(stack, s, NO)) && Onward(sighted, c) && s in sighted.k && s in c.k && y.valid
    requires c.k[s] == sighted.k[s].(curr := NO, write := c.k[s].write) && s in c.c.props
    requires forall d | sighted.Sees(Frame(stack, s, first), d) :: sighted.Sighted(s, d)
    requires forall d | c.Sees(Frame(stack, s, NO), d) :: val == c.Wanted(s, d) && c.Marked(s, d)
    requires y == c.k[s].(curr := Promote(c.c, c.c.props[s], Max(val, c.k[s].revDep)))
    requires z == c.(k := c.k[s := y], past := c.past[s := Past(stack, first)])
    ensures z.Ready(stack) && s !in c.past
  {
    OnwardStored(c, stack, s, y, Past(stack, first));
    FinishReady(sighted, c, z, stack, s, first, val);
    LeaveReady(c, z, stack, s, y, Past(stack, first));
  }

  // ---------------------------------------------------------------- without cycles

  /** Ranks fall along what values follow from, and never rise along "depends on". */
  ghost predicate Steady(c: Config, rank: Sym -> nat) {
    && Ranked(c, rank)
    && forall s, t {:trigger In(c.props[s].dirDep, t)}
         | s in c.props && t in c.props && In(c.props[s].dirDep, t) :: rank(t) <= rank(s)
  }

  /** Then no symbol being computed has a smaller rank than what it is computed for. */
  lemma {:induction false} OpenRank(c: Config, rank: Sym -> nat, stack: Stack, s: Sym, t: Sym)
    requires Steady(c, rank) && Linked(c, stack) && s in c.props && Asks(c, stack, s) && Open(stack, t)
    ensures rank(s) <= rank(t)
    decreases stack
  {
    assert rank(s) <= rank(stack.sym);
    if stack.sym != t { OpenRank(c, rank, stack.below, stack.sym, t); }
  }

  function ShownOf(stack: Stack, s: Sym): Tri
    requires Open(stack, s)
  {
    if stack.sym == s then stack.shown else ShownOf(stack.below, s)
  }

  /** What a symbol sees, and values `d` for what has not been looked at. */
  ghost function View(a: State, stack: Stack, d: Values): Values {
    s => if Open(stack, s) then ShownOf(stack, s) else if s in a.past && s in a.k then a.k[s].curr else d(s)
  }

  lemma {:induction false} ViewShows(c: Config, stack: Stack, d: Values)
    requires Linked(c, stack) && forall s | Open(stack, s) :: d(s) == ShownOf(stack, s)
    ensures ShownIn(stack, d)
    decreases stack
  {
    if stack.Frame? {
      forall s | Open(stack.below, s) ensures d(s) == ShownOf(stack.below, s) {
        assert Open(stack, s);
      }
      ViewShows(c, stack.below, d);
    }
  }

  /** There are always values to be seen. */
  lemma ViewSeen(a: State, stack: Stack, d: Values)
    requires Linked(a.c, stack)
    ensures a.Sees(stack, View(a, stack, d))
  {
    ViewShows(a.c, stack, View(a, stack, d));
  }

  /** The fields of a symbol are those that follow from `d`. */
  ghost predicate Right(a: State, d: Values, s: Sym)
    requires s in a.c.props && s in a.k
  {
    var p := a.c.props[s];
    && a.k[s].curr == d(s) && a.k[s].visible == Visible(a.c, d, p) && a.k[s].revDep == Selected(a.c, d, p)
    && (a.k[s].write <==> Written(a.c, d, p))
  }

  /** What a finished symbol saw of what it uses was right. */
  lemma SawRight(a: State, rank: Sym -> nat, d: Values, s: Sym, shown: Tri)
    requires Steady(a.c, rank) && a.Finished(s)
    requires forall t | t in a.past && t in a.c.props && rank(t) < rank(s) :: t in a.k && a.k[t].curr == d(t)
    ensures var stack := Frame(a.past[s].callers, s, shown);
            a.Sees(stack, View(a, stack, d)) && AgreeOn(a.c, View(a, stack, d), d, a.c.props[s])
  {
    var callers, p := a.past[s].callers, a.c.props[s];
    var stack := Frame(callers, s, shown);
    assert Linked(a.c, Frame(callers, s, NO));
    ViewSeen(a, stack, d);
    forall t | t in a.c.props && Uses(p, t) ensures View(a, stack, d)(t) == d(t) {
      assert rank(t) < rank(s);
      if Open(callers, t) { OpenRank(a.c, rank, callers, s, t); }
    }
  }

  /** If there is a rank of that kind, what is finished is what the equations give. */
  lemma {:induction false} FinishedRight(a: State, rank: Sym -> nat, d: Values, s: Sym)
    requires a.Ready(Bottom) && Steady(a.c, rank) && Solves(a.c, a.user, d) && s in a.past
    ensures a.Finished(s) && Right(a, d, s)
    decreases rank(s)
  {
    assert a.Finished(s);
    forall t | t in a.past && t in a.c.props && rank(t) < rank(s) ensures t in a.k && a.k[t].curr == d(t) {
      FinishedRight(a, rank, d, t);
    }
    var h, p := a.past[s], a.c.props[s];
    var up, down := Frame(h.callers, s, h.first), Frame(h.callers, s, NO);
    SawRight(a, rank, d, s, h.first);
    SawRight(a, rank, d, s, NO);
    assert a.Sighted(s, View(a, up, d)) && a.Valued(s, View(a, down, d));
    ComputeLocal(a.c, View(a, up, d), d, p, UserOf(a.user, s));
    ComputeLocal(a.c, View(a, down, d), d, p, UserOf(a.user, s));
    assert Equation(a.c, a.user, d, s);
  }

  /** Every symbol asked for has its value in `d`. */
  ghost predicate Gives(c: Config, order: seq<Sym>, values: seq<Tri>, d: Values) {
    |values| == |order| && forall i | 0 <= i < |order| && order[i] in c.props :: values[i] == d(order[i])
  }

  class SymbolTable {
    const c: Config
    var user: User
    var k: Cells
    ghost var past: map<Sym, Past>

    constructor (c: Config, user: User)
      requires Typed(c)
      ensures this.c == c && this.user == user && Now().Ready(Bottom) && past == map[]
      ensures forall s | s in k :: !k[s].valid && k[s].curr == NO
    {
      this.c, this.user := c, user;
      k := map s | s in c.props :: Cell(false, false, NO, NO, NO, NO);
      past := map[];
    }

    ghost function Now(): State
      reads this
    {
      State(c, user, k, past)
    }

    /** curr.tri of a symbol. */
    function Current(s: Sym): Tri
      reads this
    {
      if s == SYM_YES then YES else if s == SYM_MOD then MOD
      else if s in k then k[s].curr else NO
    }

    /** A symbol that has been looked at reads as all values seen from here say. */
    lemma ReadsRight(stack: Stack, s: Sym, d: Values)
      requires Now().Ready(stack) && Now().Sees(stack, d) && (s in k ==> k[s].valid)
      ensures Current(s) == TriOf(c, d, s)
    {
      if s in k {
        assert s in c.props && s.Config?;
        if Open(stack, s) {
          ShownAlike(stack, k, d, s);
        }
      }
    }

    // --------------------------------------------------------------------- evaluation

    /** expr_calc_value: the value under final values, with what symbols being computed show. */
    method CalcExpr(e: Expr, ghost stack: Stack) returns (t: Tri)
      requires Now().Ready(stack) && AsksAll(c, stack, Some(e))
      modifies this`k, this`past
      ensures Now().Ready(stack) && Later(old(Now()), Now(), stack, None) && Seen(k, Some(e))
      ensures forall d | Now().Sees(stack, d) :: t == Value(e, Under(c, d))
      decreases Missing(k), 1, Size(e)
    {
      match e
      case Symbol(s) =>
        assert In(Some(e), s);
        CalcValue(s, stack);
        t := Current(s);
        forall d | Now().Sees(stack, d) ensures t == TriOf(c, d, s) {
          ReadsRight(stack, s, d);
        }
      case Equal(a, b) =>
        var same := CalcCompare(a, b, stack);
        t := if same then YES else NO;
      case Unequal(a, b) =>
        var same := CalcCompare(a, b, stack);
        t := if same then NO else YES;
      case Not(x) =>
        assert AsksAll(c, stack, Some(x)) by { assert forall s | In(Some(x), s) :: In(Some(e), s); }
        t := CalcExpr(x, stack);
        t := 2 - t;
      case Bin(op, l, r) =>
        t := CalcBin(op, l, r, stack);
    }

    method CalcBin(op: Op, l: Expr, r: Expr, ghost stack: Stack) returns (t: Tri)
      requires Now().Ready(stack) && AsksAll(c, stack, Some(Bin(op, l, r)))
      modifies this`k, this`past
      ensures Now().Ready(stack) && Later(old(Now()), Now(), stack, None) && Seen(k, Some(Bin(op, l, r)))
      ensures forall d | Now().Sees(stack, d) :: t == Value(Bin(op, l, r), Under(c, d))
      decreases Missing(k), 1, Size(Bin(op, l, r)), 0
    {
      assert forall s | Contains(l, s) || Contains(r, s) :: In(Some(Bin(op, l, r)), s);
      var v1 := CalcExpr(l, stack);
      LaterGrows(old(Now()), Now(), stack, None);
      ghost var middle := Now();
      var v2 := CalcExpr(r, stack);
      LaterTrans(old(Now()), middle, Now(), stack, None);
      t := Combine(op, v1, v2);
      forall d | Now().Sees(stack, d) ensures t == Value(Bin(op, l, r), Under(c, d)) {
        SeesEarlier(middle, Now(), stack, d);
      }
    }

    method CalcCompare(a: Sym, b: Sym, ghost stack: Stack) returns (same: bool)
      requires Now().Ready(stack) && AsksAll(c, stack, Some(Equal(a, b)))
      modifies this`k, this`past
      ensures Now().Ready(stack) && Later(old(Now()), Now(), stack, None) && Seen(k, Some(Equal(a, b)))
      ensures forall d | Now().Sees(stack, d) :: same == (TextOf(c, d, a) == TextOf(c, d, b))
      decreases Missing(k), 0, 2
    {
      CalcBoth(a, b, stack);
      same := TextFor(c, a, Current(a)) == TextFor(c, b, Current(b));
      forall d | Now().Sees(stack, d) ensures same == (TextOf(c, d, a) == TextOf(c, d, b)) {
        ReadsRight(stack, a, d);
        ReadsRight(stack, b, d);
      }
    }

    method CalcBoth(a: Sym, b: Sym, ghost stack: Stack)
      requires Now().Ready(stack) && AsksAll(c, stack, Some(Equal(a, b)))
      modifies this`k, this`past
      ensures Now().Ready(stack) && Later(old(Now()), Now(), stack, None)
      ensures (a in k ==> k[a].valid) && (b in k ==> k[b].valid)
      decreases Missing(k), 0, 1
    {
      assert In(Some(Equal(a, b)), a) && In(Some(Equal(a, b)), b);
      CalcValue(a, stack);
      ghost var middle := Now();
      LaterGrows(old(Now()), middle, stack, None);
      CalcValue(b, stack);
      LaterTrans(old(Now()), middle, Now(), stack, None);
    }

    method CalcCond(e: Option<Expr>, ghost stack: Stack) returns (t: Tri)
      requires Now().Ready(stack) && AsksAll(c, stack, e)
      modifies this`k, this`past
      ensures Now().Ready(stack) && Later(old(Now()), Now(), stack, None) && Seen(k, e)
      ensures forall d | Now().Sees(stack, d) :: t == Eval(c, d, e)
      decreases Missing(k), 2
    {
      if e.None? { return YES; }
      t := CalcExpr(e.value, stack);
    }

    /** No reverse dependency counts as n. */
    method CalcIfAny(e: Option<Expr>, ghost stack: Stack) returns (t: Tri)
      requires Now().Ready(stack) && AsksAll(c, stack, e)
      modifies this`k, this`past
      ensures Now().Ready(stack) && Later(old(Now()), Now(), stack, None) && Seen(k, e)
      ensures forall d | Now().Sees(stack, d) :: t == if e.None? then NO else Eval(c, d, e)
      decreases Missing(k), 3
    {
      t := NO;
      if e.Some? {
        t := CalcCond(e, stack);
      }
    }

    method CalcPrompt(prompts: seq<Option<Expr>>, i: nat, tri: Tri, ghost stack: Stack) returns (best: Tri)
      requires Now().Ready(stack) && i < |prompts| && AsksAll(c, stack, prompts[i])
      requires forall d | Now().Sees(stack, d) :: tri == Best(c, d, prompts[..i])
      modifies this`k, this`past
      ensures Now().Ready(stack) && Later(old(Now()), Now(), stack, None) && Seen(k, prompts[i])
      ensures forall d | Now().Sees(stack, d) :: best == Best(c, d, prompts[..i + 1])
      decreases Missing(k), 3
    {
      var t := CalcCond(prompts[i], stack);
      BestSoFar(old(Now()), Now(), stack, prompts, i, tri, t);
      best := Max(tri, t);
    }

    /** The loop over the prompts: the best of their conditions. */
    method CalcPrompts(prompts: seq<Option<Expr>>, ghost stack: Stack) returns (tri: Tri)
      requires Now().Ready(stack) && forall e | e in prompts :: AsksAll(c, stack, e)
      modifies this`k, this`past
      ensures Now().Ready(stack) && Later(old(Now()), Now(), stack, None)
      ensures SeenAll(k, prompts)
      ensures forall d | Now().Sees(stack, d) :: tri == Best(c, d, prompts)
      decreases Missing(k), 4
    {
      tri := NO;
      for i := 0 to |prompts|
        invariant Now().Ready(stack) && Later(old(Now()), Now(), stack, None)
        invariant SeenAll(k, prompts[..i])
        invariant forall d | Now().Sees(stack, d) :: tri == Best(c, d, prompts[..i])
      {
        LaterGrows(old(Now()), Now(), stack, None);
        ghost var middle := Now();
        tri := CalcPrompt(prompts, i, tri, stack);
        LaterTrans(old(Now()), middle, Now(), stack, None);
        SeenMore(middle, Now(), stack, prompts, i);
      }
      assert prompts[..|prompts|] == prompts;
    }

    /** sym_get_default_prop */
    method GetDefault(defaults: seq<Default>, ghost stack: Stack) returns (f: Option<Default>, cond: Tri)
      requires Now().Ready(stack) && forall f | f in defaults :: AsksAll(c, stack, f.cond)
      modifies this`k, this`past
      ensures Now().Ready(stack) && Later(old(Now()), Now(), stack, None)
      ensures forall d | Now().Sees(stack, d) ::
                f == FirstDefault(c, d, defaults) && (f.Some? ==> cond == Eval(c, d, f.value.cond))
      ensures f.Some? ==> f.value in defaults
      decreases Missing(k), 3
    {
      for i := 0 to |defaults|
        invariant Now().Ready(stack) && Later(old(Now()), Now(), stack, None)
        invariant forall d | Now().Sees(stack, d) ::
                    FirstDefault(c, d, defaults) == FirstDefault(c, d, defaults[i..])
      {
        LaterGrows(old(Now()), Now(), stack, None);
        ghost var middle := Now();
        cond := CalcCond(defaults[i].cond, stack);
        LaterTrans(old(Now()), middle, Now(), stack, None);
        assert defaults[i..][0] == defaults[i] && defaults[i..][1..] == defaults[i + 1..];
        forall d | Now().Sees(stack, d)
          ensures FirstDefault(c, d, defaults) == FirstDefault(c, d, defaults[i..])
        {
          SeesEarlier(middle, Now(), stack, d);
        }
        if cond != NO {
          return Some(defaults[i]), cond;
        }
      }
      f, cond := None, NO;
    }

    /** Store into the cell of the symbol on top of the stack. */
    method SetCell(s: Sym, x: Cell, ghost stack: Stack, ghost shown: Tri)
      requires Now().Ready(Frame(stack, s, shown)) && s in k && k[s].valid && x.valid
      modifies this`k
      ensures Now().Ready(Frame(stack, s, x.curr)) && k == old(k)[s := x]
      ensures Missing(k) == Missing(old(k)) && Later(old(Now()), Now(), Frame(stack, s, shown), Some(s))
    {
      StoreReady(Now(), stack, s, x, shown);
      MissingSame(k, s, x);
      k := k[s := x];
    }

    /** sym_calc_visibility */
    method CalcVisibility(s: Sym, ghost stack: Stack, ghost first: Tri)
      requires s in c.props && s in k && k[s].valid && k[s].curr == first && Now().Ready(Frame(stack, s, first))
      modifies this`k, this`past
      ensures s in k && k[s].curr == first && k[s].write == old(k[s].write)
      ensures Now().Ready(Frame(stack, s, first))
      ensures Later(old(Now()), Now(), Frame(stack, s, first), Some(s))
      ensures forall d | Now().Sees(Frame(stack, s, first), d) :: Now().Sighted(s, d)
      ensures Looked(k, c.props[s])
      decreases Missing(k), 6
    {
      ghost var more, start := Frame(stack, s, first), Now();
      CalcVisible(s, stack, first);
      ghost var visible := Now();
      LaterGrows(start, visible, more, Some(s));
      CalcDirect(s, stack, first);
      ghost var direct := Now();
      LaterGrows(visible, direct, more, Some(s));
      LaterTrans(start, visible, direct, more, Some(s));
      CalcReverse(s, stack, first);
      LaterTrans(start, direct, Now(), more, Some(s));
      forall d | Now().Sees(more, d) ensures Now().Sighted(s, d) {
        SeesEarlier(direct, Now(), more, d);
        SeesEarlier(visible, direct, more, d);
      }
    }

    method CalcVisible(s: Sym, ghost stack: Stack, ghost first: Tri)
      requires s in c.props && s in k && k[s].valid && k[s].curr == first && Now().Ready(Frame(stack, s, first))
      modifies this`k, this`past
      ensures s in k && k[s] == old(k[s]).(visible := k[s].visible)
      ensures Now().Ready(Frame(stack, s, first))
      ensures Later(old(Now()), Now(), Frame(stack, s, first), Some(s))
      ensures forall d | Now().Sees(Frame(stack, s, first), d) :: k[s].visible == Visible(c, d, c.props[s])
      ensures SeenAll(k, c.props[s].prompts)
      decreases Missing(k), 5
    {
      var p := c.props[s];
      AsksOwn(c, stack, s, first);
      var tri := CalcPrompts(p.prompts, Frame(stack, s, first));
      ghost var middle := Now();
      SetCell(s, k[s].(visible := Promote(c, p, tri)), stack, first);
      LaterThen(old(Now()), middle, Now(), Frame(stack, s, first), s);
      SeesAll(middle, Now(), Frame(stack, s, first));
    }

    method CalcDirect(s: Sym, ghost stack: Stack, ghost first: Tri)
      requires s in c.props && s in k && k[s].valid && k[s].curr == first && Now().Ready(Frame(stack, s, first))
      modifies this`k, this`past
      ensures s in k && k[s] == old(k[s]).(dirDep := k[s].dirDep)
      ensures Now().Ready(Frame(stack, s, first))
      ensures Later(old(Now()), Now(), Frame(stack, s, first), Some(s))
      ensures forall d | Now().Sees(Frame(stack, s, first), d) :: k[s].dirDep == Direct(c, d, c.props[s])
      ensures Seen(k, c.props[s].dirDep)
      decreases Missing(k), 4
    {
      AsksOwn(c, stack, s, first);
      var tri := CalcCond(c.props[s].dirDep, Frame(stack, s, first));
      ghost var middle := Now();
      SetCell(s, k[s].(dirDep := if tri == MOD then YES else tri), stack, first);
      LaterThen(old(Now()), middle, Now(), Frame(stack, s, first), s);
      SeesAll(middle, Now(), Frame(stack, s, first));
    }

    method CalcReverse(s: Sym, ghost stack: Stack, ghost first: Tri)
      requires s in c.props && s in k && k[s].valid && k[s].curr == first && Now().Ready(Frame(stack, s, first))
      modifies this`k, this`past
      ensures s in k && k[s] == old(k[s]).(revDep := k[s].revDep)
      ensures Now().Ready(Frame(stack, s, first))
      ensures Later(old(Now()), Now(), Frame(stack, s, first), Some(s))
      ensures forall d | Now().Sees(Frame(stack, s, first), d) :: k[s].revDep == Selected(c, d, c.props[s])
      ensures Seen(k, c.props[s].revDep)
      decreases Missing(k), 4
    {
      var p := c.props[s];
      AsksOwn(c, stack, s, first);
      var tri := CalcIfAny(p.revDep, Frame(stack, s, first));
      ghost var middle := Now();
      SetCell(s, k[s].(revDep := Promote(c, p, tri)), stack, first);
      LaterThen(old(Now()), middle, Now(), Frame(stack, s, first), s);
      SeesAll(middle, Now(), Frame(stack, s, first));
    }

    /** The user's value as far as it is visible, else the default; marks the symbol as to be
        written when there is any reason to. */
    method CalcWanted(s: Sym, ghost stack: Stack) returns (newval: Tri)
      requires s in c.props && s in k && k[s].valid && k[s].curr == NO && !k[s].write
      requires Now().Ready(Frame(stack, s, NO))
      modifies this`k, this`past
      ensures s in k && k[s] == old(k[s]).(write := k[s].write)
      ensures Now().Ready(Frame(stack, s, NO))
      ensures Later(old(Now()), Now(), Frame(stack, s, NO), Some(s))
      ensures forall d | Now().Sees(Frame(stack, s, NO), d) ::
                newval == Now().Wanted(s, d) && Now().Marked(s, d)
      decreases Missing(k), 5
    {
      if k[s].visible != NO && s in user {
        SetCell(s, k[s].(write := true), stack, NO);
        newval := Min(user[s], k[s].visible);
        return;
      }
      ghost var start, more := Now(), Frame(stack, s, NO);
      if k[s].visible != NO || k[s].revDep != NO {
        SetCell(s, k[s].(write := true), stack, NO);
      }
      ghost var middle := Now();
      newval := CalcDefault(s, stack);
      LaterTrans(start, middle, Now(), more, Some(s));
    }

    method CalcDefault(s: Sym, ghost stack: Stack) returns (newval: Tri)
      requires s in c.props && s in k && k[s].valid && k[s].curr == NO && Now().Ready(Frame(stack, s, NO))
      modifies this`k, this`past
      ensures s in k && k[s] == old(k[s]).(write := k[s].write)
      ensures Now().Ready(Frame(stack, s, NO))
      ensures Later(old(Now()), Now(), Frame(stack, s, NO), Some(s))
      ensures forall d | Now().Sees(Frame(stack, s, NO), d) ::
                && newval == DefaultValue(c, d, c.props[s])
                && (k[s].write <==> old(k[s].write) || FirstDefault(c, d, c.props[s].defaults).Some?)
      decreases Missing(k), 4
    {
      ghost var start, more := Now(), Frame(stack, s, NO);
      AsksOwn(c, stack, s, NO);
      var f, cond := GetDefault(c.props[s].defaults, more);
      if f.None? { return NO; }
      ghost var found := Now();
      LaterGrows(start, found, more, None);
      SetCell(s, k[s].(write := true), stack, NO);
      ghost var marked := Now();
      LaterThen(start, found, marked, more, s);
      newval := CalcExpr(f.value.value, more);
      LaterWeaker(marked, Now(), more, s);
      LaterTrans(start, marked, Now(), more, Some(s));
      newval := Min(newval, cond);
      forall d | Now().Sees(more, d)
        ensures newval == DefaultValue(c, d, c.props[s]) && FirstDefault(c, d, c.props[s].defaults).Some?
      {
        SeesEarlier(marked, Now(), more, d);
        SeesEarlier(found, marked, more, d);
      }
    }

    /** sym_calc_value.  Setting VALID before looking at anything else is what makes this end on
        cyclic graphs as well: a symbol met again shows its unfinished value. */
    method CalcValue(s: Sym, ghost stack: Stack)
      requires Now().Ready(stack) && Asks(c, stack, s)
      modifies this`k, this`past
      ensures Now().Ready(stack) && Later(old(Now()), Now(), stack, None)
      ensures s in k ==> k[s].valid
      ensures s in k && !old(k[s].valid) ==> Entered(old(Now()), Now(), stack, s)
      decreases Missing(k), 0, 0
    {
      if s !in c.props || k[s].valid { return; }
      ghost var a, first := Now(), k[s].curr;
      EnterReady(a, stack, s, k[s].(valid := true, write := false));
      k := k[s := k[s].(valid := true, write := false)];
      MissingLess(a.k, k, s);
      CalcCell(s, stack, a, first);
    }

    /** The cell of a symbol whose VALID flag has just been set. */
    method CalcCell(s: Sym, ghost stack: Stack, ghost a: State, ghost first: Tri)
      requires s in c.props && s in k && k[s].valid && !k[s].write && k[s].curr == first
      requires a.Ready(stack) && s in a.k && !a.k[s].valid && a.k[s].curr == first
      requires Now().Ready(Frame(stack, s, first)) && Now() == a.(k := a.k[s := k[s]])
      modifies this`k, this`past
      ensures Now().Ready(stack) && Later(a, Now(), stack, None)
      ensures s in k && k[s].valid && Entered(a, Now(), stack, s)
      decreases Missing(k), 8
    {
      ghost var x, b := k[s], Now();
      ghost var sighted := CalcSighted(s, stack, first);
      ghost var cleared := Now();
      LaterGrows(b, cleared, Frame(stack, s, first), Some(s));
      ghost var wanted := CalcCurr(s, stack, first, sighted);
      WholeLater(a, x, cleared, wanted, Now(), stack, s, first, k[s]);
    }

    /** The visibility, and the value set to n meanwhile. */
    method CalcSighted(s: Sym, ghost stack: Stack, ghost first: Tri) returns (ghost sighted: State)
      requires s in c.props && s in k && k[s].valid && k[s].curr == first && Now().Ready(Frame(stack, s, first))
      modifies this`k, this`past
      ensures s in k && k[s].write == old(k[s].write) && Now().Ready(Frame(stack, s, NO))
      ensures s in sighted.k && k[s] == sighted.k[s].(curr := NO)
      ensures Later(old(Now()), Now(), Frame(stack, s, first), Some(s)) && Looked(k, c.props[s])
      ensures Onward(sighted, Now())
      ensures forall d | sighted.Sees(Frame(stack, s, first), d) :: sighted.Sighted(s, d)
      decreases Missing(k), 7
    {
      CalcVisibility(s, stack, first);
      sighted := Now();
      SetCell(s, k[s].(curr := NO), stack, first);
      LaterTrans(old(Now()), sighted, Now(), Frame(stack, s, first), Some(s));
    }

    /** The value, which takes the symbol off the stack. */
    method CalcCurr(s: Sym, ghost stack: Stack, ghost first: Tri, ghost sighted: State)
      returns (ghost wanted: State)
      requires s in c.props && s in k && k[s].valid && !k[s].write && Now().Ready(Frame(stack, s, NO))
      requires s in sighted.k && k[s] == sighted.k[s].(curr := NO) && Onward(sighted, Now())
      requires forall d | sighted.Sees(Frame(stack, s, first), d) :: sighted.Sighted(s, d)
      modifies this`k, this`past
      ensures Later(old(Now()), wanted, Frame(stack, s, NO), Some(s)) && s !in wanted.past && Now().Ready(stack)
      ensures s in k && k[s].valid
      ensures Now() == wanted.(k := wanted.k[s := k[s]], past := wanted.past[s := Past(stack, first)])
      decreases Missing(k), 7
    {
      var newval := CalcWanted(s, stack);
      wanted := Now();
      ghost var val := newval;
      newval := Promote(c, c.props[s], Max(newval, k[s].revDep));
      k := k[s := k[s].(curr := newval)];
      past := past[s := Past(stack, first)];
      Stored(sighted, wanted, Now(), stack, s, first, val, k[s]);
    }

    /** sym_calc_value, called from outside, and then sym_get_tristate_value. */
    method ValueOf(s: Sym) returns (t: Tri)
      requires Now().Ready(Bottom)
      modifies this`k, this`past
      ensures Now().Ready(Bottom) && Later(old(Now()), Now(), Bottom, None)
      ensures s in k ==> k[s].valid && t == k[s].curr
      ensures s in k && !old(k[s].valid) ==> Entered(old(Now()), Now(), Bottom, s)
    {
      CalcValue(s, Bottom);
      t := Current(s);
      assert s in k ==> s in c.props && s.Config?;
    }

    /** Symbols are asked for their values in any order: if ranks fall along what values follow
        from and never rise along "depends on", each is the one the equations give. */
    method Evaluate(order: seq<Sym>) returns (values: seq<Tri>)
      requires Now().Ready(Bottom)
      modifies this`k, this`past
      ensures Now().Ready(Bottom) && Later(old(Now()), Now(), Bottom, None)
      ensures forall rank, d | Steady(c, rank) && Solves(c, user, d) :: Gives(c, order, values, d)
    {
      values := [];
      for i := 0 to |order|
        invariant Now().Ready(Bottom) && Later(old(Now()), Now(), Bottom, None) && |values| == i
        invariant forall j | 0 <= j < i && order[j] in c.props :: k[order[j]].valid && values[j] == k[order[j]].curr
      {
        ghost var middle := Now();
        var t := ValueOf(order[i]);
        LaterTrans(old(Now()), middle, Now(), Bottom, None);
        values := values + [t];
      }
      forall rank, d | Steady(c, rank) && Solves(c, user, d) ensures Gives(c, order, values, d) {
        forall i | 0 <= i < |order| && order[i] in c.props ensures values[i] == d(order[i]) {
          FinishedRight(Now(), rank, d, order[i]);
        }
      }
    }

    /** The user's values have changed, and sym_clear_all_valid: what was computed is only shown
        until it is computed again. */
    method ClearAllValid(user: User)
      requires Now().Ready(Bottom)
      modifies this
      ensures Now().Ready(Bottom) && this.user == user && past == map[]
      ensures forall s | s in k :: k[s] == old(k)[s].(valid := false)
    {
      this.user := user;
      k := map s | s in k :: k[s].(valid := false);
      past := map[];
    }
  }
}
