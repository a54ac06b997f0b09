/** The minimal configuration file: conf_write_defconfig and reading it back
    (scripts/kconfig/confdata.c), for bool and tristate symbols outside choices. */
module Defconfig {
  import opened Basics
  import opened KconfigExpr
  import opened SymbolMeaning
  import L = ConfLine
  import F = ConfFile

  /** sym_is_changable */
  predicate Changeable(c: Config, d: Values, p: Props) {
    Visible(c, d, p) > Selected(c, d, p)
  }

  /** sym_get_string_default, as a tristate: the value the symbol has without a user value. */
  function StringDefault(c: Config, d: Values, p: Props): Tri {
    var val := Max(DefaultValue(c, d, p), Selected(c, d, p));
    var val' := if val == MOD && c.modules == NO then YES else val;
    if !p.tristate && val' == MOD then YES else val'
  }

  /** Does the symbol get a line? */
  predicate Saves(c: Config, d: Values, s: Sym)
    requires s in c.props
  {
    var p := c.props[s];
    Written(c, d, p) && Changeable(c, d, p) && d(s) != StringDefault(c, d, p)
  }

  /** The user values that a minimal configuration holds. */
  function Saved(c: Config, d: Values): User {
    map s | s in c.props && Saves(c, d, s) :: d(s)
  }

  lemma WithoutUser(c: Config, d: Values, p: Props)
    ensures Compute(c, d, p, None) == StringDefault(c, d, p)
  {
  }

  /** Every symbol the user cannot change has its default value. */
  ghost predicate Settled(c: Config, d: Values) {
    forall s {:trigger c.props[s]} | s in c.props && !Changeable(c, d, c.props[s]) ::
      d(s) == StringDefault(c, d, c.props[s])
  }

  /** One symbol: a saved value, or none, gives back the value, if all it depends on has come
      back and an unchangeable symbol has its default. */
  lemma SymbolComesBack(c: Config, u: User, d: Values, d': Values, s: Sym)
    requires s in c.props && Equation(c, u, d, s)
    requires d'(s) == Compute(c, d', c.props[s], UserOf(Saved(c, d), s))
    requires AgreeOn(c, d, d', c.props[s])
    requires !Changeable(c, d, c.props[s]) ==> d(s) == StringDefault(c, d, c.props[s])
    ensures d'(s) == d(s)
  {
    var p := c.props[s];
    ComputeLocal(c, d, d', p, UserOf(Saved(c, d), s));
    WithoutUser(c, d, p);
    if !Saves(c, d, s) && Changeable(c, d, p) {
      assert Written(c, d, p);
    }
  }

  lemma {:induction false} AllComeBack(c: Config, u: User, d: Values, d': Values, rank: Sym -> nat, s: Sym)
    requires Ranked(c, rank) && Solves(c, u, d) && Solves(c, Saved(c, d), d') && Settled(c, d)
    requires s in c.props
    ensures d'(s) == d(s)
    decreases rank(s)
  {
    forall t | t in c.props && Uses(c.props[s], t) ensures d(t) == d'(t) {
      AllComeBack(c, u, d, d', rank, t);
    }
    assert Equation(c, u, d, s) && Equation(c, Saved(c, d), d', s);
    SymbolComesBack(c, u, d, d', s);
  }

  /** Clearing all user values and reading back what was saved restores every value, if and
      only if no unchangeable symbol had a value other than its default. */
  lemma RoundTripIff(c: Config, u: User, d: Values, d': Values, rank: Sym -> nat)
    requires Ranked(c, rank) && Solves(c, u, d) && Solves(c, Saved(c, d), d')
    ensures (forall s | s in c.props :: d'(s) == d(s)) <==> Settled(c, d)
  {
    if Settled(c, d) {
      forall s | s in c.props ensures d'(s) == d(s) {
        AllComeBack(c, u, d, d', rank, s);
      }
    }
    if forall s | s in c.props :: d'(s) == d(s) {
      forall s | s in c.props && !Changeable(c, d, c.props[s])
        ensures d(s) == StringDefault(c, d, c.props[s])
      {
        assert Equation(c, Saved(c, d), d', s);
        ComputeLocal(c, d, d', c.props[s], None);
        WithoutUser(c, d, c.props[s]);
      }
    }
  }

  /** With modules off nothing is m, and the condition always holds. */
  lemma RoundTripTwoValued(c: Config, u: User, d: Values, d': Values, rank: Sym -> nat, s: Sym)
    requires c.modules == NO && Ranked(c, rank) && Solves(c, u, d) && Solves(c, Saved(c, d), d')
    requires s in c.props
    ensures d'(s) == d(s)
  {
    forall t | t in c.props && !Changeable(c, d, c.props[t])
      ensures d(t) == StringDefault(c, d, c.props[t])
    {
      assert Equation(c, u, d, t);
    }
    RoundTripIff(c, u, d, d', rank);
  }

  lemma {:induction false} LowerComeBack(c: Config, u: User, d: Values, d': Values, rank: Sym -> nat, s: Sym, t: Sym)
    requires Ranked(c, rank) && Solves(c, u, d) && Settled(c, d) && s in c.props
    requires Solves(c, Saved(c, d) - {s}, d')
    requires t in c.props && rank(t) <= rank(s) && t != s
    ensures d'(t) == d(t)
    decreases rank(t)
  {
    forall x | x in c.props && Uses(c.props[t], x) ensures d(x) == d'(x) {
      LowerComeBack(c, u, d, d', rank, s, x);
    }
    assert Equation(c, u, d, t) && Equation(c, Saved(c, d) - {s}, d', t);
    assert UserOf(Saved(c, d) - {s}, t) == UserOf(Saved(c, d), t);
    SymbolComesBack(c, u, d, d', t);
  }

  /** The configuration is minimal: without the line of a symbol the symbol gets another value,
      all that it follows from being restored. */
  lemma EveryLineNeeded(c: Config, u: User, d: Values, d': Values, rank: Sym -> nat, s: Sym)
    requires Ranked(c, rank) && Solves(c, u, d) && Settled(c, d) && s in Saved(c, d)
    requires Solves(c, Saved(c, d) - {s}, d')
    ensures d'(s) != d(s)
  {
    forall x | x in c.props && Uses(c.props[s], x) ensures d(x) == d'(x) {
      LowerComeBack(c, u, d, d', rank, s, x);
    }
    assert Equation(c, Saved(c, d) - {s}, d', s) && s !in Saved(c, d) - {s};
    ComputeLocal(c, d, d', c.props[s], None);
    WithoutUser(c, d, c.props[s]);
  }

  /** Nothing else can have a line: a symbol whose value the program would give it anyway has
      none. */
  lemma DefaultHasNoLine(c: Config, d: Values, s: Sym)
    requires s in c.props && d(s) == Compute(c, d, c.props[s], None)
    ensures s !in Saved(c, d)
  {
    WithoutUser(c, d, c.props[s]);
  }

  // ---------------------------------------------------------- where it does not hold

  const T := Sym.Config("T", Tristate)

  /** A prompt visible as m, selected as m, on by default. */
  const STUCK := SymbolMeaning.Config.Config(
    map[T := Props(true, [Some(Symbol(SYM_MOD))], [Default(None, Symbol(SYM_YES))], None, Some(Symbol(SYM_MOD)))],
    YES, _ => "")

  /** The user asks for m and gets it, but it is not saved; read back, it is y. */
  lemma StuckSymbolChanges()
    ensures Compute(STUCK, _ => MOD, STUCK.props[T], Some(MOD)) == MOD
    ensures Saved(STUCK, _ => MOD) == map[]
    ensures forall d: Values :: Compute(STUCK, d, STUCK.props[T], None) == YES
  {
    var p := STUCK.props[T];
    assert SYM_MOD != SYM_YES by { assert "m"[0] != "y"[0]; }
    assert [Some(Symbol(SYM_MOD))][..0] == [];
    forall d: Values
      ensures Visible(STUCK, d, p) == MOD && Selected(STUCK, d, p) == MOD && DefaultValue(STUCK, d, p) == YES
    {
      assert Best(STUCK, d, []) == NO;
      assert Eval(STUCK, d, Some(Symbol(SYM_MOD))) == MOD;
      assert Best(STUCK, d, p.prompts) == MOD;
      assert FirstDefault(STUCK, d, p.defaults) == Some(p.defaults[0]);
    }
  }

  // ---------------------------------------------------------------------- the file

  /** Symbols have names of their own, as the parser of .config files takes them. */
  ghost predicate Named(c: Config) {
    && (forall s | s in c.props :: F.IsSymName(s.name))
    && (forall s, t | s in c.props && t in c.props && s.name == t.name :: s == t)
  }

  function KindOf(p: Props): L.Kind { if p.tristate then L.Tristate else L.Boolean }

  function KindsOf(c: Config): F.Kinds
    requires Named(c)
  {
    map s | s in c.props :: s.name := KindOf(c.props[s])
  }

  /** The entries of a configuration file. */
  function EntriesOf(out: seq<(Sym, Tri)>): (es: seq<F.Entry>)
    ensures |es| == |out|
  {
    seq(|out|, i requires 0 <= i < |out| => F.Entry(out[i].0.name, L.Truth(out[i].1)))
  }

  /** The user values that the reader of a file leaves behind. */
  function UserOfDefs(c: Config, defs: F.Defs): User {
    map s | s in c.props && s.name in defs && defs[s.name].Truth? :: defs[s.name].t
  }

  /** What may be written: values of symbols, each once, none that a bool cannot have. */
  ghost predicate Writable(c: Config, out: seq<(Sym, Tri)>) {
    && (forall x | x in out :: x.0 in c.props && (!c.props[x.0].tristate ==> x.1 != MOD))
    && (forall i, j | 0 <= i < j < |out| :: out[i].0 != out[j].0)
  }

  lemma EntriesSuit(c: Config, out: seq<(Sym, Tri)>)
    requires Named(c) && Writable(c, out)
    ensures F.DistinctNames(EntriesOf(out))
    ensures forall e | e in EntriesOf(out) ::
              e.name in KindsOf(c) && F.IsSymName(e.name) && F.Suits(KindsOf(c)[e.name], e.v) && F.OneLine(e.v)
  {
    var es := EntriesOf(out);
    forall e | e in es
      ensures e.name in KindsOf(c) && F.IsSymName(e.name) && F.Suits(KindsOf(c)[e.name], e.v) && F.OneLine(e.v)
    {
      var i :| 0 <= i < |es| && es[i] == e;
      assert out[i] in out && out[i].0 in c.props;
    }
    forall i, j | 0 <= i < j < |es| ensures es[i].name != es[j].name {
      assert out[i] in out && out[j] in out;
    }
  }

  lemma LineHasNoNul(name: string, kind: L.Kind, t: Tri)
    requires F.IsSymName(name)
    ensures L.NUL !in F.PrintSymbol(name, kind, L.Truth(t))
  {
    assert L.NUL !in name;
  }

  lemma {:induction false} PrintedHasNoNul(es: seq<F.Entry>, kinds: F.Kinds)
    requires forall e | e in es :: e.name in kinds && F.IsSymName(e.name) && e.v.Truth?
    ensures L.NUL !in F.PrintAll(es, kinds)
    decreases |es|
  {
    if es != [] {
      assert es[0] in es;
      LineHasNoNul(es[0].name, kinds[es[0].name], es[0].v.t);
      PrintedHasNoNul(es[1..], kinds);
    }
  }

  /** One symbol: its user value is that of its line, if it has one. */
  ghost predicate ReadsAs(out: seq<(Sym, Tri)>, u: User, s: Sym) {
    (s in u <==> exists t :: (s, t) in out) && (s in u ==> (s, u[s]) in out)
  }

  /** What the entries of the lines set gives exactly the values of the lines. */
  lemma LinesReadBack(c: Config, out: seq<(Sym, Tri)>, defs: F.Defs, s: Sym)
    requires Named(c) && Writable(c, out) && s in c.props && defs == F.AsDefs(map[], EntriesOf(out))
    ensures ReadsAs(out, UserOfDefs(c, defs), s)
  {
    var es := EntriesOf(out);
    EntriesSuit(c, out);
    if i :| 0 <= i < |out| && out[i].0 == s {
      assert es[i] in es && out[i] == (s, out[i].1);
      F.AsDefsHolds(map[], es, es[i]);
    } else {
      forall e | e in es ensures e.name != s.name {
        var i :| 0 <= i < |es| && es[i] == e;
        assert out[i] in out;
      }
      F.AsDefsKeeps(map[], es, s.name);
    }
  }

  // -------------------------------------------------------------------- the program

  /** The lines for some menu entries, in order: a symbol with several is looked at once. */
  function LinesFor(c: Config, d: Values, entries: seq<Sym>): seq<(Sym, Tri)>
    requires forall s | s in entries :: s in c.props
  {
    if entries == [] then []
    else
      var before, s := entries[..|entries| - 1], entries[|entries| - 1];
      LinesFor(c, d, before) + if s !in before && Saves(c, d, s) then [(s, d(s))] else []
  }

  lemma OneMoreLine(c: Config, lines: seq<(Sym, Tri)>, before: seq<Sym>, s: Sym, t: Tri)
    requires Writable(c, lines) && s in c.props && (!c.props[s].tristate ==> t != MOD)
    requires forall x, y :: (x, y) in lines ==> x in before
    ensures s !in before ==> Writable(c, lines + [(s, t)])
  {
    forall i | 0 <= i < |lines| && s !in before ensures lines[i].0 != s {
      assert (lines[i].0, lines[i].1) in lines;
    }
  }

  /** They hold exactly the values to be saved, each once. */
  lemma {:induction false} LinesForSaved(c: Config, d: Values, entries: seq<Sym>)
    requires forall s | s in entries :: s in c.props
    requires forall s | s in c.props && !c.props[s].tristate :: d(s) != MOD
    ensures Writable(c, LinesFor(c, d, entries))
    ensures forall s, t :: (s, t) in LinesFor(c, d, entries) <==> s in entries && Saves(c, d, s) && t == d(s)
    decreases |entries|
  {
    if entries != [] {
      var before, s := entries[..|entries| - 1], entries[|entries| - 1];
      assert entries == before + [s];
      LinesForSaved(c, d, before);
      OneMoreLine(c, LinesFor(c, d, before), before, s, d(s));
    }
  }

  function SymbolsOf(lines: seq<(Sym, Tri)>): seq<Sym> {
    seq(|lines|, i requires 0 <= i < |lines| => lines[i].0)
  }

  /** The lines stand in menu order. */
  lemma {:induction false} LinesInMenuOrder(c: Config, d: Values, entries: seq<Sym>)
    requires forall s | s in entries :: s in c.props
    ensures InOrderOf(SymbolsOf(LinesFor(c, d, entries)), entries)
    decreases |entries|
  {
    if entries != [] {
      var before, s := entries[..|entries| - 1], entries[|entries| - 1];
      assert entries == before + [s];
      var lines := LinesFor(c, d, before);
      LinesInMenuOrder(c, d, before);
      InOrderMore(SymbolsOf(lines), before, s);
      assert SymbolsOf(lines + [(s, d(s))]) == SymbolsOf(lines) + [s];
      assert lines + [] == lines;
    }
  }

  lemma PrintOneMore(c: Config, out: seq<(Sym, Tri)>, s: Sym, t: Tri)
    requires Named(c) && s in c.props && forall e | e in EntriesOf(out) :: e.name in KindsOf(c)
    ensures forall e | e in EntriesOf(out + [(s, t)]) :: e.name in KindsOf(c)
    ensures F.PrintAll(EntriesOf(out + [(s, t)]), KindsOf(c))
         == F.PrintAll(EntriesOf(out), KindsOf(c)) + F.PrintSymbol(s.name, KindOf(c.props[s]), L.Truth(t))
  {
    var one := [F.Entry(s.name, L.Truth(t))];
    assert EntriesOf(out + [(s, t)]) == EntriesOf(out) + one;
    F.PrintAllAppend(EntriesOf(out), one, KindsOf(c));
    assert one[1..] == [];
  }

  lemma LinesForNext(c: Config, d: Values, entries: seq<Sym>, n: nat)
    requires n < |entries| && forall s | s in entries :: s in c.props
    ensures var s := entries[n];
            LinesFor(c, d, entries[..n + 1])
            == LinesFor(c, d, entries[..n]) + if s !in entries[..n] && Saves(c, d, s) then [(s, d(s))] else []
  {
    assert entries[..n + 1][..n] == entries[..n];
  }

  /** At the n-th entry the symbols not met yet have their WRITE flag, if they are to be written. */
  ghost predicate Flagged(c: Config, d: Values, entries: seq<Sym>, n: nat, write: set<Sym>)
    requires n <= |entries| && forall s | s in entries :: s in c.props
  {
    forall s | s in entries :: s in write <==> s !in entries[..n] && Written(c, d, c.props[s])
  }

  lemma FlaggedNext(c: Config, d: Values, entries: seq<Sym>, n: nat, write: set<Sym>)
    requires n < |entries| && forall s | s in entries :: s in c.props
    requires Flagged(c, d, entries, n, write)
    ensures entries[n] in write <==> entries[n] !in entries[..n] && Written(c, d, c.props[entries[n]])
    ensures Flagged(c, d, entries, n + 1, write - {entries[n]})
  {
    assert entries[..n + 1] == entries[..n] + [entries[n]];
  }

  /** The loop of conf_write_defconfig over the symbols of the menu entries, in menu order.  A
      symbol with several entries is looked at once: its WRITE flag is cleared then. */
  method WriteDefconfig(c: Config, d: Values, entries: seq<Sym>) returns (text: string)
    requires Named(c) && forall s | s in entries :: s in c.props
    requires forall s | s in c.props && !c.props[s].tristate :: d(s) != MOD
    ensures forall e | e in EntriesOf(LinesFor(c, d, entries)) :: e.name in KindsOf(c)
    ensures text == F.PrintAll(EntriesOf(LinesFor(c, d, entries)), KindsOf(c))
  {
    text := "";
    ghost var out: seq<(Sym, Tri)> := [];
    var write := set s | s in entries && Written(c, d, c.props[s]);
    for n := 0 to |entries|
      invariant Flagged(c, d, entries, n, write) && out == LinesFor(c, d, entries[..n])
      invariant forall e | e in EntriesOf(out) :: e.name in KindsOf(c)
      invariant text == F.PrintAll(EntriesOf(out), KindsOf(c))
    {
      var s := entries[n];
      var p := c.props[s];
      LinesForNext(c, d, entries, n);
      FlaggedNext(c, d, entries, n, write);
      if s in write {
        if Changeable(c, d, p) && d(s) != StringDefault(c, d, p) {
          PrintOneMore(c, out, s, d(s));
          text := text + F.PrintSymbol(s.name, KindOf(p), L.Truth(d(s)));
          out := out + [(s, d(s))];
        }
      }
      write := write - {s};
    }
    assert entries[..|entries|] == entries;
  }

  lemma ReadsAsSaved(c: Config, d: Values, entries: seq<Sym>, out: seq<(Sym, Tri)>, u: User)
    requires forall s :: s in entries <==> s in c.props
    requires forall s, t :: (s, t) in out <==> s in entries && Saves(c, d, s) && t == d(s)
    requires u.Keys <= c.props.Keys && forall s | s in c.props :: ReadsAs(out, u, s)
    ensures u == Saved(c, d)
  {
    forall s | s in c.props
      ensures s in u <==> s in Saved(c, d)
      ensures s in u ==> u[s] == d(s)
    {
      assert ReadsAs(out, u, s);
      if Saves(c, d, s) { assert (s, d(s)) in out; }
    }
  }

  /** Writing a minimal configuration and reading the text back yields exactly the saved
      values. */
  method SaveAndLoad(c: Config, d: Values, entries: seq<Sym>) returns (u: User)
    requires Named(c) && forall s :: s in entries <==> s in c.props
    requires forall s | s in c.props && !c.props[s].tristate :: d(s) != MOD
    ensures u == Saved(c, d)
  {
    var text := WriteDefconfig(c, d, entries);
    ghost var out := LinesFor(c, d, entries);
    LinesForSaved(c, d, entries);
    EntriesSuit(c, out);
    PrintedHasNoNul(EntriesOf(out), KindsOf(c));
    var reader := new F.Reader(KindsOf(c));
    reader.ReadConf(text);
    F.FileReadsBack(map[], KindsOf(c), EntriesOf(out));
    u := UserOfDefs(c, reader.defs);
    forall s | s in c.props ensures ReadsAs(out, u, s) {
      LinesReadBack(c, out, reader.defs, s);
    }
    ReadsAsSaved(c, d, entries, out, u);
  }
}
