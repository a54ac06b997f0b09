/** The search for recursive dependencies: sym_check_deps and the functions around it
    (scripts/kconfig/symbol.c), for symbols outside choices. */
module SymbolCheck {
  import opened Basics
  import opened KconfigExpr
  import opened KconfigTransform

  datatype Property =
    | PromptProp(visible: Option<Expr>)
    | DefaultProp(visible: Option<Expr>, expr: Expr)
    | SelectProp(visible: Option<Expr>)

  datatype Node = Node(revDep: Option<Expr>, props: seq<Property>)

  /** The definitions of all symbols; others depend on nothing. */
  type Graph = map<Sym, Node>

  /** What a property makes its symbol depend on.  A "select" shows in the reverse dependency
      of the selected symbol instead. */
  predicate PropUses(p: Property, s: Sym) {
    match p
    case PromptProp(v) => In(v, s)
    case DefaultProp(v, e) => In(v, s) || Contains(e, s)
    case SelectProp(_) => false
  }

  /** `a` depends on `b`. */
  predicate Edge(g: Graph, a: Sym, b: Sym) {
    a in g && (In(g[a].revDep, b) || exists p | p in g[a].props :: PropUses(p, b))
  }

  /** Each symbol depends on the next. */
  ghost predicate Path(g: Graph, p: seq<Sym>) {
    forall i | 0 <= i < |p| - 1 :: Edge(g, p[i], p[i + 1])
  }

  /** ... and the last one on the first. */
  ghost predicate Cycle(g: Graph, p: seq<Sym>) {
    p != [] && Path(g, p) && Edge(g, p[|p| - 1], p[0])
  }

  /** Every symbol comes after all it depends on. */
  ghost predicate Sorted(g: Graph, order: seq<Sym>) {
    forall i, b {:trigger Edge(g, order[i], b)} | 0 <= i < |order| && Edge(g, order[i], b) :: b in order[..i]
  }

  lemma {:induction false} PlacesFall(g: Graph, order: seq<Sym>, p: seq<Sym>, n: nat)
    requires Sorted(g, order) && Path(g, p) && n < |p| && p[0] in order
    ensures p[n] in order && Place(order, p[n]) + n <= Place(order, p[0])
    decreases n
  {
    if n > 0 {
      PlacesFall(g, order, p, n - 1);
      var a, b := p[n - 1], p[n];
      assert Edge(g, order[Place(order, a)], b);
    }
  }

  /** Nothing sorted depends on a symbol that is not before it. */
  lemma NotBefore(g: Graph, order: seq<Sym>, a: Sym, b: Sym)
    requires Sorted(g, order) && a in order && b in order && Place(order, a) <= Place(order, b)
    ensures !Edge(g, a, b)
  {
    var i := Place(order, a);
    assert Edge(g, a, b) == Edge(g, order[i], b);
  }

  /** If every symbol that depends on anything can be sorted, there is no cycle. */
  lemma SortedHasNoCycle(g: Graph, order: seq<Sym>, p: seq<Sym>)
    requires Sorted(g, order) && (forall a, b | Edge(g, a, b) :: a in order)
    ensures !Cycle(g, p)
  {
    if p != [] && Path(g, p) && p[0] in order {
      PlacesFall(g, order, p, |p| - 1);
      NotBefore(g, order, p[|p| - 1], p[0]);
    }
  }

  /** The symbols marked CHECK are those on the stack, each once, and the stack is a path. */
  ghost predicate OnStack(g: Graph, check: set<Sym>, checked: set<Sym>, stack: seq<Sym>) {
    && (forall s :: s in check <==> s in stack)
    && (forall i, j | 0 <= i < j < |stack| :: stack[i] != stack[j])
    && Path(g, stack) && check <= checked
  }

  /** What is checked and not on the stack is sorted. */
  ghost predicate InOrder(g: Graph, check: set<Sym>, checked: set<Sym>, order: seq<Sym>) {
    Sorted(g, order) && forall s :: s in order <==> s in checked && s !in check
  }

  lemma SegmentIsCycle(g: Graph, p: seq<Sym>, i: nat)
    requires Path(g, p) && i < |p| && Edge(g, p[|p| - 1], p[i])
    ensures Cycle(g, p[i..])
  {
    var r := p[i..];
    forall j | 0 <= j < |r| - 1 ensures Edge(g, r[j], r[j + 1]) {
      assert r[j] == p[i + j] && r[j + 1] == p[i + j + 1];
    }
  }

  lemma Enter(g: Graph, check: set<Sym>, checked: set<Sym>, stack: seq<Sym>, s: Sym)
    requires OnStack(g, check, checked, stack) && s !in check
    requires stack != [] ==> Edge(g, stack[|stack| - 1], s)
    ensures OnStack(g, check + {s}, checked + {s}, stack + [s])
  {
    var more := stack + [s];
    forall i | 0 <= i < |more| - 1 ensures Edge(g, more[i], more[i + 1]) {
      if i < |stack| - 1 { assert more[i] == stack[i] && more[i + 1] == stack[i + 1]; }
    }
  }

  lemma Leave(g: Graph, check: set<Sym>, checked: set<Sym>, stack: seq<Sym>, s: Sym)
    requires OnStack(g, check, checked, stack) && stack != [] && stack[|stack| - 1] == s
    ensures OnStack(g, check - {s}, checked, stack[..|stack| - 1])
  {
    var less := stack[..|stack| - 1];
    assert stack == less + [s];
    forall i | 0 <= i < |less| - 1 ensures Edge(g, less[i], less[i + 1]) {
      assert less[i] == stack[i] && less[i + 1] == stack[i + 1];
    }
    forall t ensures t in check - {s} <==> t in less {
      if t in less {
        var i :| 0 <= i < |less| && less[i] == t;
        assert stack[i] != stack[|stack| - 1];
      }
    }
  }

  lemma Finish(g: Graph, check: set<Sym>, checked: set<Sym>, order: seq<Sym>, s: Sym)
    requires InOrder(g, check, checked, order) && s in check && s in checked
    requires forall t | Edge(g, s, t) :: t in checked && t !in check
    ensures InOrder(g, check - {s}, checked, order + [s])
  {
    var more := order + [s];
    forall i, t | 0 <= i < |more| && Edge(g, more[i], t) ensures t in more[..i] {
      if i < |order| {
        assert Edge(g, order[i], t);
        assert more[..i] == order[..i];
      } else {
        assert more[..i] == order;
      }
    }
  }

  class DependencySearch {
    const g: Graph
    /** The symbols with the CHECK and with the CHECKED flag. */
    var check: set<Sym>
    var checked: set<Sym>
    /** check_top and below; and the stack segments that were printed. */
    var stack: seq<Sym>
    var reports: seq<seq<Sym>>
    /** As long as nothing was reported: what is finished, in the order of finishing. */
    ghost var order: seq<Sym>

    ghost predicate Valid()
      reads this
    {
      && OnStack(g, check, checked, stack)
      && (forall r | r in reports :: Cycle(g, r))
      && (reports == [] ==> InOrder(g, check, checked, order))
    }

    constructor (g: Graph)
      ensures Valid() && this.g == g && stack == [] && reports == [] && checked == {}
    {
      this.g := g;
      check, checked, stack, reports, order := {}, {}, [], [], [];
    }

    /** Defined symbols not looked at yet. */
    ghost function Missing(): nat
      reads this
    {
      |g.Keys - checked|
    }

    /** What a call leaves as it was, and what it only adds to. */
    twostate predicate Restored()
      reads this
    {
      && stack == old(stack) && check == old(check)
      && old(checked) <= checked && old(reports) <= reports
    }

    /** The symbol is finished: checked, and not being checked. */
    ghost predicate Finished(s: Sym)
      reads this
    {
      s in checked && s !in check
    }

    /** The symbol the innermost call is about depends on `s`. */
    ghost predicate Next(s: Sym)
      reads this
    {
      stack != [] ==> Edge(g, stack[|stack| - 1], s)
    }

    /** sym_check_print_recursive: the stack from the symbol met again to the top. */
    method PrintRecursive(s: Sym)
      requires Valid() && s in check && Next(s)
      modifies this`reports
      ensures Valid() && Restored() && reports != []
      ensures exists i :: 0 <= i < |stack| && stack[i] == s && reports == old(reports) + [stack[i..]]
    {
      var i := |stack| - 1;
      while stack[i] != s
        invariant 0 <= i < |stack| && s in stack[..i + 1]
        decreases i
      {
        i := i - 1;
      }
      SegmentIsCycle(g, stack, i);
      reports := reports + [stack[i..]];
    }

    /** sym_check_expr_deps */
    method CheckExprDeps(e: Expr) returns (r: Option<Sym>)
      requires Valid() && forall s | Contains(e, s) :: Next(s)
      modifies this
      ensures Valid() && Restored()
      ensures reports == [] ==> r == None && forall s | Contains(e, s) :: Finished(s)
      ensures r.Some? ==> reports != [] && r.value in stack
      decreases Missing(), 1, Size(e)
    {
      match e
      case Symbol(s) => r := CheckDeps(s);
      case Equal(a, b) => r := CheckTwo(a, b);
      case Unequal(a, b) => r := CheckTwo(a, b);
      case Not(x) => r := CheckExprDeps(x);
      case Bin(_, a, b) =>
        r := CheckBoth(e, a, b);
    }

    lemma MissingLess(a: set<Sym>, b: set<Sym>)
      requires a <= b
      ensures |g.Keys - b| <= |g.Keys - a|
      ensures forall s | s in g && s !in a && s in b :: |g.Keys - b| < |g.Keys - a|
    {
      SubsetSize(g.Keys - b, g.Keys - a);
      forall s | s in g && s !in a && s in b ensures |g.Keys - b| < |g.Keys - a| {
        SubsetSize(g.Keys - b, g.Keys - a - {s});
      }
    }

    method CheckBoth(e: Expr, a: Expr, b: Expr) returns (r: Option<Sym>)
      requires Valid() && (forall s | Contains(a, s) :: Next(s)) && (forall s | Contains(b, s) :: Next(s))
      requires e.Bin? && e.l == a && e.r == b
      modifies this
      ensures Valid() && Restored()
      ensures reports == [] ==> r == None && forall s | Contains(a, s) || Contains(b, s) :: Finished(s)
      ensures r.Some? ==> reports != [] && r.value in stack
      decreases Missing(), 1, Size(e), 0
    {
      r := CheckExprDeps(a);
      MissingLess(old(checked), checked);
      if r == None {
        assert forall s | Contains(b, s) :: Next(s);
        r := CheckExprDeps(b);
      }
    }

    method CheckTwo(a: Sym, b: Sym) returns (r: Option<Sym>)
      requires Valid() && Next(a) && Next(b)
      modifies this
      ensures Valid() && Restored()
      ensures reports == [] ==> r == None && Finished(a) && Finished(b)
      ensures r.Some? ==> reports != [] && r.value in stack
      decreases Missing(), 0, 1
    {
      r := CheckDeps(a);
      MissingLess(old(checked), checked);
      if r == None {
        r := CheckDeps(b);
      }
    }

    method CheckOptional(e: Option<Expr>) returns (r: Option<Sym>)
      requires Valid() && forall s | In(e, s) :: Next(s)
      modifies this
      ensures Valid() && Restored()
      ensures reports == [] ==> r == None && forall s | In(e, s) :: Finished(s)
      ensures r.Some? ==> reports != [] && r.value in stack
      decreases Missing(), 2
    {
      if e.None? { return None; }
      r := CheckExprDeps(e.value);
    }

    /** The loop of sym_check_sym_deps over the properties, after the reverse dependency. */
    method CheckSymDeps(s: Sym) returns (r: Option<Sym>)
      requires Valid() && s in g && stack != [] && stack[|stack| - 1] == s
      modifies this
      ensures Valid() && Restored()
      ensures reports == [] ==> r == None && forall t | Edge(g, s, t) :: Finished(t)
      ensures r.Some? ==> reports != [] && r.value in stack
      decreases Missing(), 4
    {
      var props := g[s].props;
      r := CheckOptional(g[s].revDep);
      if r.Some? { return; }
      for i := 0 to |props|
        invariant Valid() && Restored() && r == None
        invariant reports == [] ==> forall t | In(g[s].revDep, t) :: Finished(t)
        invariant reports == [] ==> forall p, t | p in props[..i] && PropUses(p, t) :: Finished(t)
      {
        MissingLess(old(checked), checked);
        r := CheckProperty(s, props[i]);
        if r.Some? { return; }
        assert props[..i + 1] == props[..i] + [props[i]];
      }
      assert props[..|props|] == props;
    }

    method CheckProperty(s: Sym, p: Property) returns (r: Option<Sym>)
      requires Valid() && s in g && p in g[s].props && stack != [] && stack[|stack| - 1] == s
      modifies this
      ensures Valid() && Restored()
      ensures reports == [] ==> r == None && forall t | PropUses(p, t) :: Finished(t)
      ensures r.Some? ==> reports != [] && r.value in stack
      decreases Missing(), 3
    {
      forall t | PropUses(p, t) ensures Edge(g, s, t) {
      }
      if p.SelectProp? { return None; }
      r := CheckOptional(p.visible);
      if r.Some? || p.PromptProp? { return; }
      MissingLess(old(checked), checked);
      r := CheckExprDeps(p.expr);
    }

    /** sym_check_deps.  It returns a symbol that is still being checked further down the
        stack, if one was met again. */
    method CheckDeps(s: Sym) returns (r: Option<Sym>)
      requires Valid() && Next(s)
      modifies this
      ensures Valid() && Restored()
      ensures reports == [] ==> r == None && Finished(s)
      ensures r.Some? ==> reports != [] && r.value in stack
      decreases Missing(), 0, 0
    {
      if s in check {
        PrintRecursive(s);
        return Some(s);
      }
      if s in checked { return None; }
      r := Visit(s);
    }

    /** Mark a symbol and put it on the stack. */
    method Push(s: Sym)
      requires Valid() && Next(s) && s !in checked
      modifies this`check, this`checked, this`stack
      ensures Valid() && stack == old(stack) + [s]
      ensures check == old(check) + {s} && checked == old(checked) + {s}
    {
      Enter(g, check, checked, stack, s);
      check, checked, stack := check + {s}, checked + {s}, stack + [s];
    }

    /** Take a symbol off the stack and unmark it; it is finished. */
    method Pop(s: Sym)
      requires Valid() && stack != [] && stack[|stack| - 1] == s
      requires reports == [] ==> forall t | Edge(g, s, t) :: Finished(t)
      modifies this`check, this`stack, this`order
      ensures Valid() && stack == old(stack)[..|old(stack)| - 1] && check == old(check) - {s}
    {
      Leave(g, check, checked, stack, s);
      if reports == [] {
        Finish(g, check, checked, order, s);
      }
      check, stack := check - {s}, stack[..|stack| - 1];
      order := order + [s];
    }

    /** The part of sym_check_deps that goes through what a symbol depends on. */
    method Visit(s: Sym) returns (r: Option<Sym>)
      requires Valid() && Next(s) && s !in checked
      modifies this
      ensures Valid() && Restored()
      ensures reports == [] ==> r == None && Finished(s)
      ensures r.Some? ==> reports != [] && r.value in stack
      decreases Missing(), 0, -1
    {
      ghost var below, marked, said, seen := stack, check, reports, checked;
      Push(s);
      MissingLess(old(checked), checked);
      r := None;
      if s in g {
        r := CheckSymDeps(s);
      }
      assert s !in marked && stack == below + [s] && check == marked + {s};
      Pop(s);
      assert stack == below by {
        assert (below + [s])[..|below|] == below;
      }
      assert check == marked && said <= reports && seen <= checked;
      if r == Some(s) {
        r := None;
      }
    }

    /** The check of all symbols after parsing: something is reported if and only if the
        dependencies have a cycle; what is reported are cycles; no symbol is left marked; and
        no call returns a symbol, so that the count of errors is never raised. */
    method CheckAll(all: seq<Sym>) returns (errors: int)
      requires Valid() && stack == [] && reports == [] && checked == {}
      requires forall s | s in g :: s in all
      modifies this
      ensures check == {} && stack == [] && errors == 0
      ensures reports != [] <==> exists p :: Cycle(g, p)
      ensures forall r | r in reports :: Cycle(g, r)
      ensures reports == [] ==> Sorted(g, order) && forall s | s in g :: s in order
    {
      errors := 0;
      for i := 0 to |all|
        invariant Valid() && stack == [] && errors == 0
        invariant reports == [] ==> forall s | s in all[..i] :: s in checked
      {
        var r := CheckDeps(all[i]);
        if r.Some? {
          errors := errors + 1;
        }
        assert all[..i + 1] == all[..i] + [all[i]];
      }
      assert all[..|all|] == all;
      if reports == [] {
        forall p ensures !Cycle(g, p) {
          SortedHasNoCycle(g, order, p);
        }
      } else {
        assert Cycle(g, reports[0]);
      }
    }
  }
}
