/** Menu entries (struct menu in scripts/kconfig/expr.h) linked by list, next and parent
    pointers, and what menu_finalize (scripts/kconfig/menu.c) does to the arrangement. */
module MenuForest {

  /** An entry, named by its place in the order of allocation. */
  type Menu = nat

  /** A chain of siblings, each with the chain of its children. */
  datatype Forest = Nil | Cons(m: Menu, kids: Forest, rest: Forest)

  function Preorder(f: Forest): seq<Menu> {
    match f
    case Nil => []
    case Cons(m, k, r) => [m] + Preorder(k) + Preorder(r)
  }

  function Nodes(f: Forest): set<Menu> {
    match f
    case Nil => {}
    case Cons(m, k, r) => {m} + Nodes(k) + Nodes(r)
  }

  function Count(f: Forest): nat {
    match f
    case Nil => 0
    case Cons(_, k, r) => 1 + Count(k) + Count(r)
  }

  function Append(f: Forest, g: Forest): Forest {
    match f
    case Nil => g
    case Cons(m, k, r) => Cons(m, k, Append(r, g))
  }

  /** What the tests of menu_finalize answer: is there a symbol, does a symbol's entry swallow
      a following sibling, does an entry have no prompt.  Any answers are allowed. */
  datatype Tests = Tests(hasSym: Menu -> bool, swallows: (Menu, Menu) -> bool, promptless: Menu -> bool)

  /** Entries that were finalised, in the order of the calls, and the new arrangement: the
      children of the entry and its following siblings. */
  datatype Final = Final(kids: Forest, rest: Forest, log: seq<Menu>)

  // ---------------------------------------------------------------- on arrangements

  lemma {:induction false} AppendCount(f: Forest, g: Forest)
    ensures Count(Append(f, g)) == Count(f) + Count(g)
    ensures Preorder(Append(f, g)) == Preorder(f) + Preorder(g)
  {
    if f.Cons? {
      AppendCount(f.rest, g);
    }
  }

  /** The loop that hoists the children of promptless entries to the level of the entry. */
  function Hoist(f: Forest, t: Tests): Forest
    decreases Count(f)
  {
    match f
    case Nil => Nil
    case Cons(m, k, r) =>
      if k != Nil && t.promptless(m) then
        AppendCount(k, r);
        Cons(m, Nil, Hoist(Append(k, r), t))
      else Cons(m, k, Hoist(r, t))
  }

  lemma {:induction false} HoistCount(f: Forest, t: Tests)
    ensures Count(Hoist(f, t)) == Count(f)
    decreases Count(f)
  {
    match f
    case Nil =>
    case Cons(m, k, r) =>
      AppendCount(k, r);
      HoistCount(if k != Nil && t.promptless(m) then Append(k, r) else r, t);
  }

  /** menu_finalize for an entry with children `k` and following siblings `r`. */
  function Finalize(m: Menu, k: Forest, r: Forest, t: Tests): (x: Final)
    ensures Count(x.kids) + Count(x.rest) == Count(k) + Count(r)
    decreases 1 + Count(k) + Count(r), 0
  {
    if k != Nil then
      var a := FinalizeAll(k, t);
      HoistCount(a.kids, t);
      Final(Hoist(a.kids, t), r, [m] + a.log)
    else if t.hasSym(m) then
      var a := Swallow(m, r, t);
      HoistCount(a.kids, t);
      Final(Hoist(a.kids, t), a.rest, [m] + a.log)
    else Final(Nil, r, [m])
  }

  /** The loop over the children. */
  function FinalizeAll(f: Forest, t: Tests): (x: Final)
    ensures Count(x.kids) == Count(f) && x.rest == Nil
    decreases Count(f), 1
  {
    match f
    case Nil => Final(Nil, Nil, [])
    case Cons(m, k, r) =>
      var a := Finalize(m, k, r, t);
      var b := FinalizeAll(a.rest, t);
      Final(Cons(m, a.kids, b.kids), Nil, a.log + b.log)
  }

  /** The loop over the following siblings of a symbol without children: those it swallows
      become its children. */
  function Swallow(m: Menu, f: Forest, t: Tests): (x: Final)
    ensures Count(x.kids) + Count(x.rest) == Count(f)
    decreases Count(f), 1
  {
    match f
    case Nil => Final(Nil, Nil, [])
    case Cons(s, k, r) =>
      if !t.swallows(m, s) then Final(Nil, f, [])
      else
        var a := Finalize(s, k, r, t);
        var b := Swallow(m, a.rest, t);
        Final(Cons(s, a.kids, b.kids), b.rest, a.log + b.log)
  }

  // ------------------------------------------------------------------- what is kept

  lemma {:induction false} HoistPreorder(f: Forest, t: Tests)
    ensures Preorder(Hoist(f, t)) == Preorder(f)
    decreases Count(f)
  {
    match f
    case Nil =>
    case Cons(m, k, r) =>
      AppendCount(k, r);
      if k != Nil && t.promptless(m) {
        HoistPreorder(Append(k, r), t);
        assert [m] + Preorder(Nil) + (Preorder(k) + Preorder(r)) == Preorder(f);
      } else {
        HoistPreorder(r, t);
      }
  }

  /** Finalising one entry neither loses nor duplicates nor reorders an entry, and the entries
      finalised are the entry and its new descendants, in menu order. */
  lemma {:induction false} FinalizePreorder(m: Menu, k: Forest, r: Forest, t: Tests)
    ensures var x := Finalize(m, k, r, t);
            && Preorder(x.kids) + Preorder(x.rest) == Preorder(k) + Preorder(r)
            && x.log == [m] + Preorder(x.kids)
    decreases 1 + Count(k) + Count(r), 0
  {
    if k != Nil {
      FinalizeAllPreorder(k, t);
      HoistPreorder(FinalizeAll(k, t).kids, t);
    } else if t.hasSym(m) {
      SwallowPreorder(m, r, t);
      HoistPreorder(Swallow(m, r, t).kids, t);
      assert Preorder(k) + Preorder(r) == Preorder(r);
    }
  }

  lemma Reassociate(m: Menu, a: seq<Menu>, b: seq<Menu>, c: seq<Menu>, d: seq<Menu>)
    requires a + b == c + d
    ensures [m] + a + b == [m] + c + d
  {
    assert [m] + a + b == [m] + (a + b);
    assert [m] + c + d == [m] + (c + d);
  }

  lemma {:induction false} FinalizeAllPreorder(f: Forest, t: Tests)
    ensures var x := FinalizeAll(f, t);
            Preorder(x.kids) == Preorder(f) && x.log == Preorder(f)
    decreases Count(f), 1
  {
    match f
    case Nil =>
    case Cons(m, k, r) =>
      var a := Finalize(m, k, r, t);
      var b := FinalizeAll(a.rest, t);
      FinalizePreorder(m, k, r, t);
      FinalizeAllPreorder(a.rest, t);
      Reassociate(m, Preorder(a.kids), Preorder(a.rest), Preorder(k), Preorder(r));
  }

  lemma SwallowedPreorder(s: Menu, a: seq<Menu>, b: seq<Menu>, c: seq<Menu>)
    ensures [s] + a + b + c == [s] + a + (b + c)
  {
  }

  lemma {:induction false} SwallowPreorder(m: Menu, f: Forest, t: Tests)
    ensures var x := Swallow(m, f, t);
            && Preorder(x.kids) + Preorder(x.rest) == Preorder(f)
            && x.log == Preorder(x.kids)
    decreases Count(f), 1
  {
    match f
    case Nil =>
    case Cons(s, k, r) =>
      if t.swallows(m, s) {
        var a := Finalize(s, k, r, t);
        var b := Swallow(m, a.rest, t);
        FinalizePreorder(s, k, r, t);
        SwallowPreorder(m, a.rest, t);
        Reassociate(s, Preorder(a.kids), Preorder(a.rest), Preorder(k), Preorder(r));
        SwallowedPreorder(s, Preorder(a.kids), Preorder(b.kids), Preorder(b.rest));
      }
  }

  lemma {:induction false} NodesOfPreorder(f: Forest)
    ensures Nodes(f) == set m | m in Preorder(f)
  {
    if f.Cons? {
      NodesOfPreorder(f.kids);
      NodesOfPreorder(f.rest);
    }
  }

  // ------------------------------------------------------------------- what is moved

  /** No entry of the chain that has no prompt has children. */
  predicate Flat(f: Forest, t: Tests) {
    f.Cons? ==> (t.promptless(f.m) ==> f.kids == Nil) && Flat(f.rest, t)
  }

  /** Nor has any at any depth. */
  predicate AllFlat(f: Forest, t: Tests) {
    f.Cons? ==> (t.promptless(f.m) ==> f.kids == Nil) && AllFlat(f.kids, t) && AllFlat(f.rest, t)
  }

  predicate KidsFlat(f: Forest, t: Tests) {
    f.Cons? ==> AllFlat(f.kids, t) && KidsFlat(f.rest, t)
  }

  lemma {:induction false} KidsFlatAppend(f: Forest, g: Forest, t: Tests)
    ensures KidsFlat(Append(f, g), t) <==> KidsFlat(f, t) && KidsFlat(g, t)
    ensures AllFlat(f, t) ==> KidsFlat(f, t)
  {
    if f.Cons? { KidsFlatAppend(f.rest, g, t); }
  }

  /** Is `m`, with the children `k`, an entry of the chain? */
  predicate HasTop(f: Forest, m: Menu, k: Forest) {
    f.Cons? && ((f.m == m && f.kids == k) || HasTop(f.rest, m, k))
  }

  /** Does `m` come to the surface, with the children `k`?  It does from the chain itself, and
      from among the children of an entry without a prompt that comes to the surface; and it keeps
      its children if it has a prompt. */
  predicate Surfaces(f: Forest, t: Tests, m: Menu, k: Forest) {
    f.Cons? && ((f.m == m && k == if t.promptless(m) then Nil else f.kids)
                || (t.promptless(f.m) && Surfaces(f.kids, t, m, k))
                || Surfaces(f.rest, t, m, k))
  }

  lemma {:induction false} SurfacesAppend(f: Forest, g: Forest, t: Tests, m: Menu, k: Forest)
    ensures Surfaces(Append(f, g), t, m, k) <==> Surfaces(f, t, m, k) || Surfaces(g, t, m, k)
  {
    if f.Cons? { SurfacesAppend(f.rest, g, t, m, k); }
  }

  /** Hoisting brings exactly these to the surface, and leaves nothing below an entry without a
      prompt. */
  lemma {:induction false} HoistSurfaces(f: Forest, t: Tests, m: Menu, k: Forest)
    ensures HasTop(Hoist(f, t), m, k) <==> Surfaces(f, t, m, k)
    decreases Count(f)
  {
    match f
    case Nil =>
    case Cons(n, g, r) =>
      if g != Nil && t.promptless(n) {
        AppendCount(g, r);
        HoistSurfaces(Append(g, r), t, m, k);
        SurfacesAppend(g, r, t, m, k);
      } else {
        HoistSurfaces(r, t, m, k);
      }
  }

  lemma {:induction false} HoistFlat(f: Forest, t: Tests)
    ensures Flat(Hoist(f, t), t) && (Hoist(f, t) == f <==> Flat(f, t))
    ensures KidsFlat(f, t) ==> AllFlat(Hoist(f, t), t)
    decreases Count(f)
  {
    match f
    case Nil =>
    case Cons(m, k, r) =>
      if k != Nil && t.promptless(m) {
        AppendCount(k, r);
        HoistFlat(Append(k, r), t);
        KidsFlatAppend(k, r, t);
      } else {
        HoistFlat(r, t);
      }
  }

  /** menu_finalize leaves no children below an entry without a prompt, at any depth below the
      entry it is called for. */
  lemma {:induction false} FinalizeFlat(m: Menu, k: Forest, r: Forest, t: Tests)
    ensures AllFlat(Finalize(m, k, r, t).kids, t)
    decreases 1 + Count(k) + Count(r), 0
  {
    if k != Nil {
      FinalizeAllFlat(k, t);
      HoistFlat(FinalizeAll(k, t).kids, t);
    } else if t.hasSym(m) {
      SwallowFlat(m, r, t);
      HoistFlat(Swallow(m, r, t).kids, t);
    }
  }

  lemma {:induction false} FinalizeAllFlat(f: Forest, t: Tests)
    ensures KidsFlat(FinalizeAll(f, t).kids, t)
    decreases Count(f), 1
  {
    if f.Cons? {
      FinalizeFlat(f.m, f.kids, f.rest, t);
      FinalizeAllFlat(Finalize(f.m, f.kids, f.rest, t).rest, t);
    }
  }

  predicate AllSwallowed(m: Menu, f: Forest, t: Tests) {
    f.Cons? ==> t.swallows(m, f.m) && AllSwallowed(m, f.rest, t)
  }

  /** What is swallowed passes the test, and the first that is left does not. */
  lemma {:induction false} SwallowFlat(m: Menu, f: Forest, t: Tests)
    ensures var x := Swallow(m, f, t);
            && KidsFlat(x.kids, t) && AllSwallowed(m, x.kids, t)
            && (x.rest.Cons? ==> !t.swallows(m, x.rest.m))
    decreases Count(f), 1
  {
    if f.Cons? && t.swallows(m, f.m) {
      FinalizeFlat(f.m, f.kids, f.rest, t);
      SwallowFlat(m, Finalize(f.m, f.kids, f.rest, t).rest, t);
    }
  }

  /** Which siblings menu_finalize moves below an entry: none if the entry has children or no
      symbol; else those from the next one on that the entry swallows, up to the first that it
      does not.  What surfaces from them are the children. */
  lemma FinalizeSwallows(m: Menu, k: Forest, r: Forest, t: Tests) returns (taken: Forest)
    ensures var x := Finalize(m, k, r, t);
            && (k != Nil || !t.hasSym(m) ==> x.rest == r)
            && (k == Nil && !t.hasSym(m) ==> x.kids == Nil)
            && (k == Nil && t.hasSym(m) ==>
                  && AllSwallowed(m, taken, t) && (x.rest.Cons? ==> !t.swallows(m, x.rest.m))
                  && Preorder(taken) + Preorder(x.rest) == Preorder(r)
                  && forall n, g :: HasTop(x.kids, n, g) <==> Surfaces(taken, t, n, g))
  {
    taken := Swallow(m, r, t).kids;
    SwallowFlat(m, r, t);
    SwallowPreorder(m, r, t);
    forall n, g ensures HasTop(Hoist(taken, t), n, g) <==> Surfaces(taken, t, n, g) {
      HoistSurfaces(taken, t, n, g);
    }
  }
}
