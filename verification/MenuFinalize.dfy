/** menu_finalize (scripts/kconfig/menu.c) relinking menu entries in place, and the walk over
    the result that conf_write and conf_write_defconfig (scripts/kconfig/confdata.c) make. */
module MenuFinalize {
  import opened MenuForest

  datatype Ptr = Null | At(m: Menu)

  /** The pointers of all entries. */
  datatype Links = Links(next: seq<Ptr>, parent: seq<Ptr>, list: seq<Ptr>)
  {
    predicate Valid() { |next| == |parent| == |list| }
    function SetNext(m: Menu, p: Ptr): Links requires Valid() && m < |next| {
      this.(next := next[m := p])
    }
    function SetParent(m: Menu, p: Ptr): Links requires Valid() && m < |next| {
      this.(parent := parent[m := p])
    }
    function SetList(m: Menu, p: Ptr): Links requires Valid() && m < |next| {
      this.(list := list[m := p])
    }
  }

  /** The entries from `ptr` on, up to but not including `end`, are linked as `f` says, and
      every one of them has the parent it should have. */
  predicate Linked(f: Forest, s: Links, ptr: Ptr, par: Ptr, end: Ptr)
    requires s.Valid()
    decreases f
  {
    match f
    case Nil => ptr == end
    case Cons(m, k, r) =>
      && m < |s.next| && ptr == At(m) && s.parent[m] == par
      && Linked(k, s, s.list[m], At(m), Null)
      && Linked(r, s, s.next[m], par, end)
  }

  /** Only entries in `changed` have been relinked. */
  ghost predicate SameBut(s: Links, s': Links, changed: set<Menu>) {
    && s.Valid() && s'.Valid() && |s.next| == |s'.next|
    && forall m: Menu :: m < |s.next| && m !in changed ==>
         s.next[m] == s'.next[m] && s.parent[m] == s'.parent[m] && s.list[m] == s'.list[m]
  }

  lemma {:induction false} LinkedFrame(f: Forest, s: Links, s': Links, changed: set<Menu>,
                                       ptr: Ptr, par: Ptr, end: Ptr)
    requires SameBut(s, s', changed) && Nodes(f) !! changed
    requires Linked(f, s, ptr, par, end)
    ensures Linked(f, s', ptr, par, end)
  {
    if f.Cons? {
      assert f.m in Nodes(f);
      LinkedFrame(f.kids, s, s', changed, s.list[f.m], At(f.m), Null);
      LinkedFrame(f.rest, s, s', changed, s.next[f.m], par, end);
    }
  }

  /** Two chains, the first ending where the second starts, are one chain. */
  lemma {:induction false} LinkedAppend(f: Forest, g: Forest, s: Links, ptr: Ptr, par: Ptr, mid: Ptr, end: Ptr)
    requires s.Valid() && Linked(f, s, ptr, par, mid) && Linked(g, s, mid, par, end)
    ensures Linked(Append(f, g), s, ptr, par, end)
  {
    if f.Cons? {
      LinkedAppend(f.rest, g, s, s.next[f.m], par, mid, end);
    }
  }

  // ------------------------------------------------------- arrangements without duplicates

  /** No entry occurs twice. */
  ghost predicate NoDup(f: Forest) {
    match f
    case Nil => true
    case Cons(m, k, r) =>
      m !in Nodes(k) && m !in Nodes(r) && Nodes(k) !! Nodes(r) && NoDup(k) && NoDup(r)
  }

  /** An arrangement has no duplicates when it has as many places as entries. */
  lemma {:induction false} NoDupCount(f: Forest)
    ensures |Nodes(f)| <= Count(f) == |Preorder(f)|
    ensures NoDup(f) <==> |Nodes(f)| == Count(f)
  {
    if f.Cons? {
      NoDupCount(f.kids);
      NoDupCount(f.rest);
      var a, b := Nodes(f.kids), Nodes(f.rest);
      assert |{f.m} + a| + |{f.m} * a| == 1 + |a|;
      assert |{f.m} + a + b| + |({f.m} + a) * b| == |{f.m} + a| + |b|;
      assert f.m in a ==> f.m in {f.m} * a;
      assert f.m !in a ==> {f.m} * a == {};
      assert f.m in b ==> f.m in ({f.m} + a) * b;
      assert a !! b && f.m !in b ==> ({f.m} + a) * b == {};
      if exists m :: m in a && m in b {
        var m :| m in a && m in b;
        assert m in ({f.m} + a) * b;
      }
    }
  }

  lemma SamePreorderNodes(f: Forest, g: Forest)
    requires Preorder(f) == Preorder(g)
    ensures Nodes(f) == Nodes(g) && (NoDup(f) <==> NoDup(g))
  {
    NodesOfPreorder(f);
    NodesOfPreorder(g);
    NoDupCount(f);
    NoDupCount(g);
  }

  lemma {:induction false} NoDupAppend(f: Forest, g: Forest)
    ensures Nodes(Append(f, g)) == Nodes(f) + Nodes(g)
    ensures NoDup(Append(f, g)) <==> NoDup(f) && NoDup(g) && Nodes(f) !! Nodes(g)
  {
    if f.Cons? {
      NoDupAppend(f.rest, g);
    }
  }

  lemma {:induction false} AppendAssoc(f: Forest, g: Forest, h: Forest)
    ensures Append(Append(f, g), h) == Append(f, Append(g, h))
    ensures Append(f, Nil) == f
  {
    if f.Cons? {
      AppendAssoc(f.rest, g, h);
    }
  }

  /** What finalising one entry leaves behind, as an arrangement. */
  lemma FinalizeKeeps(m: Menu, k: Forest, r: Forest, t: Tests)
    ensures var x := Finalize(m, k, r, t); var f := Cons(m, x.kids, x.rest);
            && Preorder(f) == Preorder(Cons(m, k, r))
            && Nodes(f) == Nodes(Cons(m, k, r)) && (NoDup(f) <==> NoDup(Cons(m, k, r)))
  {
    var x := Finalize(m, k, r, t);
    FinalizePreorder(m, k, r, t);
    Reassociate(m, Preorder(x.kids), Preorder(x.rest), Preorder(k), Preorder(r));
    SamePreorderNodes(Cons(m, x.kids, x.rest), Cons(m, k, r));
  }

  function Last(f: Forest): (l: Forest)
    requires f.Cons?
    ensures l.Cons? && l.rest == Nil
  {
    if f.rest == Nil then f else Last(f.rest)
  }

  lemma {:induction false} LastOfAppend(f: Forest, g: Forest)
    requires g.Cons? && g.rest == Nil
    ensures Append(f, g).Cons? && Last(Append(f, g)) == g
  {
    if f.Cons? {
      LastOfAppend(f.rest, g);
    }
  }

  /** One entry of a loop goes from the chain still to do, `m` with `mk` and `mr`, to the chain
      done, as `m` with `k'`, leaving `r'` to do; `g` is what will become of that. */
  lemma Advance(done: Forest, m: Menu, mk: Forest, mr: Forest, k': Forest, r': Forest, g: Forest)
    requires NoDup(Append(done, Cons(m, mk, mr)))
    requires Nodes(Cons(m, k', r')) == Nodes(Cons(m, mk, mr)) && NoDup(Cons(m, k', r'))
    ensures var one := Cons(m, k', Nil);
            && NoDup(Append(Append(done, one), r'))
            && Nodes(Append(Append(done, one), r')) == Nodes(Append(done, Cons(m, mk, mr)))
            && Append(Append(done, one), g) == Append(done, Cons(m, k', g))
            && Append(done, one).Cons? && Last(Append(done, one)) == one
    ensures NoDup(Cons(m, mk, mr)) && Nodes(done) !! Nodes(Cons(m, mk, mr)) && NoDup(done)
  {
    var one := Cons(m, k', Nil);
    NoDupAppend(done, Cons(m, mk, mr));
    NoDupAppend(done, Cons(m, k', r'));
    LastOfAppend(done, one);
    AppendAssoc(done, one, g);
    AppendAssoc(done, one, r');
  }

  // ------------------------------------------------------------------ the last sibling

  function Init(f: Forest): Forest
    requires f.Cons?
  {
    if f.rest == Nil then Nil else Cons(f.m, f.kids, Init(f.rest))
  }

  lemma {:induction false} InitLast(f: Forest)
    requires f.Cons?
    ensures Append(Init(f), Last(f)) == f
  {
    if f.rest != Nil {
      InitLast(f.rest);
    }
  }

  lemma {:induction false} LinkedSplit(f: Forest, s: Links, ptr: Ptr, par: Ptr, end: Ptr)
    requires s.Valid() && f.Cons? && Linked(f, s, ptr, par, end)
    ensures Linked(Init(f), s, ptr, par, At(Last(f).m)) && Linked(Last(f), s, At(Last(f).m), par, end)
  {
    if f.rest != Nil {
      LinkedSplit(f.rest, s, s.next[f.m], par, end);
    }
  }

  /** Redirecting the end of a chain. */
  lemma RelinkEnd(f: Forest, s: Links, ptr: Ptr, par: Ptr, end: Ptr, end': Ptr)
    requires s.Valid() && f.Cons? && NoDup(f) && Linked(f, s, ptr, par, end)
    ensures Last(f).m < |s.next| && Linked(f, s.SetNext(Last(f).m, end'), ptr, par, end')
  {
    var l := Last(f);
    LinkedSplit(f, s, ptr, par, end);
    InitLast(f);
    NoDupAppend(Init(f), l);
    var s' := s.SetNext(l.m, end');
    LinkedFrame(Init(f), s, s', {l.m}, ptr, par, At(l.m));
    LinkedFrame(l.kids, s, s', {l.m}, s.list[l.m], At(l.m), Null);
    LinkedAppend(Init(f), l, s', ptr, par, At(l.m), end');
  }

  // ----------------------------------------------------------- progress of the loops

  /** The loop over children has turned `k` into `done`, with `todo` to come. */
  ghost predicate ChildrenDone(k: Forest, t: Tests, done: Forest, todo: Forest, log: seq<Menu>) {
    var x, y := FinalizeAll(k, t), FinalizeAll(todo, t);
    x.kids == Append(done, y.kids) && x.log == log + y.log && Count(todo) <= Count(k)
  }

  lemma ChildrenAdvance(k: Forest, t: Tests, done: Forest, todo: Forest, log: seq<Menu>)
    requires ChildrenDone(k, t, done, todo, log) && todo.Cons?
    ensures var x := Finalize(todo.m, todo.kids, todo.rest, t);
            && ChildrenDone(k, t, Append(done, Cons(todo.m, x.kids, Nil)), x.rest, log + x.log)
            && Count(x.rest) < Count(todo)
  {
    var x := Finalize(todo.m, todo.kids, todo.rest, t);
    AppendAssoc(done, Cons(todo.m, x.kids, Nil), FinalizeAll(x.rest, t).kids);
  }

  /** The loop over siblings has swallowed `done` of `r`, with `todo` to come. */
  ghost predicate SiblingsDone(m: Menu, r: Forest, t: Tests, done: Forest, todo: Forest, log: seq<Menu>) {
    var x, y := Swallow(m, r, t), Swallow(m, todo, t);
    && x.kids == Append(done, y.kids) && x.rest == y.rest && x.log == log + y.log
    && Count(todo) <= Count(r)
  }

  lemma SiblingsAdvance(m: Menu, r: Forest, t: Tests, done: Forest, todo: Forest, log: seq<Menu>)
    requires SiblingsDone(m, r, t, done, todo, log) && todo.Cons? && t.swallows(m, todo.m)
    ensures var x := Finalize(todo.m, todo.kids, todo.rest, t);
            && SiblingsDone(m, r, t, Append(done, Cons(todo.m, x.kids, Nil)), x.rest, log + x.log)
            && Count(x.rest) < Count(todo)
  {
    var x := Finalize(todo.m, todo.kids, todo.rest, t);
    AppendAssoc(done, Cons(todo.m, x.kids, Nil), Swallow(m, x.rest, t).kids);
  }

  lemma SwallowStops(m: Menu, r: Forest, t: Tests, done: Forest, todo: Forest, log: seq<Menu>)
    requires SiblingsDone(m, r, t, done, todo, log) && NoDup(Append(done, todo))
    requires todo.Cons? ==> !t.swallows(m, todo.m)
    ensures Swallow(m, r, t) == Final(done, todo, log)
    ensures NoDup(done) && Nodes(done) !! Nodes(todo) && Nodes(done) + Nodes(todo) == Nodes(Append(done, todo))
  {
    AppendAssoc(done, Nil, Nil);
    NoDupAppend(done, todo);
  }

  /** The hoisting loop has turned the front of `f` into `done`, with `todo` to come. */
  ghost predicate HoistDone(f: Forest, t: Tests, done: Forest, todo: Forest) {
    && Hoist(f, t) == Append(done, Hoist(todo, t))
    && NoDup(Append(done, todo)) && Nodes(Append(done, todo)) == Nodes(f)
  }

  /** The entry at the head of `todo` after its turn: without its children, or as it was. */
  function Hoisted(todo: Forest, t: Tests): Forest
    requires todo.Cons?
  {
    if todo.kids != Nil && t.promptless(todo.m) then Cons(todo.m, Nil, Append(todo.kids, todo.rest)) else todo
  }

  lemma HoistedFacts(todo: Forest, t: Tests)
    requires todo.Cons?
    ensures var h := Hoisted(todo, t);
            && h.Cons? && h.m == todo.m && Count(h.rest) < Count(todo)
            && Nodes(h) == Nodes(todo) && (NoDup(todo) ==> NoDup(h))
            && Hoist(todo, t) == Cons(h.m, h.kids, Hoist(h.rest, t))
  {
    AppendCount(todo.kids, todo.rest);
    NoDupAppend(todo.kids, todo.rest);
  }

  lemma HoistAdvance(f: Forest, t: Tests, done: Forest, todo: Forest)
    requires HoistDone(f, t, done, todo) && todo.Cons?
    ensures var h := Hoisted(todo, t);
            && HoistDone(f, t, Append(done, Cons(todo.m, h.kids, Nil)), h.rest)
            && Count(h.rest) < Count(todo)
    ensures NoDup(todo) && Nodes(done) !! Nodes(todo)
    ensures Nodes(todo) <= Nodes(f)
  {
    var h := Hoisted(todo, t);
    HoistedFacts(todo, t);
    NoDupAppend(done, todo);
    Advance(done, todo.m, todo.kids, todo.rest, h.kids, h.rest, Hoist(h.rest, t));
  }

  // --------------------------------------------------------------------- the program

  /** An entry without siblings gets none. */
  lemma FinalizeRootRest(root: Menu, k: Forest, t: Tests)
    ensures Finalize(root, k, Nil, t).rest == Nil
  {
  }

  lemma {:induction false} LastInNodes(f: Forest)
    requires f.Cons?
    ensures Last(f).m in Nodes(f)
  {
    if f.rest != Nil {
      LastInNodes(f.rest);
    }
  }

  class MenuTree {
    var links: Links

    constructor (links: Links)
      ensures this.links == links
    {
      this.links := links;
    }

    /** Finalise the entry at the head of a chain, below a chain already done. */
    method FinalizeNext(menu: Menu, t: Tests, ghost done: Forest, ghost mk: Forest, ghost mr: Forest,
                        ghost first: Ptr, ghost parent: Ptr, ghost par: Ptr)
      returns (log: seq<Menu>, ghost one: Forest)
      requires links.Valid() && NoDup(Append(done, Cons(menu, mk, mr)))
      requires Linked(done, links, first, parent, At(menu))
      requires Linked(Cons(menu, mk, mr), links, At(menu), par, Null)
      modifies this
      ensures SameBut(old(links), links, Nodes(Cons(menu, mk, mr)))
      ensures var x := Finalize(menu, mk, mr, t);
              && one == Cons(menu, x.kids, Nil) && log == x.log && menu < |links.next|
              && NoDup(Append(Append(done, one), x.rest))
              && Nodes(Append(Append(done, one), x.rest)) == Nodes(Append(done, Cons(menu, mk, mr)))
              && Append(done, one).Cons? && Last(Append(done, one)) == one
              && Linked(done, links, first, parent, At(menu))
              && Linked(one, links, At(menu), par, links.next[menu])
              && Linked(x.rest, links, links.next[menu], par, Null)
              && menu !in Nodes(done) + Nodes(x.kids) + Nodes(x.rest)
      decreases 1 + Count(mk) + Count(mr), 1
    {
      ghost var x := Finalize(menu, mk, mr, t);
      one := Cons(menu, x.kids, Nil);
      NoDupAppend(done, Cons(menu, mk, mr));
      FinalizeKeeps(menu, mk, mr, t);
      Advance(done, menu, mk, mr, x.kids, x.rest, Nil);
      ghost var before := links;
      log := MenuFinalize(menu, t, mk, mr, par);
      LinkedFrame(done, before, links, Nodes(Cons(menu, mk, mr)), first, parent, At(menu));
    }

    /** The loop over the children of `parent`. */
    method FinalizeChildren(parent: Menu, t: Tests, ghost k: Forest) returns (log: seq<Menu>)
      requires links.Valid() && parent < |links.next|
      requires Linked(k, links, links.list[parent], At(parent), Null) && NoDup(k) && parent !in Nodes(k)
      modifies this
      ensures SameBut(old(links), links, Nodes(k))
      ensures var x := FinalizeAll(k, t);
              && Nodes(x.kids) == Nodes(k) && NoDup(x.kids)
              && Linked(x.kids, links, links.list[parent], At(parent), Null) && log == x.log
      decreases Count(k), 2
    {
      log := [];
      ghost var first := links.list[parent];
      var menu := links.list[parent];
      ghost var done, todo := Nil, k;
      while menu != Null
        invariant links.Valid() && SameBut(old(links), links, Nodes(k))
        invariant NoDup(Append(done, todo)) && Nodes(Append(done, todo)) == Nodes(k)
        invariant Linked(done, links, first, At(parent), menu)
        invariant Linked(todo, links, menu, At(parent), Null)
        invariant ChildrenDone(k, t, done, todo, log)
        decreases Count(todo)
      {
        ghost var x := Finalize(menu.m, todo.kids, todo.rest, t);
        ChildrenAdvance(k, t, done, todo, log);
        NoDupAppend(done, todo);
        var more, one := FinalizeNext(menu.m, t, done, todo.kids, todo.rest, first, At(parent), At(parent));
        log := log + more;
        LinkedAppend(done, one, links, first, At(parent), menu, links.next[menu.m]);
        done, todo := Append(done, one), x.rest;
        menu := links.next[menu.m];
      }
      AppendAssoc(done, Nil, Nil);
    }

    /** Give a chain of children a new parent; returns the last of them. */
    method Adopt(head: Menu, parent: Ptr, ghost k: Forest, ghost was: Ptr) returns (last: Menu)
      requires links.Valid() && k.Cons? && Linked(k, links, At(head), was, Null) && NoDup(k)
      modifies this
      ensures SameBut(old(links), links, Nodes(k)) && last == Last(k).m
      ensures Linked(k, links, At(head), parent, Null)
    {
      last := head;
      ghost var done, todo := Nil, k;
      while true
        invariant links.Valid() && SameBut(old(links), links, Nodes(k))
        invariant Append(done, todo) == k && todo.Cons?
        invariant Linked(done, links, At(head), parent, At(last)) && Linked(todo, links, At(last), was, Null)
        decreases todo
      {
        NoDupAppend(done, todo);
        ghost var one := Cons(todo.m, todo.kids, Nil);
        ghost var s := links.SetParent(last, parent);
        LinkedFrame(done, links, s, {last}, At(head), parent, At(last));
        LinkedFrame(todo.kids, links, s, {last}, links.list[last], At(last), Null);
        LinkedFrame(todo.rest, links, s, {last}, links.next[last], was, Null);
        LinkedAppend(done, one, s, At(head), parent, At(last), s.next[last]);
        AppendAssoc(done, one, todo.rest);
        LastOfAppend(done, one);
        links := links.SetParent(last, parent);
        done, todo := Append(done, one), todo.rest;
        if links.next[last] == Null {
          AppendAssoc(done, Nil, Nil);
          return;
        }
        last := links.next[last].m;
      }
    }

    /** Move the children of one entry up to follow it. */
    method HoistOne(menu: Menu, parent: Menu, ghost k: Forest, ghost r: Forest, ghost done: Forest, ghost first: Ptr)
      requires links.Valid() && menu < |links.next| && k.Cons?
      requires NoDup(Cons(menu, k, r)) && Nodes(done) !! Nodes(Cons(menu, k, r))
      requires Linked(done, links, first, At(parent), At(menu))
      requires Linked(Cons(menu, k, r), links, At(menu), At(parent), Null)
      modifies this
      ensures SameBut(old(links), links, Nodes(Cons(menu, k, r)))
      ensures Linked(done, links, first, At(parent), At(menu))
      ensures Linked(Cons(menu, Nil, Append(k, r)), links, At(menu), At(parent), Null)
    {
      ghost var before := links;
      var last := Adopt(links.list[menu].m, At(parent), k, At(menu));
      ghost var adopted := links;
      LinkedFrame(r, before, adopted, Nodes(k), links.next[menu], At(parent), Null);
      RelinkEnd(k, adopted, links.list[menu], At(parent), Null, links.next[menu]);
      LastInNodes(k);
      links := links.SetNext(last, links.next[menu]);
      LinkedFrame(r, adopted, links, {last}, links.next[menu], At(parent), Null);
      LinkedAppend(k, r, links, links.list[menu], At(parent), links.next[menu], Null);
      ghost var spliced := links;
      links := links.SetNext(menu, links.list[menu]);
      links := links.SetList(menu, Null);
      NoDupAppend(k, r);
      LinkedFrame(Append(k, r), spliced, links, {menu}, links.next[menu], At(parent), Null);
      LinkedFrame(done, before, links, Nodes(Cons(menu, k, r)), first, At(parent), At(menu));
    }

    /** The loop that moves the children of promptless entries up to follow the entry. */
    method HoistChildren(parent: Menu, t: Tests, ghost f: Forest)
      requires links.Valid() && parent < |links.next| && NoDup(f) && parent !in Nodes(f)
      requires Linked(f, links, links.list[parent], At(parent), Null)
      modifies this
      ensures SameBut(old(links), links, Nodes(f))
      ensures Linked(Hoist(f, t), links, links.list[parent], At(parent), Null)
    {
      ghost var first := links.list[parent];
      var menu := links.list[parent];
      ghost var done, todo := Nil, f;
      while menu != Null
        invariant links.Valid() && SameBut(old(links), links, Nodes(f))
        invariant HoistDone(f, t, done, todo)
        invariant Linked(done, links, first, At(parent), menu)
        invariant Linked(todo, links, menu, At(parent), Null)
        decreases Count(todo)
      {
        ghost var h := Hoisted(todo, t);
        HoistAdvance(f, t, done, todo);
        if links.list[menu.m] != Null && t.promptless(menu.m) {
          HoistOne(menu.m, parent, todo.kids, todo.rest, done, first);
        }
        ghost var one := Cons(h.m, h.kids, Nil);
        LinkedAppend(done, one, links, first, At(parent), menu, links.next[menu.m]);
        done, todo := Append(done, one), h.rest;
        menu := links.next[menu.m];
      }
      AppendAssoc(done, Nil, Nil);
    }

    /** menu_finalize */
    method MenuFinalize(parent: Menu, t: Tests, ghost k: Forest, ghost r: Forest, ghost par: Ptr)
      returns (log: seq<Menu>)
      requires links.Valid() && NoDup(Cons(parent, k, r))
      requires Linked(Cons(parent, k, r), links, At(parent), par, Null)
      modifies this
      ensures SameBut(old(links), links, Nodes(Cons(parent, k, r)))
      ensures var x := Finalize(parent, k, r, t);
              Linked(Cons(parent, x.kids, x.rest), links, At(parent), par, Null) && log == x.log
      decreases 1 + Count(k) + Count(r), 0
    {
      ghost var before := links;
      if links.list[parent] != Null {
        ghost var a := FinalizeAll(k, t);
        log := FinalizeChildren(parent, t, k);
        HoistChildren(parent, t, a.kids);
        LinkedFrame(r, before, links, Nodes(k), links.next[parent], par, Null);
        log := [parent] + log;
      } else if t.hasSym(parent) {
        ghost var a := Swallow(parent, r, t);
        log := SwallowSiblings(parent, t, r, par);
        ghost var middle := links;
        HoistChildren(parent, t, a.kids);
        LinkedFrame(a.rest, middle, links, Nodes(a.kids), links.next[parent], par, Null);
        log := [parent] + log;
      } else {
        log := [parent];
      }
    }

    /** menu_finalize of the whole menu: every entry stays, once and in menu order, below
        parents that are right, and every entry is finalised once, in that order. */
    method FinalizeRoot(root: Menu, t: Tests, ghost k: Forest) returns (log: seq<Menu>, ghost k': Forest)
      requires links.Valid() && NoDup(Cons(root, k, Nil))
      requires Linked(Cons(root, k, Nil), links, At(root), Null, Null)
      modifies this
      ensures links.Valid() && NoDup(Cons(root, k', Nil))
      ensures Linked(Cons(root, k', Nil), links, At(root), Null, Null)
      ensures Preorder(k') == Preorder(k) && log == [root] + Preorder(k)
    {
      log := MenuFinalize(root, t, k, Nil, Null);
      ghost var x := Finalize(root, k, Nil, t);
      FinalizeKeeps(root, k, Nil, t);
      FinalizePreorder(root, k, Nil, t);
      assert x.rest == Nil by { FinalizeRootRest(root, k, t); }
      k' := x.kids;
      assert Preorder(k') + [] == Preorder(k') && Preorder(k) + [] == Preorder(k);
    }

    // ------------------------------------------------------------------- swallowing

    /** What `menu->parent = parent` does to an entry between two chains. */
    lemma NewParent(done: Forest, one: Forest, rest: Forest, parent: Menu, par: Ptr, first: Ptr)
      requires links.Valid() && one.Cons? && one.rest == Nil && one.m < |links.next|
      requires Linked(done, links, first, At(parent), At(one.m))
      requires Linked(one, links, At(one.m), par, links.next[one.m])
      requires Linked(rest, links, links.next[one.m], par, Null)
      requires one.m !in Nodes(done) + Nodes(one.kids) + Nodes(rest)
      ensures var s := links.SetParent(one.m, At(parent));
              && Linked(Append(done, one), s, first, At(parent), s.next[one.m])
              && Linked(rest, s, s.next[one.m], par, Null)
    {
      var s := links.SetParent(one.m, At(parent));
      LinkedFrame(done, links, s, {one.m}, first, At(parent), At(one.m));
      LinkedFrame(one.kids, links, s, {one.m}, links.list[one.m], At(one.m), Null);
      LinkedFrame(rest, links, s, {one.m}, links.next[one.m], par, Null);
      LinkedAppend(done, one, s, first, At(parent), At(one.m), s.next[one.m]);
    }

    /** Finalise one sibling and make it a child of `parent`. */
    method SwallowOne(menu: Menu, parent: Menu, t: Tests, ghost done: Forest, ghost mk: Forest,
                      ghost mr: Forest, ghost first: Ptr, ghost par: Ptr)
      returns (log: seq<Menu>, ghost done': Forest)
      requires links.Valid() && NoDup(Append(done, Cons(menu, mk, mr)))
      requires Linked(done, links, first, At(parent), At(menu))
      requires Linked(Cons(menu, mk, mr), links, At(menu), par, Null)
      modifies this
      ensures SameBut(old(links), links, Nodes(Cons(menu, mk, mr)))
      ensures var x := Finalize(menu, mk, mr, t);
              && done' == Append(done, Cons(menu, x.kids, Nil)) && log == x.log && menu < |links.next|
              && NoDup(Append(done', x.rest))
              && Nodes(Append(done', x.rest)) == Nodes(Append(done, Cons(menu, mk, mr)))
              && done'.Cons? && Last(done').m == menu
              && Linked(done', links, first, At(parent), links.next[menu])
              && Linked(x.rest, links, links.next[menu], par, Null)
      decreases 1 + Count(mk) + Count(mr), 2
    {
      ghost var one;
      ghost var x := Finalize(menu, mk, mr, t);
      log, one := FinalizeNext(menu, t, done, mk, mr, first, At(parent), par);
      NewParent(done, one, x.rest, parent, par, first);
      done' := Append(done, one);
      links := links.SetParent(menu, At(parent));
    }

    /** The loop over the siblings that follow `parent`: the last one swallowed and the first
        one that is not. */
    method SwallowLoop(parent: Menu, t: Tests, ghost r: Forest, ghost par: Ptr)
      returns (log: seq<Menu>, last: Ptr, menu: Ptr, ghost done: Forest, ghost todo: Forest)
      requires links.Valid() && parent < |links.next| && NoDup(r)
      requires Linked(r, links, links.next[parent], par, Null)
      modifies this
      ensures SameBut(old(links), links, Nodes(r))
      ensures NoDup(Append(done, todo)) && Nodes(Append(done, todo)) == Nodes(r)
      ensures Linked(done, links, old(links).next[parent], At(parent), menu) && Linked(todo, links, menu, par, Null)
      ensures if last == Null then done == Nil else done.Cons? && last.m == Last(done).m
      ensures SiblingsDone(parent, r, t, done, todo, log)
      ensures todo == Nil || !t.swallows(parent, todo.m)
      decreases Count(r), 3
    {
      log, last := [], Null;
      ghost var first := links.next[parent];
      menu := links.next[parent];
      done, todo := Nil, r;
      while menu != Null && t.swallows(parent, menu.m)
        invariant links.Valid() && SameBut(old(links), links, Nodes(r))
        invariant NoDup(Append(done, todo)) && Nodes(Append(done, todo)) == Nodes(r)
        invariant Linked(done, links, first, At(parent), menu) && Linked(todo, links, menu, par, Null)
        invariant if last == Null then done == Nil else done.Cons? && last.m == Last(done).m
        invariant SiblingsDone(parent, r, t, done, todo, log)
        decreases Count(todo)
      {
        SiblingsAdvance(parent, r, t, done, todo, log);
        NoDupAppend(done, todo);
        ghost var x := Finalize(menu.m, todo.kids, todo.rest, t);
        var more;
        more, done := SwallowOne(menu.m, parent, t, done, todo.kids, todo.rest, first, par);
        log, todo := log + more, x.rest;
        last := menu;
        menu := links.next[menu.m];
      }
    }

    /** What the surgery after the loop does: the swallowed chain becomes the list of the
        entry and what follows it the rest of the siblings. */
    lemma CutAfter(done: Forest, rest: Forest, parent: Menu, par: Ptr, first: Ptr, menu: Ptr)
      requires links.Valid() && parent < |links.next| && done.Cons? && NoDup(done)
      requires parent !in Nodes(done) && parent !in Nodes(rest) && Nodes(done) !! Nodes(rest)
      requires links.next[parent] == first
      requires Linked(done, links, first, At(parent), menu) && Linked(rest, links, menu, par, Null)
      ensures Last(done).m < |links.next| && links.next[Last(done).m] == menu
      ensures Last(done).m in Nodes(done)
      ensures var s := links.SetList(parent, first).SetNext(parent, menu).SetNext(Last(done).m, Null);
              && Linked(done, s, first, At(parent), Null) && Linked(rest, s, menu, par, Null)
    {
      var l := Last(done);
      InitLast(done);
      NoDupAppend(Init(done), l);
      LinkedSplit(done, links, first, At(parent), menu);
      var s1 := links.SetList(parent, first).SetNext(parent, menu);
      LinkedFrame(done, links, s1, {parent}, first, At(parent), menu);
      RelinkEnd(done, s1, first, At(parent), menu, Null);
      LinkedFrame(rest, links, s1.SetNext(l.m, Null), {parent, l.m}, menu, par, Null);
    }

    /** The loop over the siblings that follow `parent`, and the surgery after it. */
    method SwallowSiblings(parent: Menu, t: Tests, ghost r: Forest, ghost par: Ptr)
      returns (log: seq<Menu>)
      requires links.Valid() && parent < |links.next| && NoDup(Cons(parent, Nil, r))
      requires links.list[parent] == Null && Linked(r, links, links.next[parent], par, Null)
      modifies this
      ensures SameBut(old(links), links, Nodes(r) + {parent})
      ensures links.parent[parent] == old(links.parent[parent])
      ensures var x := Swallow(parent, r, t);
              && Nodes(x.kids) + Nodes(x.rest) == Nodes(r) && Nodes(x.kids) !! Nodes(x.rest)
              && NoDup(x.kids) && log == x.log
              && Linked(x.kids, links, links.list[parent], At(parent), Null)
              && Linked(x.rest, links, links.next[parent], par, Null)
      decreases Count(r), 4
    {
      var last, menu;
      ghost var done, todo;
      log, last, menu, done, todo := SwallowLoop(parent, t, r, par);
      SwallowStops(parent, r, t, done, todo, log);
      if last != Null {
        CutAfter(done, todo, parent, par, links.next[parent], menu);
        links := links.SetList(parent, links.next[parent]);
        links := links.SetNext(parent, links.next[last.m]);
        links := links.SetNext(last.m, Null);
      }
    }
  }

  // ------------------------------------------------------------------------- the walk

  /** The chains above the current one: the entry they hang below, and what follows it. */
  datatype Above = Top | Under(m: Menu, rest: Forest, outer: Above)

  function UnderPtr(a: Above): Ptr { if a.Top? then Null else At(a.m) }

  predicate Hanging(a: Above, s: Links)
    requires s.Valid()
  {
    a.Under? ==>
      && a.m < |s.next| && s.parent[a.m] == UnderPtr(a.outer)
      && Linked(a.rest, s, s.next[a.m], UnderPtr(a.outer), Null) && Hanging(a.outer, s)
  }

  function Upward(a: Above): seq<Menu> {
    if a.Top? then [] else Preorder(a.rest) + Upward(a.outer)
  }

  function Remaining(a: Above): nat {
    if a.Top? then 0 else 1 + 2 * Count(a.rest) + Remaining(a.outer)
  }

  /** Everything the walk has still to pass, in order. */
  function Pending(here: Forest, above: Above): seq<Menu> { Preorder(here) + Upward(above) }

  function FirstOf(s: seq<Menu>): Ptr { if s == [] then Null else At(s[0]) }

  lemma Regrouped(m: Menu, a: seq<Menu>, b: seq<Menu>, c: seq<Menu>)
    ensures [m] + a + b + c == [m] + (a + (b + c))
    ensures a == [] ==> [m] + a + b + c == [m] + (b + c)
    ensures a == [] && b == [] ==> [m] + a + b + c == [m] + c
  {
  }

  lemma PendingDown(m: Menu, kids: Forest, rest: Forest, above: Above)
    ensures Pending(Cons(m, kids, rest), above) == [m] + Pending(kids, Under(m, rest, above))
    ensures kids == Nil ==> Pending(Cons(m, kids, rest), above) == [m] + Pending(rest, above)
    ensures kids == Nil && rest == Nil ==> Pending(Cons(m, kids, rest), above) == [m] + Upward(above)
    ensures above.Under? ==> Upward(above) == Pending(above.rest, above.outer)
    ensures Pending(Nil, above) == Upward(above)
  {
    Regrouped(m, Preorder(kids), Preorder(rest), Upward(above));
    assert [] + Upward(above) == Upward(above);
  }

  /** The loop up the parent pointers: the next sibling of the nearest
      ancestor that has one. */
  method Climb(s: Links, from: Menu, ghost a: Above) returns (menu: Ptr, ghost b: Above)
    requires s.Valid() && from < |s.next| && s.parent[from] == UnderPtr(a) && Hanging(a, s)
    ensures Upward(b) == Upward(a) && Remaining(b) <= Remaining(a) && Hanging(b, s)
    ensures menu == FirstOf(Upward(a)) && (menu == Null ==> b == Top)
    ensures menu != Null ==> b.Under? && b.rest.Cons? && s.next[b.m] == menu
  {
    b := a;
    menu := s.parent[from];
    while menu != Null
      invariant Hanging(b, s) && menu == UnderPtr(b)
      invariant Upward(b) == Upward(a) && Remaining(b) <= Remaining(a)
      decreases b
    {
      if s.next[menu.m] != Null {
        menu := s.next[menu.m];
        return;
      }
      menu := s.parent[menu.m];
      b := b.outer;
    }
  }

  /** The step of the walk: down, else on, else up until one can go on. */
  method NextMenu(s: Links, m: Menu, ghost here: Forest, ghost above: Above)
    returns (menu: Ptr, ghost here': Forest, ghost above': Above)
    requires s.Valid() && here.Cons? && Linked(here, s, At(m), UnderPtr(above), Null) && Hanging(above, s)
    ensures Linked(here', s, menu, UnderPtr(above'), Null) && Hanging(above', s)
    ensures Pending(here, above) == [m] + Pending(here', above')
    ensures 2 * Count(here') + Remaining(above') < 2 * Count(here) + Remaining(above)
    ensures menu == FirstOf(Pending(here, above)[1..]) && (menu == Null ==> Pending(here', above') == [])
  {
    ghost var Cons(_, kids, rest) := here;
    PendingDown(m, kids, rest, above);
    if s.list[m] != Null {
      menu := s.list[m];
      here', above' := kids, Under(m, rest, above);
    } else if s.next[m] != Null {
      menu := s.next[m];
      here', above' := rest, above;
    } else {
      ghost var b;
      menu, b := Climb(s, m, above);
      here', above' := Nil, b;
      PendingDown(m, kids, rest, b);
      if menu != Null {
        here', above' := b.rest, b.outer;
      }
    }
  }

  lemma Shift(a: seq<Menu>, m: Menu, b: seq<Menu>)
    ensures a + ([m] + b) == a + [m] + b
  {
  }

  /** The walk of conf_write and conf_write_defconfig.  It follows parent pointers and keeps
      no stack, and passes every entry below the root exactly once, in menu order. */
  method Walk(s: Links, root: Menu, ghost k: Forest) returns (visited: seq<Menu>)
    requires s.Valid() && Linked(Cons(root, k, Nil), s, At(root), Null, Null)
    ensures visited == Preorder(k)
  {
    visited := [];
    var menu := s.list[root];
    ghost var here, above := k, Under(root, Nil, Top);
    assert Upward(above) == Preorder(Nil) + Upward(Top);
    while menu != Null
      invariant Linked(here, s, menu, UnderPtr(above), Null) && Hanging(above, s)
      invariant Preorder(k) == visited + Pending(here, above)
      invariant menu == FirstOf(Pending(here, above))
      decreases 2 * Count(here) + Remaining(above)
    {
      ghost var m := menu.m;
      visited := visited + [menu.m];
      menu, here, above := NextMenu(s, menu.m, here, above);
      Shift(visited[..|visited| - 1], m, Pending(here, above));
    }
  }
}
