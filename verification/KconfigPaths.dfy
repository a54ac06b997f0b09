/** Slots inside an expression tree.  A C pointer to a child pointer is a path from the root
    here, so two cursors into one tree are two paths, equal exactly when they alias. */
module KconfigPaths {
  import opened KconfigExpr
  import opened KconfigEq

  datatype Dir = L | R
  type Path = seq<Dir>

  function Child(t: Expr, d: Dir): Expr
    requires t.Bin?
  {
    if d == L then t.l else t.r
  }

  /** The path stays inside the tree, going through "and" and "or" nodes only. */
  predicate Within(t: Expr, p: Path)
    decreases |p|
  {
    p != [] ==> t.Bin? && Within(Child(t, p[0]), p[1..])
  }

  /** What the cursor points at. */
  function Sub(t: Expr, p: Path): Expr
    requires Within(t, p)
    decreases |p|
  {
    if p == [] then t else Sub(Child(t, p[0]), p[1..])
  }

  /** Storing through the cursor. */
  function Store(t: Expr, p: Path, x: Expr): Expr
    requires Within(t, p)
    decreases |p|
  {
    if p == [] then x
    else if p[0] == L then Bin(t.op, Store(t.l, p[1..], x), t.r)
    else Bin(t.op, t.l, Store(t.r, p[1..], x))
  }

  lemma {:induction false} SubStore(t: Expr, p: Path, x: Expr)
    requires Within(t, p)
    ensures Within(Store(t, p, x), p) && Sub(Store(t, p, x), p) == x
    ensures Store(t, p, Sub(t, p)) == t
    ensures forall y :: Store(Store(t, p, x), p, y) == Store(t, p, y)
    ensures Size(Store(t, p, x)) == Size(t) - Size(Sub(t, p)) + Size(x)
    decreases |p|
  {
    if p != [] {
      SubStore(Child(t, p[0]), p[1..], x);
    }
  }

  lemma {:induction false} SubSmaller(t: Expr, p: Path)
    requires Within(t, p)
    ensures Size(Sub(t, p)) <= Size(t)
    ensures p != [] ==> Size(Sub(t, p)) < Size(t)
    decreases |p|
  {
    if p != [] {
      SubSmaller(Child(t, p[0]), p[1..]);
    }
  }

  /** Cursors compose: following `r` and then `p`. */
  lemma {:induction false} Compose(t: Expr, r: Path, p: Path)
    requires Within(t, r) && Within(Sub(t, r), p)
    ensures Within(t, r + p) && Sub(t, r + p) == Sub(Sub(t, r), p)
    ensures forall x :: Store(t, r + p, x) == Store(t, r, Store(Sub(t, r), p, x))
    decreases |r|
  {
    if r == [] {
      assert r + p == p;
    } else {
      assert (r + p)[1..] == r[1..] + p;
      Compose(Child(t, r[0]), r[1..], p);
    }
  }

  /** One step further down. */
  lemma Descend(t: Expr, p: Path, d: Dir)
    requires Within(t, p) && Sub(t, p).Bin?
    ensures Within(t, p + [d]) && Sub(t, p + [d]) == Child(Sub(t, p), d)
  {
    Compose(t, p, [d]);
  }

  // ------------------------------------------------------------------------- spines

  /** The path goes through `op` nodes only. */
  predicate OnSpine(op: Op, t: Expr, p: Path)
    decreases |p|
  {
    p != [] ==> IsSpine(op, t) && OnSpine(op, Child(t, p[0]), p[1..])
  }

  /** The path ends where the `op` nodes end. */
  predicate AtLeaf(op: Op, t: Expr, p: Path)
    decreases |p|
  {
    if p == [] then !IsSpine(op, t) else IsSpine(op, t) && AtLeaf(op, Child(t, p[0]), p[1..])
  }

  lemma {:induction false} OnSpineFacts(op: Op, t: Expr, p: Path)
    requires OnSpine(op, t, p)
    ensures Within(t, p)
    ensures AtLeaf(op, t, p) <==> !IsSpine(op, Sub(t, p))
    ensures IsSpine(op, Sub(t, p)) ==> OnSpine(op, t, p + [L]) && OnSpine(op, t, p + [R])
    decreases |p|
  {
    if p != [] {
      OnSpineFacts(op, Child(t, p[0]), p[1..]);
      assert (p + [L])[1..] == p[1..] + [L] && (p + [R])[1..] == p[1..] + [R];
    }
  }

  lemma {:induction false} AtLeafOnSpine(op: Op, t: Expr, p: Path)
    requires AtLeaf(op, t, p)
    ensures OnSpine(op, t, p)
    decreases |p|
  {
    if p != [] {
      AtLeafOnSpine(op, Child(t, p[0]), p[1..]);
    }
  }

  /** The same arrangement of `op` nodes. */
  predicate SameShape(op: Op, a: Expr, b: Expr) {
    if IsSpine(op, a) && IsSpine(op, b) then SameShape(op, a.l, b.l) && SameShape(op, a.r, b.r)
    else !IsSpine(op, a) && !IsSpine(op, b)
  }

  function SpineSize(op: Op, t: Expr): nat {
    if IsSpine(op, t) then 1 + SpineSize(op, t.l) + SpineSize(op, t.r) else 1
  }

  lemma {:induction false} SameShapeFacts(op: Op, a: Expr, b: Expr)
    ensures SameShape(op, a, a)
    ensures SameShape(op, a, b) ==> SpineSize(op, a) == SpineSize(op, b)
  {
    if IsSpine(op, a) {
      SameShapeFacts(op, a.l, if IsSpine(op, b) then b.l else b);
      SameShapeFacts(op, a.r, if IsSpine(op, b) then b.r else b);
    }
  }

  lemma {:induction false} SameShapeTransitive(op: Op, a: Expr, b: Expr, c: Expr)
    requires SameShape(op, a, b) && SameShape(op, b, c)
    ensures SameShape(op, a, c)
  {
    if IsSpine(op, a) {
      SameShapeTransitive(op, a.l, b.l, c.l);
      SameShapeTransitive(op, a.r, b.r, c.r);
    }
  }

  lemma {:induction false} SameShapeAt(op: Op, a: Expr, b: Expr, p: Path)
    requires SameShape(op, a, b) && OnSpine(op, a, p)
    ensures OnSpine(op, b, p) && Within(a, p) && Within(b, p)
    ensures SameShape(op, Sub(a, p), Sub(b, p))
    decreases |p|
  {
    if p != [] {
      SameShapeAt(op, Child(a, p[0]), Child(b, p[0]), p[1..]);
    }
  }

  /** Storing a leaf over a leaf keeps the arrangement. */
  lemma {:induction false} StoreKeepsShape(op: Op, t: Expr, p: Path, x: Expr)
    requires AtLeaf(op, t, p) && Within(t, p) && !IsSpine(op, x)
    ensures SameShape(op, t, Store(t, p, x)) && AtLeaf(op, Store(t, p, x), p)
    decreases |p|
  {
    if p != [] {
      StoreKeepsShape(op, Child(t, p[0]), p[1..], x);
      SameShapeFacts(op, t.l, t.l);
      SameShapeFacts(op, t.r, t.r);
    }
  }

  /** Two different leaves are separate slots: neither store reaches the other. */
  lemma {:induction false} LeavesApart(op: Op, t: Expr, p: Path, q: Path, x: Expr)
    requires AtLeaf(op, t, p) && AtLeaf(op, t, q) && p != q && Within(t, p) && !IsSpine(op, x)
    ensures Within(t, q) && Within(Store(t, p, x), q) && AtLeaf(op, Store(t, p, x), q)
    ensures Sub(Store(t, p, x), q) == Sub(t, q)
    decreases |p|
  {
    AtLeafOnSpine(op, t, q);
    OnSpineFacts(op, t, q);
    if p[0] == q[0] {
      assert p == [p[0]] + p[1..] && q == [q[0]] + q[1..];
      LeavesApart(op, Child(t, p[0]), p[1..], q[1..], x);
    }
  }

  // --------------------------------------------------------------- spines and values

  lemma CombineMoves(op: Op, a: Tri, b: Tri, c: Tri)
    ensures Combine(op, Combine(op, a, b), c) == Combine(op, a, Combine(op, b, c))
    ensures Combine(op, c, Combine(op, a, b)) == Combine(op, a, Combine(op, c, b))
  {
  }

  /** A slot on a spine contributes its own value and nothing else. */
  lemma {:induction false} SlotValue(op: Op, t: Expr, p: Path, x: Expr, v: Valuation)
    requires OnSpine(op, t, p) && Within(t, p) && Proper(v)
    ensures Value(Store(t, p, x), v) == Combine(op, Value(x, v), Value(Store(t, p, Neutral(op)), v))
    decreases |p|
  {
    assert v.tri(SYM_YES) == YES && v.tri(SYM_NO) == NO;
    if p != [] {
      var n := Neutral(op);
      SlotValue(op, Child(t, p[0]), p[1..], x, v);
      var rest := Value(Store(Child(t, p[0]), p[1..], n), v);
      CombineMoves(op, Value(x, v), rest, Value(if p[0] == L then t.r else t.l, v));
    }
  }

  /** The tree's value is that of the slot combined with that of the rest. */
  lemma SlotBounds(op: Op, t: Expr, p: Path, v: Valuation)
    requires OnSpine(op, t, p) && Within(t, p) && Proper(v)
    ensures Combine(op, Value(Sub(t, p), v), Value(t, v)) == Value(t, v)
  {
    SubStore(t, p, t);
    SlotValue(op, t, p, Sub(t, p), v);
  }

  /** Stores into two different leaves commute. */
  lemma {:induction false} StoresCommute(op: Op, t: Expr, p: Path, q: Path, x: Expr, y: Expr)
    requires AtLeaf(op, t, p) && AtLeaf(op, t, q) && p != q
    ensures Within(t, p) && Within(t, q)
    ensures Within(Store(t, p, x), q) && Within(Store(t, q, y), p)
    ensures Store(Store(t, p, x), q, y) == Store(Store(t, q, y), p, x)
    ensures OnSpine(op, Store(t, p, x), q) && OnSpine(op, Store(t, q, y), p)
    decreases |p|
  {
    assert p != [] && q != [];
    if p[0] == q[0] {
      assert p == [p[0]] + p[1..] && q == [q[0]] + q[1..];
      StoresCommute(op, Child(t, p[0]), p[1..], q[1..], x, y);
    } else {
      AtLeafOnSpine(op, Child(t, p[0]), p[1..]);
      AtLeafOnSpine(op, Child(t, q[0]), q[1..]);
      OnSpineFacts(op, Child(t, p[0]), p[1..]);
      OnSpineFacts(op, Child(t, q[0]), q[1..]);
    }
  }

  /** The value of a tree with two leaves filled in. */
  lemma TwoSlotValue(op: Op, t: Expr, p: Path, q: Path, x: Expr, y: Expr, v: Valuation)
    requires AtLeaf(op, t, p) && AtLeaf(op, t, q) && p != q && Proper(v)
    requires Within(t, p) && Within(Store(t, p, x), q)
    requires Within(Store(t, p, Neutral(op)), q)
    ensures Value(Store(Store(t, p, x), q, y), v)
         == Combine(op, Combine(op, Value(x, v), Value(y, v)),
                    Value(Store(Store(t, p, Neutral(op)), q, Neutral(op)), v))
  {
    var n := Neutral(op);
    StoresCommute(op, t, p, q, x, n);
    StoresCommute(op, t, p, q, n, n);
    SlotValue(op, Store(t, p, x), q, y, v);
    SlotValue(op, Store(t, q, n), p, x, v);
  }

  /** Rewriting two different leaves keeps the value when it keeps their combined value. */
  lemma TwoSlots(op: Op, t: Expr, p: Path, q: Path, x: Expr, y: Expr, v: Valuation)
    requires AtLeaf(op, t, p) && AtLeaf(op, t, q) && p != q && Proper(v)
    requires Within(t, p) && Within(t, q) && Within(Store(t, p, x), q)
    ensures Combine(op, Value(x, v), Value(y, v)) == Combine(op, Value(Sub(t, p), v), Value(Sub(t, q), v))
        ==> Value(Store(Store(t, p, x), q, y), v) == Value(t, v)
  {
    StoresCommute(op, t, p, q, Neutral(op), Neutral(op));
    SubStore(t, p, x);
    SubStore(t, q, x);
    TwoSlotValue(op, t, p, q, x, y, v);
    TwoSlotValue(op, t, p, q, Sub(t, p), Sub(t, q), v);
  }

  // ------------------------------------------------------------- constants in a tree

  lemma {:induction false} HasYnBelow(t: Expr, p: Path)
    requires Within(t, p)
    ensures HasYn(Sub(t, p)) ==> HasYn(t)
    ensures p != [] && IsYn(Sub(t, p)) ==> HasYn(t)
    decreases |p|
  {
    if p != [] {
      HasYnBelow(Child(t, p[0]), p[1..]);
    }
  }
}
