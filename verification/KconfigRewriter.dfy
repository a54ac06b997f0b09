/** The expression rewriters of scripts/kconfig/expr.c in the form the program gives them:
    they walk an expression with cursors and store through them, and count what they change.
    A rewriter holds the trees being worked on; a cursor is a path into one of them, and two
    cursors may point into the same tree. */
module KconfigRewriter {
  import opened Basics
  import opened KconfigExpr
  import opened KconfigEq
  import opened KconfigJoin
  import opened KconfigTransform
  import opened KconfigPaths
  import opened KconfigDups

  /** The two slots directly below the one at `p`. */
  lemma ChildSlot(t: Expr, p: Path)
    requires Within(t, p) && Sub(t, p).Bin?
    ensures var e := Sub(t, p);
            && Within(t, p + [L]) && Sub(t, p + [L]) == e.l
            && Within(t, p + [R]) && Sub(t, p + [R]) == e.r
            && (forall x :: Store(t, p + [L], x) == Store(t, p, Bin(e.op, x, e.r)))
            && (forall x :: Store(t, p + [R], x) == Store(t, p, Bin(e.op, e.l, x)))
  {
    Descend(t, p, L);
    Descend(t, p, R);
    Compose(t, p, [L]);
    Compose(t, p, [R]);
  }

  /** A cursor on the spine of a frame is a cursor into the whole tree. */
  lemma CursorsWithin(op: Op, t: Expr, r: Path, p: Path)
    requires Within(t, r) && OnSpine(op, Sub(t, r), p)
    ensures Within(Sub(t, r), p) && Within(t, r + p)
    ensures Sub(t, r + p) == Sub(Sub(t, r), p)
    ensures forall x :: Store(t, r + p, x) == Store(t, r, Store(Sub(t, r), p, x))
    ensures AtLeaf(op, Sub(t, r), p) <==> !IsSpine(op, Sub(t, r + p))
  {
    OnSpineFacts(op, Sub(t, r), p);
    Compose(t, r, p);
  }

  class Rewriter {
    var root: Expr
    var other: Expr
    var transCount: nat
    /** What has been taken out of both trees. */
    var common: Option<Expr>

    constructor (e1: Expr, e2: Expr)
      ensures root == e1 && other == e2 && transCount == 0 && common == None
    {
      root, other, transCount, common := e1, e2, 0, None;
    }

    /** expr_eliminate_yn on the subtree at `p`. */
    method PruneYn(p: Path)
      requires Within(root, p)
      modifies this`root
      ensures root == Store(old(root), p, EliminateYn(Sub(old(root), p)))
      decreases Size(Sub(root, p))
    {
      ghost var t := Sub(root, p);
      if !Sub(root, p).Bin? {
        SubStore(root, p, t);
        return;
      }
      var op := Sub(root, p).op;
      Descend(root, p, L);
      Compose(root, p, [L]);
      PruneYn(p + [L]);
      assert root == Store(old(root), p, Bin(op, EliminateYn(t.l), t.r));
      SubStore(old(root), p, Bin(op, EliminateYn(t.l), t.r));
      Descend(root, p, R);
      Compose(root, p, [R]);
      PruneYn(p + [R]);
      var l, r := EliminateYn(t.l), EliminateYn(t.r);
      assert root == Store(old(root), p, Bin(op, l, r));
      SubStore(old(root), p, Bin(op, l, r));
      var e := Sub(root, p);
      if e.l == Absorbing(op) {
        root := Store(root, p, Absorbing(op));
      } else if e.l == Neutral(op) {
        root := Store(root, p, e.r);
      } else if e.r == Absorbing(op) {
        root := Store(root, p, Absorbing(op));
      } else if e.r == Neutral(op) {
        root := Store(root, p, e.l);
      }
    }

    // --------------------------------------------------- cancelling between two trees

    /** __expr_eliminate_eq, one cursor in each tree. */
    method EliminateEqAtCursors(op: Op, p: Path, q: Path)
      requires Within(root, p) && Within(other, q)
      modifies this`root, this`other, this`transCount
      ensures var x := EliminateEqAt(op, Sub(old(root), p), Sub(old(other), q));
              && root == Store(old(root), p, x.e1) && other == Store(old(other), q, x.e2)
              && transCount == old(transCount) + x.count
      decreases Size(Sub(root, p)) + Size(Sub(other, q)),
                if IsSpine(op, Sub(root, p)) || IsSpine(op, Sub(other, q)) then 0 else 3
    {
      ghost var a, b := Sub(root, p), Sub(other, q);
      SubStore(root, p, a);
      SubStore(other, q, b);
      if IsSpine(op, Sub(root, p)) {
        ghost var x := EliminateEqAt(op, a.l, b);
        ChildSlot(root, p);
        EliminateEqAtCursors(op, p + [L], q);
        ghost var a' := Bin(op, x.e1, a.r);
        SubStore(old(root), p, a');
        SubStore(old(other), q, x.e2);
        ChildSlot(root, p);
        EliminateEqAtCursors(op, p + [R], q);
      } else if IsSpine(op, Sub(other, q)) {
        ghost var x := EliminateEqAt(op, a, b.l);
        ChildSlot(other, q);
        EliminateEqAtCursors(op, p, q + [L]);
        ghost var b' := Bin(op, x.e2, b.r);
        SubStore(old(other), q, b');
        SubStore(old(root), p, x.e1);
        ChildSlot(other, q);
        EliminateEqAtCursors(op, p, q + [R]);
      } else {
        CancelLeaves(op, p, q);
      }
    }

    method CancelLeaves(op: Op, p: Path, q: Path)
      requires Within(root, p) && Within(other, q)
      requires !IsSpine(op, Sub(root, p)) && !IsSpine(op, Sub(other, q))
      modifies this`root, this`other, this`transCount
      ensures var x := EliminateEqAt(op, Sub(old(root), p), Sub(old(other), q));
              && root == Store(old(root), p, x.e1) && other == Store(old(other), q, x.e2)
              && transCount == old(transCount) + x.count
      decreases Size(Sub(root, p)) + Size(Sub(other, q)), 3, 0
    {
      var e1, e2 := Sub(root, p), Sub(other, q);
      SubStore(root, p, e1);
      SubStore(other, q, e2);
      if e1 == e2 && IsYn(e1) { return; }
      var same := ExprEqual(e1, e2);
      if !same { return; }
      transCount := transCount + 1;
      root := Store(root, p, Neutral(op));
      other := Store(other, q, Neutral(op));
    }

    /** expr_eliminate_yn on the second tree. */
    method PruneOther()
      modifies this`other
      ensures other == EliminateYn(old(other))
    {
      var w := new Rewriter(other, other);
      w.PruneYn([]);
      other := w.root;
    }

    /** expr_eliminate_eq */
    method EliminateEquals()
      modifies this`root, this`other, this`transCount
      ensures var x := EliminateEq(old(root), old(other));
              root == x.e1 && other == x.e2 && transCount == old(transCount) + x.count
      decreases Size(root) + Size(other), 1
    {
      ghost var e1, e2 := root, other;
      var start: Path := [];
      if root.Bin? {
        EliminateEqAtCursors(root.op, start, start);
      }
      ghost var p := if e1.Bin? then EliminateEqAt(e1.op, e1, e2) else Pair(e1, e2, 0);
      assert root == p.e1 && other == p.e2;
      if other.Bin? && !(root.Bin? && root.op == other.op) {
        EliminateEqAtCursors(other.op, start, start);
      }
      PruneYn(start);
      PruneOther();
    }

    /** expr_eq: work on copies, and leave trans_count as it was. */
    static method ExprEqual(e1: Expr, e2: Expr) returns (res: bool)
      ensures res == ExprEq(e1, e2)
      ensures res ==> Same(e1, e2)
      decreases Size(e1) + Size(e2), 2
    {
      match (e1, e2) {
        case (Symbol(s), Symbol(t)) => res := s == t;
        case (Equal(a, b), Equal(c, d)) => res := a == c && b == d;
        case (Unequal(a, b), Unequal(c, d)) => res := a == c && b == d;
        case (Not(x), Not(y)) => res := ExprEqual(x, y);
        case (Bin(op, _, _), Bin(op', _, _)) =>
          if op != op' {
            res := false;
          } else {
            var w := new Rewriter(e1, e2);
            w.EliminateEquals();
            res := w.root.Symbol? && w.other.Symbol? && w.root.sym == w.other.sym;
          }
        case _ => res := false;
      }
      if res { ExprEqSound(e1, e2); }
    }

    // ---------------------------------------------------- taking out of two trees

    method ExtractLeaves(op: Op, p: Path, q: Path)
      requires Within(root, p) && Within(other, q)
      requires !IsSpine(op, Sub(root, p)) && !IsSpine(op, Sub(other, q))
      modifies this`root, this`other, this`common
      ensures var x := ExtractEq(op, old(common), Sub(old(root), p), Sub(old(other), q));
              root == Store(old(root), p, x.e1) && other == Store(old(other), q, x.e2) && common == x.common
    {
      var e1 := Sub(root, p);
      SubStore(root, p, e1);
      SubStore(other, q, Sub(other, q));
      var same := ExprEqual(e1, Sub(other, q));
      if same {
        common := Some(if common.Some? then Bin(op, common.value, e1) else e1);
        root := Store(root, p, Neutral(op));
        other := Store(other, q, Neutral(op));
      }
    }

    /** expr_extract_eq, one cursor in each tree. */
    method ExtractEqAtCursors(op: Op, p: Path, q: Path)
      requires Within(root, p) && Within(other, q)
      modifies this`root, this`other, this`common
      ensures var x := ExtractEq(op, old(common), Sub(old(root), p), Sub(old(other), q));
              root == Store(old(root), p, x.e1) && other == Store(old(other), q, x.e2) && common == x.common
      decreases Size(Sub(root, p)) + Size(Sub(other, q))
    {
      ghost var a, b := Sub(root, p), Sub(other, q);
      SubStore(root, p, a);
      SubStore(other, q, b);
      if IsSpine(op, Sub(root, p)) {
        ghost var x := ExtractEq(op, common, a.l, b);
        ChildSlot(root, p);
        ExtractEqAtCursors(op, p + [L], q);
        SubStore(old(root), p, Bin(op, x.e1, a.r));
        SubStore(old(other), q, x.e2);
        ChildSlot(root, p);
        ExtractEqAtCursors(op, p + [R], q);
      } else if IsSpine(op, Sub(other, q)) {
        ghost var x := ExtractEq(op, common, a, b.l);
        ChildSlot(other, q);
        ExtractEqAtCursors(op, p, q + [L]);
        SubStore(old(other), q, Bin(op, x.e2, b.r));
        SubStore(old(root), p, x.e1);
        ChildSlot(other, q);
        ExtractEqAtCursors(op, p, q + [R]);
      } else {
        ExtractLeaves(op, p, q);
      }
    }

    /** expr_extract_eq_and, expr_extract_eq_or */
    method ExtractEquals(op: Op)
      modifies this`root, this`other, this`common
      ensures var x := Extracted(op, old(root), old(other));
              root == x.e1 && other == x.e2 && common == x.common
    {
      common := None;
      var start: Path := [];
      ExtractEqAtCursors(op, start, start);
      if common.Some? {
        PruneYn(start);
        PruneOther();
      }
    }

    /** The part of expr_eliminate_dups2 that tests whether one leaf opposes another, on
        copies of both. */
    static method IsOpposed(op: Op, e1: Expr, e2: Expr) returns (yes: bool)
      ensures yes == Opposed(op, e1, e2)
    {
      if !(e1.Bin? && e1.op == Dual(op)) { return false; }
      var w := new Rewriter(Transform(Not(e1)), e2);
      w.ExtractEquals(op);
      yes := w.root == Neutral(op);
    }

    // ---------------------------------------------------- merging within one tree

    /** expr_eliminate_dups1.  Both cursors stand on the spine of the frame at `r`. */
    method EliminateDups1(op: Op, p: Path, q: Path, ghost r: Path, ghost p': Path, ghost q': Path)
      requires Within(root, r) && p == r + p' && q == r + q'
      requires OnSpine(op, Sub(root, r), p') && OnSpine(op, Sub(root, r), q')
      modifies this`root, this`transCount
      ensures var w := Dups1(op, Sub(old(root), r), p', q');
              root == Store(old(root), r, w.t) && transCount == old(transCount) + w.count
      decreases Size(Sub(root, r)), Work(op, Sub(root, r), p', q')
    {
      ghost var t := Sub(root, r);
      CursorsWithin(op, root, r, p');
      CursorsWithin(op, root, r, q');
      if IsSpine(op, Sub(root, p)) {
        UnderFirst1(op, p, q, r, p', q');
      } else if IsSpine(op, Sub(root, q)) {
        UnderSecond1(op, p, q, r, p', q');
      } else if p == q {
        assert p' == p[|r|..] && q' == q[|r|..];
        SubStore(root, r, t);
      } else {
        JoinPair(op, p, q, r, p', q');
      }
    }

    /** expr_eliminate_dups1 when the first cursor is at a spine node. */
    method UnderFirst1(op: Op, p: Path, q: Path, ghost r: Path, ghost p': Path, ghost q': Path)
      requires Within(root, r) && p == r + p' && q == r + q'
      requires OnSpine(op, Sub(root, r), p') && OnSpine(op, Sub(root, r), q')
      requires Within(root, p) && Within(Sub(root, r), p') && Sub(root, p) == Sub(Sub(root, r), p')
      requires IsSpine(op, Sub(root, p))
      modifies this`root, this`transCount
      ensures var w := Dups1(op, Sub(old(root), r), p', q');
              root == Store(old(root), r, w.t) && transCount == old(transCount) + w.count
      decreases Size(Sub(root, r)), Work(op, Sub(root, r), p', q'), 0
    {
      ghost var t := Sub(root, r);
      WorkLess(op, t, p', q');
      assert p + [L] == r + (p' + [L]) && p + [R] == r + (p' + [R]);
      EliminateDups1(op, p + [L], q, r, p' + [L], q');
      ghost var a := Dups1(op, t, p' + [L], q');
      SubStore(old(root), r, a.t);
      WorkSame(op, t, a.t, p' + [R], q');
      EliminateDups1(op, p + [R], q, r, p' + [R], q');
    }

    /** expr_eliminate_dups1 when only the second cursor is at a spine node. */
    method UnderSecond1(op: Op, p: Path, q: Path, ghost r: Path, ghost p': Path, ghost q': Path)
      requires Within(root, r) && p == r + p' && q == r + q'
      requires OnSpine(op, Sub(root, r), p') && OnSpine(op, Sub(root, r), q')
      requires Within(root, q) && Within(Sub(root, r), q') && Sub(root, q) == Sub(Sub(root, r), q')
      requires Within(Sub(root, r), p') && !IsSpine(op, Sub(Sub(root, r), p')) && IsSpine(op, Sub(root, q))
      modifies this`root, this`transCount
      ensures var w := Dups1(op, Sub(old(root), r), p', q');
              root == Store(old(root), r, w.t) && transCount == old(transCount) + w.count
      decreases Size(Sub(root, r)), Work(op, Sub(root, r), p', q'), 0
    {
      ghost var t := Sub(root, r);
      WorkLess(op, t, q', p');
      assert q + [L] == r + (q' + [L]) && q + [R] == r + (q' + [R]);
      EliminateDups1(op, p, q + [L], r, p', q' + [L]);
      ghost var a := Dups1(op, t, p', q' + [L]);
      SubStore(old(root), r, a.t);
      WorkSame(op, t, a.t, p', q' + [R]);
      EliminateDups1(op, p, q + [R], r, p', q' + [R]);
    }

    /** Store the join of two leaves into the second slot and the neutral constant into the
        first, if they join. */
    method JoinAt(op: Op, p: Path, q: Path, ghost r: Path, ghost p': Path, ghost q': Path)
      requires Within(root, r) && p == r + p' && q == r + q' && p' != q'
      requires AtLeaf(op, Sub(root, r), p') && AtLeaf(op, Sub(root, r), q')
      modifies this`root, this`transCount
      ensures var w := JoinLeaves(op, Sub(old(root), r), p', q');
              root == Store(old(root), r, w.t) && transCount == old(transCount) + w.count
    {
      ghost var t := Sub(root, r);
      AtLeafOnSpine(op, t, p');
      AtLeafOnSpine(op, t, q');
      CursorsWithin(op, root, r, p');
      CursorsWithin(op, root, r, q');
      SubStore(root, r, t);
      var tmp := Join(op, Sub(root, p), Sub(root, q));
      if tmp.Some? {
        LeavesApart(op, t, p', q', Neutral(op));
        ghost var b := Store(t, p', Neutral(op));
        root := Store(root, p, Neutral(op));
        SubStore(old(root), r, b);
        Compose(root, r, q');
        root := Store(root, q, tmp.value);
        transCount := transCount + 1;
      }
    }

    /** The rest of expr_eliminate_dups1, for two different leaves. */
    method JoinPair(op: Op, p: Path, q: Path, ghost r: Path, ghost p': Path, ghost q': Path)
      requires Within(root, r) && p == r + p' && q == r + q' && p' != q'
      requires AtLeaf(op, Sub(root, r), p') && AtLeaf(op, Sub(root, r), q')
      requires OnSpine(op, Sub(root, r), p') && OnSpine(op, Sub(root, r), q')
      modifies this`root, this`transCount
      ensures var w := Dups1(op, Sub(old(root), r), p', q');
              root == Store(old(root), r, w.t) && transCount == old(transCount) + w.count
      decreases Size(Sub(root, r)), Work(op, Sub(root, r), p', q'), 0
    {
      ghost var t := Sub(root, r);
      ghost var a := Inner1(op, t, p');
      OnSpineFacts(op, t, p');
      OnSpineFacts(op, t, q');
      EliminateInside1(op, p, r, p');
      SubStore(old(root), r, a.t);
      SameShapeAt(op, t, a.t, q');
      OnSpineFacts(op, a.t, q');
      JoinAt(op, p, q, r, p', q');
    }

    method EliminateInside1(op: Op, p: Path, ghost r: Path, ghost p': Path)
      requires Within(root, r) && p == r + p' && p' != []
      requires AtLeaf(op, Sub(root, r), p') && OnSpine(op, Sub(root, r), p')
      modifies this`root, this`transCount
      ensures var w := Inner1(op, Sub(old(root), r), p');
              root == Store(old(root), r, w.t) && transCount == old(transCount) + w.count
      decreases Size(Sub(root, r)), 0
    {
      CursorsWithin(op, root, r, p');
      SubSmaller(Sub(root, r), p');
      SubStore(root, r, root);
      var e := Sub(root, p);
      if e.Bin? {
        assert p == p + [];
        EliminateDups1(e.op, p, p, p, [], []);
      }
    }

    /** Replace a leaf by a constant if what the second cursor points at opposes it. */
    method OpposeAt(op: Op, p: Path, q: Path, ghost r: Path, ghost p': Path, ghost q': Path)
      requires Within(root, r) && p == r + p' && q == r + q' && p' != []
      requires AtLeaf(op, Sub(root, r), p') && OnSpine(op, Sub(root, r), q')
      modifies this`root, this`transCount
      ensures var w := Oppose(op, Sub(old(root), r), p', q');
              root == Store(old(root), r, w.t) && transCount == old(transCount) + w.count
    {
      AtLeafOnSpine(op, Sub(root, r), p');
      CursorsWithin(op, root, r, p');
      CursorsWithin(op, root, r, q');
      SubStore(root, r, root);
      var opposed := IsOpposed(op, Sub(root, p), Sub(root, q));
      if opposed {
        root := Store(root, p, Absorbing(op));
        transCount := transCount + 1;
      }
    }

    /** expr_eliminate_dups2 */
    method EliminateDups2(op: Op, p: Path, q: Path, ghost r: Path, ghost p': Path, ghost q': Path)
      requires Within(root, r) && p == r + p' && q == r + q'
      requires OnSpine(op, Sub(root, r), p') && OnSpine(op, Sub(root, r), q')
      modifies this`root, this`transCount
      ensures var w := Dups2(op, Sub(old(root), r), p', q');
              root == Store(old(root), r, w.t) && transCount == old(transCount) + w.count
      decreases Size(Sub(root, r)), Work(op, Sub(root, r), p', q')
    {
      ghost var t := Sub(root, r);
      CursorsWithin(op, root, r, p');
      if IsSpine(op, Sub(root, p)) {
        UnderFirst2(op, p, q, r, p', q');
        return;
      }
      ghost var a := Below2(op, t, p', q');
      EliminateBelow2(op, p, q, r, p', q');
      SubStore(old(root), r, a.t);
      WorkSame(op, t, a.t, p', q');
      SameShapeAt(op, t, a.t, p');
      OnSpineFacts(op, a.t, p');
      assert p' == p[|r|..] && q' == q[|r|..];
      if p != q {
        ghost var b := Inner2(op, a.t, p');
        EliminateInside2(op, p, r, p');
        SubStore(old(root), r, b.t);
        SameShapeAt(op, a.t, b.t, q');
        OpposeAt(op, p, q, r, p', q');
      }
    }

    /** expr_eliminate_dups2 when the first cursor is at a spine node. */
    method UnderFirst2(op: Op, p: Path, q: Path, ghost r: Path, ghost p': Path, ghost q': Path)
      requires Within(root, r) && p == r + p' && q == r + q'
      requires OnSpine(op, Sub(root, r), p') && OnSpine(op, Sub(root, r), q')
      requires Within(root, p) && Within(Sub(root, r), p') && Sub(root, p) == Sub(Sub(root, r), p')
      requires IsSpine(op, Sub(root, p))
      modifies this`root, this`transCount
      ensures var w := Dups2(op, Sub(old(root), r), p', q');
              root == Store(old(root), r, w.t) && transCount == old(transCount) + w.count
      decreases Size(Sub(root, r)), Work(op, Sub(root, r), p', q'), 0
    {
      ghost var t := Sub(root, r);
      WorkLess(op, t, p', q');
      assert p + [L] == r + (p' + [L]) && p + [R] == r + (p' + [R]);
      EliminateDups2(op, p + [L], q, r, p' + [L], q');
      ghost var a := Dups2(op, t, p' + [L], q');
      SubStore(old(root), r, a.t);
      WorkSame(op, t, a.t, p' + [R], q');
      EliminateDups2(op, p + [R], q, r, p' + [R], q');
    }

    /** The part of expr_eliminate_dups2 that goes through a spine node under the second
        cursor. */
    method EliminateBelow2(op: Op, p: Path, q: Path, ghost r: Path, ghost p': Path, ghost q': Path)
      requires Within(root, r) && p == r + p' && q == r + q' && AtLeaf(op, Sub(root, r), p')
      requires OnSpine(op, Sub(root, r), p') && OnSpine(op, Sub(root, r), q')
      modifies this`root, this`transCount
      ensures var w := Below2(op, Sub(old(root), r), p', q');
              root == Store(old(root), r, w.t) && transCount == old(transCount) + w.count
      decreases Size(Sub(root, r)), Work(op, Sub(root, r), p', q'), 0
    {
      ghost var t := Sub(root, r);
      CursorsWithin(op, root, r, q');
      if IsSpine(op, Sub(root, q)) {
        WorkLess(op, t, q', p');
        assert q + [L] == r + (q' + [L]) && q + [R] == r + (q' + [R]);
        EliminateDups2(op, p, q + [L], r, p', q' + [L]);
        ghost var b := Dups2(op, t, p', q' + [L]);
        SubStore(old(root), r, b.t);
        WorkSame(op, t, b.t, p', q' + [R]);
        EliminateDups2(op, p, q + [R], r, p', q' + [R]);
      } else {
        SubStore(root, r, t);
      }
    }

    method EliminateInside2(op: Op, p: Path, ghost r: Path, ghost p': Path)
      requires Within(root, r) && p == r + p' && p' != []
      requires AtLeaf(op, Sub(root, r), p') && OnSpine(op, Sub(root, r), p')
      modifies this`root, this`transCount
      ensures var w := Inner2(op, Sub(old(root), r), p');
              root == Store(old(root), r, w.t) && transCount == old(transCount) + w.count
      decreases Size(Sub(root, r)), 0
    {
      CursorsWithin(op, root, r, p');
      SubSmaller(Sub(root, r), p');
      SubStore(root, r, root);
      var e := Sub(root, p);
      if e.Bin? {
        assert p == p + [];
        EliminateDups2(e.op, p, p, p, [], []);
      }
    }

    /** expr_eliminate_dups: passes and pruning until a round changes nothing. */
    method EliminateDuplicates()
      modifies this`root, this`transCount
      ensures root == EliminateDups(old(root)) && transCount == old(transCount)
      ensures forall v | Proper(v) :: Keeps(old(root), root, v)
    {
      var oldcount := transCount;
      var done := false;
      while !done
        invariant EliminateDups(root) == EliminateDups(old(root))
        invariant done ==> Passes(root).count == 0
        decreases !done, Size(root)
      {
        transCount := 0;
        ghost var w := Passes(root);
        if root.Bin? {
          var op := root.op;
          ghost var e := root;
          var start: Path := [];
          assert start + start == start;
          EliminateDups1(op, start, start, start, start, start);
          EliminateDups2(op, start, start, start, start, start);
          assert Rewrite(root, transCount) == w;
        }
        if transCount == 0 {
          done := true;
        } else {
          EliminateYnPrunes(root);
          PruneYn([]);
        }
      }
      transCount := oldcount;
      forall v | Proper(v) ensures Keeps(old(root), root, v) {
        EliminateDupsKeeps(old(root), v);
      }
    }
  }
}
