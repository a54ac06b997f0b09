/** What the unifdef state machine preserves: the plain lines the C preprocessor selects. */
module UnifdefMeaning {
  import opened UnifdefMachine
  import opened UnifdefExpr

  // ----------------------------------------------------------------- the simulation

  /** What one stack state says about the group in the input and about the group in the
      output, when the output holds an #if for it. */
  ghost predicate GroupsMatch(s: Ifstate, g: Group, h: Group)
    requires OpenInOutput(s)
  {
    && h.taken == g.taken && (g.live ==> g.taken)
    && (match s
       case PassMiddle => g == h && !g.sawElse
       case FalseMiddle => !g.live && !g.sawElse && !h.sawElse
       case TrueMiddle => g.live == h.live && g.taken && !g.sawElse && h.sawElse
       case _ => g == h && g.sawElse)
  }

  /** The same for a group the output holds nothing of; `outer` is the state around it. */
  ghost predicate GroupAlone(s: Ifstate, g: Group, outer: Ifstate)
    requires !OpenInOutput(s)
  {
    match s
    case Outside => false
    case FalsePrefix => Printing(outer) && !g.live && !g.taken && !g.sawElse
    case TruePrefix => Printing(outer) && g.live && g.taken && !g.sawElse
    case TrueElse => Printing(outer) && g.live && g.taken && g.sawElse
    case FalseElse => g.sawElse && (Printing(outer) ==> !g.live && g.taken)
    case _ => !g.sawElse && (Printing(outer) ==> !g.live && g.taken)
  }

  /** The stack, the groups open in the input and the groups open in the output agree. */
  ghost predicate Related(n: Nest, gin: Groups, gout: Groups)
    decreases n
  {
    match n
    case Bottom => gin == NoGroup && gout == NoGroup
    case Inside(outer, s, _) =>
      && gin.In?
      && (if OpenInOutput(s)
          then gout.In? && Printing(outer.Top()) && GroupsMatch(s, gin.g, gout.g)
               && Related(outer, gin.outer, gout.outer)
          else GroupAlone(s, gin.g, outer.Top()) && Related(outer, gin.outer, gout))
  }

  /** Where lines are printed the two readings select alike; where they are dropped the
      input reading selects nothing, so everything inside a dropped block is dropped. */
  lemma {:induction false} RelatedActive(n: Nest, gin: Groups, gout: Groups)
    requires Related(n, gin, gout)
    ensures Printing(n.Top()) ==> Active(gin) == Active(gout)
    ensures !Printing(n.Top()) ==> !Active(gin)
  {
    match n
    case Bottom =>
    case Inside(outer, s, _) =>
      RelatedActive(outer, gin.outer, if OpenInOutput(s) then gout.outer else gout);
  }

  /** What a transition function writes: nothing, the line, or an edited line. */
  function Emits(a: Action, line: Line, iocccok: bool): seq<Line> {
    match a
    case Print => [line]
    case Pelif => [line]
    case Pelse => [line]
    case Pendif => [line]
    case Fpass => [line]
    case Oiffy => [line]
    case Oif => [line]
    case Oelif => [line]
    case Mpass => [AsIf(line)]
    case Mtrue => [ElseLine]
    case Melif => [EndifLine]
    case Melse => [EndifLine]
    case _ => []
  }

  lemma PerformEmits(m: Machine, a: Action, line: Line, iocccok: bool)
    ensures var m' := Perform(m, a, line, iocccok);
            m'.status == Running && m.status == Running ==>
              m'.output == m.output + Emits(a, line, iocccok)
  {
  }

  /** The reading `r` carried on over what a transition function writes. */
  function Continue(r: Reading, emitted: seq<Line>, v: Outcomes): Reading {
    if emitted == [] then r else ReadLine(r, emitted[0], v)
  }

  lemma ContinueReads(lines: seq<Line>, a: Action, line: Line, iocccok: bool, v: Outcomes)
    ensures ReadLines(lines + Emits(a, line, iocccok), v)
         == Continue(ReadLines(lines, v), Emits(a, line, iocccok), v)
  {
    var e := Emits(a, line, iocccok);
    if e == [] {
      assert lines + e == lines;
    } else {
      assert (lines + e)[..|lines|] == lines;
    }
  }

  /** Both readings are alive, have selected the same text, and their groups are related. */
  ghost predicate Simulates(n: Nest, rin: Reading, rout: Reading) {
    && rin.Reading? && rout.Reading?
    && rin.text == rout.text
    && Related(n, rin.groups, rout.groups)
  }

  /** One transition keeps the simulation. */
  ghost predicate StepKeeps(m: Machine, item: Item, iocccok: bool, rin: Reading, rout: Reading,
                            v: Outcomes)
  {
    var a := TransTable(m.nest.Top(), item.lt);
    var m' := Perform(m, a, item.line, iocccok);
    m'.status == Running ==>
      Simulates(m'.nest, ReadLine(rin, item.line, v),
                Continue(rout, Emits(a, item.line, iocccok), v))
  }

  lemma PlainKeeps(m: Machine, item: Item, iocccok: bool, rin: Reading, rout: Reading,
                   v: Outcomes)
    requires m.status == Running && Fits(item) && item.lt == Plain
    requires Simulates(m.nest, rin, rout)
    ensures StepKeeps(m, item, iocccok, rin, rout, v)
  {
    RelatedActive(m.nest, rin.groups, rout.groups);
  }

  /** Opening a group with the state that suits the condition and the surroundings. */
  lemma PushKeeps(n: Nest, s: Ifstate, ig: bool, c: Cond, keep: bool,
                  rin: Reading, rout: Reading, v: Outcomes)
    requires Simulates(n, rin, rout)
    requires if Printing(n.Top())
             then (s == PassMiddle && keep) || (s == TruePrefix && !keep && v(c, rin.text))
                  || (s == FalsePrefix && !keep && !v(c, rin.text))
             else s == FalseTrailer && !keep
    ensures Simulates(Inside(n, s, ig), ReadLine(rin, IfLine(c), v),
                      Continue(rout, if keep then [IfLine(c)] else [], v))
  {
  }

  /** What the line parser decided is so at any place. */
  lemma Decided(item: Item, text: seq<string>, v: Outcomes)
    requires Fits(item) && Agrees(item, v) && item.lt.Direct?
    ensures item.lt.d in {TrueI, True, Eltrue} ==> v(item.line.cond, text)
    ensures item.lt.d in {FalseI, False, Elfalse} ==> !v(item.line.cond, text)
  {
  }

  lemma OpenKeeps(m: Machine, item: Item, iocccok: bool, rin: Reading, rout: Reading,
                  v: Outcomes)
    requires m.status == Running && Fits(item) && Agrees(item, v)
    requires item.lt.Direct? && Opens(item.lt.d)
    requires Simulates(m.nest, rin, rout)
    ensures StepKeeps(m, item, iocccok, rin, rout, v)
  {
    var a := TransTable(m.nest.Top(), item.lt);
    var m' := Perform(m, a, item.line, iocccok);
    if m'.status == Running {
      var Inside(_, s, ig) := m'.nest;
      var keep := Emits(a, item.line, iocccok) != [];
      Decided(item, rin.text, v);
      PushKeeps(m.nest, s, ig, item.line.cond, keep, rin, rout, v);
    }
  }

  ghost predicate MiddleMoves(s': Ifstate, c: Cond, emitted: seq<Line>, holds: bool) {
    || (s' == PassMiddle && emitted == [ElifLine(c)])
    || (s' == TrueMiddle && emitted == [ElseLine] && holds)
    || (s' == FalseMiddle && emitted == [] && !holds)
  }

  /** What an #elif may turn the state of its group into, and what it may leave of itself. */
  ghost predicate ElifMoves(s: Ifstate, s': Ifstate, c: Cond, emitted: seq<Line>, holds: bool)
  {
    match s
    case FalsePrefix =>
      || (s' == PassMiddle && emitted == [IfLine(c)])
      || (s' == TruePrefix && emitted == [] && holds)
      || (s' == FalsePrefix && emitted == [] && !holds)
    case PassMiddle => MiddleMoves(s', c, emitted, holds)
    case FalseMiddle => MiddleMoves(s', c, emitted, holds)
    case TrueMiddle => s' == FalseTrailer && emitted == [EndifLine]
    case TruePrefix => s' == FalseTrailer && emitted == []
    case FalseTrailer => s' == FalseTrailer && emitted == []
    case _ => false
  }

  lemma ElifMoveKeeps(n: Nest, s': Ifstate, ig: bool, c: Cond, emitted: seq<Line>,
                      rin: Reading, rout: Reading, v: Outcomes)
    requires Simulates(n, rin, rout) && n.Inside? && ElifMoves(n.state, s', c, emitted, v(c, rin.text))
    ensures Simulates(Inside(n.outer, s', ig), ReadLine(rin, ElifLine(c), v),
                      Continue(rout, emitted, v))
  {
  }

  lemma ElifKeeps(m: Machine, item: Item, iocccok: bool, rin: Reading, rout: Reading,
                  v: Outcomes)
    requires m.status == Running && Fits(item) && Agrees(item, v)
    requires item.lt.Direct? && Elifs(item.lt.d)
    requires Simulates(m.nest, rin, rout)
    ensures StepKeeps(m, item, iocccok, rin, rout, v)
  {
    var a := TransTable(m.nest.Top(), item.lt);
    var m' := Perform(m, a, item.line, iocccok);
    var emitted := Emits(a, item.line, iocccok);
    if m'.status == Running {
      assert a in {Mpass, Strue, Sfalse, Dfalse, Pelif, Oelif, Mtrue, Delif, Melif};
      var Inside(_, s', ig) := m'.nest;
      ElifMoveKeeps(m.nest, s', ig, item.line.cond, emitted, rin, rout, v);
    }
  }

  /** The same for an #else. */
  ghost predicate ElseMoves(s: Ifstate, s': Ifstate, emitted: seq<Line>) {
    match s
    case FalsePrefix => s' == TrueElse && emitted == []
    case PassMiddle => s' == PassElse && emitted == [ElseLine]
    case FalseMiddle => s' == PassElse && emitted == [ElseLine]
    case TrueMiddle => s' == FalseElse && emitted == [EndifLine]
    case TruePrefix => s' == FalseElse && emitted == []
    case FalseTrailer => s' == FalseElse && emitted == []
    case _ => false
  }

  lemma ElseMoveKeeps(n: Nest, s': Ifstate, ig: bool, emitted: seq<Line>,
                      rin: Reading, rout: Reading, v: Outcomes)
    requires Simulates(n, rin, rout) && n.Inside? && ElseMoves(n.state, s', emitted)
    ensures Simulates(Inside(n.outer, s', ig), ReadLine(rin, ElseLine, v),
                      Continue(rout, emitted, v))
  {
  }

  lemma ElseKeeps(m: Machine, item: Item, iocccok: bool, rin: Reading, rout: Reading,
                  v: Outcomes)
    requires m.status == Running && Fits(item) && item.lt.Direct? && item.lt.d == Else
    requires Simulates(m.nest, rin, rout)
    ensures StepKeeps(m, item, iocccok, rin, rout, v)
  {
    var a := TransTable(m.nest.Top(), item.lt);
    var m' := Perform(m, a, item.line, iocccok);
    if m'.status == Running {
      assert a in {Selse, Pelse, Delse, Melse};
      var Inside(_, s', ig) := m'.nest;
      ElseMoveKeeps(m.nest, s', ig, Emits(a, item.line, iocccok), rin, rout, v);
    }
  }

  lemma EndifKeeps(m: Machine, item: Item, iocccok: bool, rin: Reading, rout: Reading,
                   v: Outcomes)
    requires m.status == Running && Fits(item) && item.lt.Direct? && item.lt.d == Endif
    requires Simulates(m.nest, rin, rout)
    ensures StepKeeps(m, item, iocccok, rin, rout, v)
  {
  }

  lemma StepSimulates(m: Machine, item: Item, iocccok: bool, rin: Reading, rout: Reading,
                      v: Outcomes)
    requires m.status == Running && Fits(item) && Agrees(item, v)
    requires Simulates(m.nest, rin, rout)
    ensures StepKeeps(m, item, iocccok, rin, rout, v)
  {
    if item.lt == Plain {
      PlainKeeps(m, item, iocccok, rin, rout, v);
    } else if Opens(item.lt.d) {
      OpenKeeps(m, item, iocccok, rin, rout, v);
    } else if Elifs(item.lt.d) {
      ElifKeeps(m, item, iocccok, rin, rout, v);
    } else if item.lt.d == Else {
      ElseKeeps(m, item, iocccok, rin, rout, v);
    } else {
      EndifKeeps(m, item, iocccok, rin, rout, v);
    }
  }

  // ------------------------------------------------------------------- whole runs

  lemma LinesSnoc(items: seq<Item>)
    requires items != []
    ensures Lines(items) == Lines(items[..|items| - 1]) + [items[|items| - 1].line]
  {
  }

  /** At every moment of a run that has not failed, what was read and what was written so
      far are in the simulation. */
  lemma {:induction false} FeedSimulates(items: seq<Item>, iocccok: bool, v: Outcomes)
    requires Consistent(items, v) && Feed(items, iocccok).status == Running
    ensures var m := Feed(items, iocccok);
            Simulates(m.nest, ReadLines(Lines(items), v), ReadLines(m.output, v))
    decreases |items|
  {
    if items != [] {
      var n := |items| - 1;
      var m, item := Feed(items[..n], iocccok), items[n];
      FeedSimulates(items[..n], iocccok, v);
      var rin, rout := ReadLines(Lines(items[..n]), v), ReadLines(m.output, v);
      StepSimulates(m, item, iocccok, rin, rout, v);
      LinesSnoc(items);
      assert Lines(items)[..n] == Lines(items[..n]);
      var a := TransTable(m.nest.Top(), item.lt);
      PerformEmits(m, a, item.line, iocccok);
      ContinueReads(m.output, a, item.line, iocccok, v);
    }
  }

  /** The end of the file finishes a run or reports it as premature. */
  lemma EndOfFile(items: seq<Item>, iocccok: bool)
    ensures Feed(items, iocccok).status != Running ==>
              Run(items, iocccok) == Feed(items, iocccok)
    ensures Feed(items, iocccok).status == Running ==>
              var m := Feed(items, iocccok);
              var end := if m.nest.Top() == Outside then Finished else Failed(Eeof);
              Run(items, iocccok) == m.(status := end)
  {
    assert TransTable(Outside, Eof) == Done;
  }

  lemma OnlyDoneFinishes(m: Machine, a: Action, line: Line, iocccok: bool)
    requires m.status != Finished && a != Done
    ensures Perform(m, a, line, iocccok).status != Finished
  {
  }

  lemma {:induction false} FeedIsNotFinished(items: seq<Item>, iocccok: bool)
    requires forall i :: 0 <= i < |items| ==> Fits(items[i])
    ensures Feed(items, iocccok).status != Finished
    decreases |items|
  {
    if items != [] {
      var n := |items| - 1;
      FeedIsNotFinished(items[..n], iocccok);
      var m := Feed(items[..n], iocccok);
      assert Fits(items[n]);
      OnlyDoneFinishes(m, TransTable(m.nest.Top(), items[n].lt), items[n].line, iocccok);
    }
  }

  lemma StepChanged(m: Machine, item: Item, iocccok: bool)
    requires m.status == Running && Step(m, item, iocccok).status == Running
    ensures var s := Step(m, item, iocccok);
            || (|s.output| == |m.output| + 1 && s.changed == m.changed)
            || (|s.output| == |m.output| && s.changed)
  {
  }

  lemma {:induction false} FeedChanged(items: seq<Item>, iocccok: bool)
    requires Feed(items, iocccok).status == Running
    ensures var m := Feed(items, iocccok);
            |m.output| <= |items| && (m.changed <==> |m.output| < |items|)
    decreases |items|
  {
    if items != [] {
      var n := |items| - 1;
      FeedChanged(items[..n], iocccok);
      StepChanged(Feed(items[..n], iocccok), items[n], iocccok);
    }
  }

  /** The exit status says whether a line was dropped.  A line that was edited does not count. */
  lemma ChangedIffDropped(items: seq<Item>, iocccok: bool)
    requires forall i :: 0 <= i < |items| ==> Fits(items[i])
    requires Run(items, iocccok).status == Finished
    ensures Run(items, iocccok).changed <==> |Run(items, iocccok).output| < |items|
  {
    EndOfFile(items, iocccok);
    FeedIsNotFinished(items, iocccok);
    FeedChanged(items, iocccok);
  }

  /** Meaning preservation: whenever unifdef finishes, then under every assignment of truth
      values, place by place, that agrees with the conditions it decided, input and output are both well
      nested and the preprocessor selects the same plain lines from them. */
  lemma RunPreservesMeaning(items: seq<Item>, iocccok: bool, v: Outcomes)
    requires Consistent(items, v) && Run(items, iocccok).status == Finished
    ensures Preprocess(Lines(items), v).Selected?
    ensures Preprocess(Run(items, iocccok).output, v) == Preprocess(Lines(items), v)
  {
    EndOfFile(items, iocccok);
    FeedIsNotFinished(items, iocccok);
    FeedSimulates(items, iocccok, v);
    assert Feed(items, iocccok).nest == Bottom;
  }

  // ------------------------------------------------------------------ when a run finishes

  function GroupDepth(gs: Groups): nat {
    if gs.NoGroup? then 0 else 1 + GroupDepth(gs.outer)
  }

  lemma {:induction false} RelatedDepth(n: Nest, gin: Groups, gout: Groups)
    requires Related(n, gin, gout)
    ensures n.Depth() == GroupDepth(gin)
  {
    if n.Inside? {
      RelatedDepth(n.outer, gin.outer, if OpenInOutput(n.state) then gout.outer else gout);
    }
  }

  /** The reading is well nested so far and within the nesting limit. */
  predicate Tolerable(r: Reading) {
    r.Reading? && GroupDepth(r.groups) < MAXDEPTH
  }

  /** The facts about the innermost group that decide whether a line is acceptable. */
  lemma RelatedTop(n: Nest, gin: Groups, gout: Groups)
    requires Related(n, gin, gout)
    ensures n.Bottom? <==> gin.NoGroup?
    ensures n.Inside? ==> n.state != Outside
    ensures n.Inside? ==> (gin.g.sawElse <==> n.state in {PassElse, TrueElse, FalseElse})
    ensures n.Depth() == GroupDepth(gin)
  {
    RelatedDepth(n, gin, gout);
  }

  /** When the transition for a line stops the run: in terms of the stack alone. */
  predicate Refused(n: Nest, item: Item)
    requires Fits(item)
  {
    match item.line
    case IfLine(_) => n.Depth() >= MAXDEPTH - 1
    case ElifLine(_) => n.Bottom? || n.state in {PassElse, TrueElse, FalseElse}
    case ElseLine => n.Bottom? || n.state in {PassElse, TrueElse, FalseElse}
    case EndifLine => n.Bottom?
    case PlainLine(_) => false
  }

  lemma StepRefuses(m: Machine, item: Item, iocccok: bool)
    requires m.status == Running && Fits(item)
    requires m.nest.Inside? ==> m.nest.state != Outside
    ensures var s := Step(m, item, iocccok).status;
            && s != Aborted
            && (s == Failed(Eioccc) ==> item.lt.Direct? && item.lt.dodgy)
            && (s != Failed(Eioccc) ==> (s == Running <==> !Refused(m.nest, item)))
  {
    var a := TransTable(m.nest.Top(), item.lt);
    match item.line
    case IfLine(_) =>
      assert a in {Itrue, Ifalse, Fpass, Ftrue, Ffalse, Oiffy, Oif, Idrop, Fdrop};
    case ElifLine(_) =>
      assert a in {Eelif, Eioccc, Mpass, Strue, Sfalse, Dfalse, Pelif, Oelif, Mtrue, Delif, Melif};
    case ElseLine =>
      assert a in {Eelse, Eioccc, Selse, Delse, Pelse, Melse};
    case EndifLine =>
      assert a in {Eendif, Eioccc, Pendif, Dendif};
    case PlainLine(_) =>
  }

  /** A single line stops unifdef exactly when it breaks the nesting or the depth limit, or
      when it is split over several lines; an internal bug stop never happens. */
  lemma StepRunsIff(m: Machine, item: Item, iocccok: bool, rin: Reading, rout: Reading,
                    v: Outcomes)
    requires m.status == Running && Fits(item)
    requires Simulates(m.nest, rin, rout) && Tolerable(rin)
    ensures var s := Step(m, item, iocccok).status;
            && s != Aborted
            && (s == Failed(Eioccc) ==> item.lt.Direct? && item.lt.dodgy)
            && (s == Running ==> Tolerable(ReadLine(rin, item.line, v)))
            && (s != Running && s != Failed(Eioccc) ==>
                  !Tolerable(ReadLine(rin, item.line, v)))
  {
    RelatedTop(m.nest, rin.groups, rout.groups);
    StepRefuses(m, item, iocccok);
    assert Refused(m.nest, item) <==> !Tolerable(ReadLine(rin, item.line, v));
  }

  ghost predicate Plainly(items: seq<Item>) {
    forall i :: 0 <= i < |items| && items[i].lt.Direct? ==> !items[i].lt.dodgy
  }

  /** Every prefix of the input is well nested and within the nesting limit. */
  predicate TolerableSoFar(lines: seq<Line>, v: Outcomes)
    decreases |lines|
  {
    Tolerable(ReadLines(lines, v)) && (lines != [] ==> TolerableSoFar(lines[..|lines| - 1], v))
  }

  lemma {:induction false} FeedRunsIff(items: seq<Item>, iocccok: bool, v: Outcomes)
    requires Consistent(items, v)
    ensures var m := Feed(items, iocccok);
            && m.status != Aborted
            && (m.status == Failed(Eioccc) ==> !Plainly(items))
            && (m.status == Running ==> TolerableSoFar(Lines(items), v))
            && (m.status != Running && m.status != Failed(Eioccc) ==>
                  !TolerableSoFar(Lines(items), v))
    decreases |items|
  {
    if items != [] {
      var n := |items| - 1;
      var m, item := Feed(items[..n], iocccok), items[n];
      var before := Lines(items[..n]);
      FeedRunsIff(items[..n], iocccok, v);
      LinesSnoc(items);
      assert Lines(items)[..n] == before;
      if m.status == Running {
        FeedSimulates(items[..n], iocccok, v);
        StepRunsIff(m, item, iocccok, ReadLines(before, v), ReadLines(m.output, v), v);
      }
    }
  }

  /** When no directive is split over several lines, unifdef finishes if and only if the
      file is well nested and nests less than MAXDEPTH groups. */
  lemma RunFinishesIff(items: seq<Item>, iocccok: bool, v: Outcomes)
    requires Consistent(items, v) && Plainly(items)
    ensures Run(items, iocccok).status == Finished
       <==> Preprocess(Lines(items), v).Selected? && TolerableSoFar(Lines(items), v)
  {
    var m := Feed(items, iocccok);
    EndOfFile(items, iocccok);
    FeedRunsIff(items, iocccok, v);
    FeedIsNotFinished(items, iocccok);
    if m.status == Running {
      FeedSimulates(items, iocccok, v);
      RelatedTop(m.nest, ReadLines(Lines(items), v).groups, ReadLines(m.output, v).groups);
    }
  }

  /** The state outside all groups only belongs to the empty stack. */
  predicate GroupsInside(n: Nest) {
    n.Inside? ==> n.state != Outside && GroupsInside(n.outer)
  }

  lemma {:induction false} PerformKeepsInside(m: Machine, a: Action, line: Line, iocccok: bool)
    requires GroupsInside(m.nest)
    ensures GroupsInside(Perform(m, a, line, iocccok).nest)
  {
  }

  lemma {:induction false} FeedNeverAborts(items: seq<Item>, iocccok: bool)
    requires forall i :: 0 <= i < |items| ==> Fits(items[i])
    ensures Feed(items, iocccok).status != Aborted && GroupsInside(Feed(items, iocccok).nest)
    decreases |items|
  {
    if items != [] {
      var n := |items| - 1;
      var m := Feed(items[..n], iocccok);
      FeedNeverAborts(items[..n], iocccok);
      if m.status == Running {
        StepRefuses(m, items[n], iocccok);
        PerformKeepsInside(m, TransTable(m.nest.Top(), items[n].lt), items[n].line, iocccok);
      }
    }
  }

  /** An internal bug stop is unreachable for anything the line parser can deliver, whatever it
      makes of the conditions. */
  lemma RunNeverAborts(items: seq<Item>, iocccok: bool)
    requires forall i :: 0 <= i < |items| ==> Fits(items[i])
    ensures Run(items, iocccok).status != Aborted
  {
    FeedNeverAborts(items, iocccok);
    EndOfFile(items, iocccok);
  }

  // ------------------------------------------------------- directives over several lines

  /** A directive split over several lines never switches between printing and dropping,
      with one exception: a split #elif after nothing but false branches. */
  lemma DodgyKeepsPrinting(m: Machine, item: Item, iocccok: bool, rin: Reading, rout: Reading)
    requires m.status == Running && Fits(item) && item.lt.Direct? && item.lt.dodgy
    requires Simulates(m.nest, rin, rout)
    requires Step(m, item, iocccok).status == Running
    ensures Printing(Step(m, item, iocccok).nest.Top()) == Printing(m.nest.Top())
       <==> !(m.nest.Top() == FalsePrefix && item.lt.d == Elif)
  {
    var a := TransTable(m.nest.Top(), item.lt);
    match item.line
    case IfLine(_) =>
    case ElifLine(_) =>
      assert a in {Mpass, Dfalse, Pelif, Oelif};
    case ElseLine =>
      assert a in {Delse, Pelse};
    case EndifLine =>
      assert a == Pendif;
  }

  /** The exception occurs: a false #if followed by an #elif split over several lines.  The
      machine stops dropping lines, and goes on. */
  lemma SplitElifSwitches(c: Cond, d: Cond, iocccok: bool)
    ensures var first := Item(IfLine(c), Direct(False, false));
            var split := Item(ElifLine(d), Direct(Elif, true));
            var m, m' := Feed([first], iocccok), Feed([first, split], iocccok);
            && Fits(first) && Fits(split) && m.status == m'.status == Running
            && m.nest.Top() == FalsePrefix && !Printing(m.nest.Top()) && Printing(m'.nest.Top())
  {
    var first := Item(IfLine(c), Direct(False, false));
    var split := Item(ElifLine(d), Direct(Elif, true));
    assert [first][..|[first]| - 1] == [] && [first, split][..|[first, split]| - 1] == [first];
    var m := Step(START, first, iocccok);
    assert Feed([first], iocccok) == Step(Feed([], iocccok), first, iocccok) == m;
    assert Feed([first, split], iocccok) == Step(m, split, iocccok);
  }
}
