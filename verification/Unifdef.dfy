/** unifdef as a whole: lines are classified by evaluating their conditions, and the state
    machine then keeps, drops or edits them. */
module Unifdef {
  import opened Basics
  import opened UnifdefExpr
  import opened UnifdefEval
  import opened UnifdefMachine
  import opened UnifdefMeaning
  import opened UnifdefProcess

  /** Everything that is not known of a file's conditions: the values of names, and what to
      make of conditions that are not expressions, after the preprocessor has selected some
      plain lines.  Those may hold #define and #undef. */
  datatype World = World(env: seq<string> -> Env, odd: (Cond, seq<string>) -> bool)

  /** The world never contradicts the command line. */
  ghost predicate Admits(w: World, syms: Symbols) {
    forall text :: Agree(w.env(text), syms)
  }

  /** Does the condition hold in this world, after the given lines? */
  predicate Holds(c: Cond, text: seq<string>, w: World, syms: Symbols) {
    match c
    case Test(ts) => (
      match ParseTable(0, ts, syms)
      case Parsed(a, rest) => if rest == [] then Meaning(a, w.env(text)) != 0 else w.odd(c, text)
      case NoParse => w.odd(c, text))
    case Ifdef(ts) =>
      if |ts| == 1 && IsSym(ts[0]) then w.env(text).isDefined(SymName(ts)) else w.odd(c, text)
    case Ifndef(ts) =>
      if |ts| == 1 && IsSym(ts[0]) then !w.env(text).isDefined(SymName(ts)) else w.odd(c, text)
  }

  /** #ifdef and #ifndef: the symbol table decides, unless more text follows the symbol. */
  function ClassifyIfdef(ts: Tokens, negated: bool, syms: Symbols): Directive {
    if |ts| != 1 || !IsSym(ts[0]) || SymName(ts) !in syms then If
    else
      var known := syms[SymName(ts)];
      if known.value.Some? != negated
      then (if known.ignore then TrueI else True)
      else (if known.ignore then FalseI else False)
  }

  function ClassifyIf(c: Cond, syms: Symbols, o: Options): Directive {
    match c
    case Ifdef(ts) => ClassifyIfdef(ts, false, syms)
    case Ifndef(ts) => ClassifyIfdef(ts, true, syms)
    case Test(ts) =>
      var v := Judge(ts, syms, o);
      if v.rest != [] || v.kind == LtIf || v.kind == LtError then If
      else if v.kind == LtTrue then True else False
  }

  /** #elif: the line type of the same #if, shifted along the enumeration. */
  function ClassifyElif(c: Cond, syms: Symbols, o: Options): Directive {
    match ClassifyIf(c, syms, o)
    case True => Eltrue
    case TrueI => Eltrue
    case False => Elfalse
    case FalseI => Elfalse
    case _ => Elif
  }

  /** The line parser for directives that are on one line. */
  function Classify(line: Line, syms: Symbols, o: Options): Linetype {
    match line
    case PlainLine(_) => Plain
    case IfLine(c) => Direct(ClassifyIf(c, syms, o), false)
    case ElifLine(c) => Direct(ClassifyElif(c, syms, o), false)
    case ElseLine => Direct(Else, false)
    case EndifLine => Direct(Endif, false)
  }

  function ClassifyAll(lines: seq<Line>, syms: Symbols, o: Options): seq<Item> {
    seq(|lines|, i requires 0 <= i < |lines| => Item(lines[i], Classify(lines[i], syms, o)))
  }

  function Truths(w: World, syms: Symbols): Outcomes { (c, text) => Holds(c, text, w, syms) }

  /** Whatever the line parser decides about a condition is so in every world that agrees
      with what is known. */
  lemma ClassifySound(c: Cond, text: seq<string>, syms: Symbols, o: Options, w: World)
    requires Admits(w, syms)
    ensures ClassifyIf(c, syms, o) in {True, TrueI} ==> Holds(c, text, w, syms)
    ensures ClassifyIf(c, syms, o) in {False, FalseI} ==> !Holds(c, text, w, syms)
  {
    if c.Test? && ClassifyIf(c, syms, o) in {True, False} {
      var a := JudgeReads(c.ts, syms, o);
      JudgeSound(a, syms, o, w.env(text));
    }
  }

  lemma ClassifyAllConsistent(lines: seq<Line>, syms: Symbols, o: Options, w: World)
    requires Admits(w, syms)
    ensures Consistent(ClassifyAll(lines, syms, o), Truths(w, syms))
    ensures Lines(ClassifyAll(lines, syms, o)) == lines && Plainly(ClassifyAll(lines, syms, o))
  {
    var items := ClassifyAll(lines, syms, o);
    forall i | 0 <= i < |items|
      ensures Fits(items[i]) && Agrees(items[i], Truths(w, syms))
    {
      if items[i].line.IfLine? || items[i].line.ElifLine? {
        forall text {
          ClassifySound(items[i].line.cond, text, syms, o, w);
        }
      }
    }
  }

  /** unifdef is right: for every file, all options and all command line symbols, in every
      world that agrees with those symbols, it finishes exactly on files that are well nested
      and not too deep, and then preprocessing its output selects the very lines that
      preprocessing its input selects. */
  lemma UnifdefCorrect(lines: seq<Line>, syms: Symbols, o: Options, iocccok: bool, w: World)
    requires Admits(w, syms)
    ensures var m, v := Run(ClassifyAll(lines, syms, o), iocccok), Truths(w, syms);
            && m.status != Aborted
            && (m.status == Finished <==> Preprocess(lines, v).Selected? && TolerableSoFar(lines, v))
            && (m.status == Finished ==> Preprocess(m.output, v) == Preprocess(lines, v))
  {
    var items, v := ClassifyAll(lines, syms, o), Truths(w, syms);
    ClassifyAllConsistent(lines, syms, o, w);
    RunFinishesIff(items, iocccok, v);
    RunNeverAborts(items, iocccok);
    if Run(items, iocccok).status == Finished {
      RunPreservesMeaning(items, iocccok, v);
    }
  }

  // ------------------------------------------------------------------ what is removed

  /** Is the condition of a directive the given one? */
  predicate Asks(line: Line, c: Cond) { line == IfLine(c) || line == ElifLine(c) }

  /** Does what is known decide the condition?  It does if one symbol is asked for, and said to
      be defined or not, and if an expression has a definite value and nothing follows it. */
  predicate Decides(c: Cond, syms: Symbols, o: Options) {
    match c
    case Test(ts) => Judge(ts, syms, o).kind in {LtTrue, LtFalse} && Judge(ts, syms, o).rest == []
    case Ifdef(ts) => |ts| == 1 && IsSym(ts[0]) && SymName(ts) in syms
    case Ifndef(ts) => |ts| == 1 && IsSym(ts[0]) && SymName(ts) in syms
  }

  /** The directives in `output` ask for conditions that those in `lines` ask for, and that are
      not decided. */
  ghost predicate LeftOpen(output: seq<Line>, lines: seq<Line>, syms: Symbols, o: Options) {
    forall l, c {:trigger Asks(l, c)} | l in output && Asks(l, c) ::
      !Decides(c, syms, o) && exists l' :: l' in lines && Asks(l', c)
  }

  /** What is written for a line asks for nothing that is decided. */
  lemma EmitsLeftOpen(s: Ifstate, line: Line, syms: Symbols, o: Options, iocccok: bool)
    ensures LeftOpen(Emits(TransTable(s, Classify(line, syms, o)), line, iocccok), [line], syms, o)
  {
    var e := Emits(TransTable(s, Classify(line, syms, o)), line, iocccok);
    forall l, c {:trigger Asks(l, c)} | l in e && Asks(l, c)
      ensures !Decides(c, syms, o) && exists l' :: l' in [line] && Asks(l', c)
    {
      assert line in [line] && Asks(line, c);
    }
  }

  lemma ClassifyAllPrefix(lines: seq<Line>, syms: Symbols, o: Options)
    requires lines != []
    ensures ClassifyAll(lines, syms, o)[..|lines| - 1] == ClassifyAll(lines[..|lines| - 1], syms, o)
  {
  }

  /** More input, and more output for it. */
  lemma LeftOpenMore(output: seq<Line>, lines: seq<Line>, more: seq<Line>, line: Line, syms: Symbols, o: Options)
    requires LeftOpen(output, lines, syms, o) && LeftOpen(more, [line], syms, o)
    ensures LeftOpen(output + more, lines + [line], syms, o)
  {
    forall l, c {:trigger Asks(l, c)} | l in output + more && Asks(l, c)
      ensures !Decides(c, syms, o) && exists l' :: l' in lines + [line] && Asks(l', c)
    {
      if l in output {
        var l' :| l' in lines && Asks(l', c);
        assert l' in lines + [line];
      } else {
        assert l in more && line in lines + [line];
      }
    }
  }

  lemma {:induction false} FeedLeftOpen(lines: seq<Line>, syms: Symbols, o: Options, iocccok: bool)
    requires Feed(ClassifyAll(lines, syms, o), iocccok).status == Running
    ensures LeftOpen(Feed(ClassifyAll(lines, syms, o), iocccok).output, lines, syms, o)
    decreases |lines|
  {
    if lines != [] {
      var n := |lines| - 1;
      var line := lines[n];
      var m := Feed(ClassifyAll(lines[..n], syms, o), iocccok);
      ClassifyAllPrefix(lines, syms, o);
      FeedLeftOpen(lines[..n], syms, o, iocccok);
      PerformEmits(m, TransTable(m.nest.Top(), Classify(line, syms, o)), line, iocccok);
      EmitsLeftOpen(m.nest.Top(), line, syms, o, iocccok);
      LeftOpenMore(m.output, lines[..n], Emits(TransTable(m.nest.Top(), Classify(line, syms, o)), line, iocccok), line,
                   syms, o);
      assert lines == lines[..n] + [line];
    }
  }

  lemma FinishedFeeds(items: seq<Item>, iocccok: bool)
    requires forall i :: 0 <= i < |items| ==> Fits(items[i])
    requires Run(items, iocccok).status == Finished
    ensures Feed(items, iocccok).status == Running && Feed(items, iocccok).output == Run(items, iocccok).output
    ensures Feed(items, iocccok).changed == Run(items, iocccok).changed
  {
    EndOfFile(items, iocccok);
    FeedIsNotFinished(items, iocccok);
  }

  /** Every condition that is decided is removed: no #if, #ifdef, #ifndef or #elif of the output
      has one, and none has a condition that the input did not have. */
  lemma OutputLeftOpen(lines: seq<Line>, syms: Symbols, o: Options, iocccok: bool)
    requires Run(ClassifyAll(lines, syms, o), iocccok).status == Finished
    ensures LeftOpen(Run(ClassifyAll(lines, syms, o), iocccok).output, lines, syms, o)
  {
    FinishedFeeds(ClassifyAll(lines, syms, o), iocccok);
    FeedLeftOpen(lines, syms, o, iocccok);
  }

  function PlainLines(text: seq<string>): seq<Line> {
    seq(|text|, i requires 0 <= i < |text| => PlainLine(text[i]))
  }

  lemma PlainMore(text: seq<string>, t: string)
    ensures PlainLines(text + [t]) == PlainLines(text) + [PlainLine(t)]
  {
  }

  /** A reading of plain lines goes on with a plain line only. */
  lemma ReadPlain(r: Reading, line: Line, v: Outcomes)
    requires r.Reading? && r.groups == NoGroup && ReadLine(r, line, v).Reading?
    requires !line.IfLine? && !line.ElifLine?
    ensures line.PlainLine? && ReadLine(r, line, v) == Reading(NoGroup, r.text + [line.text])
  {
  }

  /** Without conditions nothing but plain lines is well nested. */
  lemma {:induction false} OnlyPlain(lines: seq<Line>, v: Outcomes)
    requires forall l | l in lines :: !l.IfLine? && !l.ElifLine?
    requires ReadLines(lines, v).Reading?
    ensures ReadLines(lines, v).groups == NoGroup && lines == PlainLines(ReadLines(lines, v).text)
    decreases |lines|
  {
    if lines != [] {
      var n := |lines| - 1;
      assert lines == lines[..n] + [lines[n]] && lines[n] in lines;
      OnlyPlain(lines[..n], v);
      ReadPlain(ReadLines(lines[..n], v), lines[n], v);
      PlainMore(ReadLines(lines[..n], v).text, lines[n].text);
    }
  }

  /** If everything is decided, the output is the plain lines that are selected, in whatever
      world agrees with what is known. */
  lemma AllDecided(lines: seq<Line>, syms: Symbols, o: Options, iocccok: bool, w: World)
    requires Admits(w, syms)
    requires forall l, c {:trigger Asks(l, c)} | l in lines && Asks(l, c) :: Decides(c, syms, o)
    requires Run(ClassifyAll(lines, syms, o), iocccok).status == Finished
    ensures Preprocess(lines, Truths(w, syms)).Selected?
    ensures Run(ClassifyAll(lines, syms, o), iocccok).output == PlainLines(Preprocess(lines, Truths(w, syms)).text)
  {
    UnifdefCorrect(lines, syms, o, iocccok, w);
    OutputLeftOpen(lines, syms, o, iocccok);
    forall l | l in Run(ClassifyAll(lines, syms, o), iocccok).output ensures !l.IfLine? && !l.ElifLine? {
      if l.IfLine? || l.ElifLine? { assert Asks(l, l.cond); }
    }
    OnlyPlain(Run(ClassifyAll(lines, syms, o), iocccok).output, Truths(w, syms));
  }

  /** All groups are kept as they are. */
  predicate AllPassed(n: Nest) {
    n.Inside? ==> n.state in {PassMiddle, PassElse} && AllPassed(n.outer)
  }

  /** Does the line type call for the line to be kept where its group is? */
  predicate Passable(item: Item) {
    Fits(item) && (item.lt.Direct? ==> !item.lt.dodgy && item.lt.d in {If, Elif, Else, Endif})
  }

  lemma StepPasses(m: Machine, item: Item, iocccok: bool)
    requires m.status == Running && AllPassed(m.nest) && Passable(item)
    ensures var s := Step(m, item, iocccok);
            s.status == Running ==> s.output == m.output + [item.line] && s.changed == m.changed && AllPassed(s.nest)
  {
    var a := TransTable(m.nest.Top(), item.lt);
    assert a in {Fpass, Pelif, Pelse, Pendif, Print, Eelif, Eelse, Eendif};
  }

  lemma {:induction false} FeedPasses(items: seq<Item>, iocccok: bool)
    requires (forall i :: 0 <= i < |items| ==> Passable(items[i])) && Feed(items, iocccok).status == Running
    ensures var m := Feed(items, iocccok); m.output == Lines(items) && !m.changed && AllPassed(m.nest)
    decreases |items|
  {
    if items != [] {
      var n := |items| - 1;
      FeedPasses(items[..n], iocccok);
      LinesSnoc(items);
      StepPasses(Feed(items[..n], iocccok), items[n], iocccok);
    }
  }

  ghost predicate NoneDecided(lines: seq<Line>, syms: Symbols, o: Options) {
    forall l, c {:trigger Asks(l, c)} | l in lines && Asks(l, c) :: !Decides(c, syms, o)
  }

  lemma OpenIsPassed(line: Line, syms: Symbols, o: Options)
    requires forall c | Asks(line, c) :: !Decides(c, syms, o)
    ensures Passable(Item(line, Classify(line, syms, o)))
  {
    if line.IfLine? || line.ElifLine? {
      assert Asks(line, line.cond);
    }
  }

  /** If nothing is decided, the output is the input. */
  lemma NothingDecided(lines: seq<Line>, syms: Symbols, o: Options, iocccok: bool)
    requires NoneDecided(lines, syms, o)
    requires Run(ClassifyAll(lines, syms, o), iocccok).status == Finished
    ensures Run(ClassifyAll(lines, syms, o), iocccok).output == lines
    ensures !Run(ClassifyAll(lines, syms, o), iocccok).changed
  {
    FinishedFeeds(ClassifyAll(lines, syms, o), iocccok);
    var items := ClassifyAll(lines, syms, o);
    forall i | 0 <= i < |items| ensures Passable(items[i]) {
      assert lines[i] in lines;
      OpenIsPassed(lines[i], syms, o);
    }
    FeedPasses(items, iocccok);
    assert Lines(items) == lines;
  }

  method EvaluateIf(c: Cond, syms: Symbols, o: Options) returns (d: Directive)
    ensures d == ClassifyIf(c, syms, o)
  {
    if c.Test? {
      var e := new Evaluator(c.ts, syms, o);
      var v := e.Ifeval();
      d := if v.kind == LtTrue then True else if v.kind == LtFalse then False else If;
      if v.rest != [] {
        d := If;
      }
    } else {
      d := If;
      var ts := c.ts;
      if ts != [] && IsSym(ts[0]) && SymName(ts) in syms {
        d := if c.Ifndef? then False else True;
        if syms[SymName(ts)].value == None {
          d := if d == True then False else True;
        }
        if syms[SymName(ts)].ignore {
          d := if d == True then TrueI else FalseI;
        }
        if ts[1..] != [] {
          d := If;
        }
      }
    }
  }

  /** The line parser, evaluating conditions as the program does. */
  method Parseline(line: Line, syms: Symbols, o: Options) returns (lt: Linetype)
    ensures lt == Classify(line, syms, o)
  {
    match line
    case PlainLine(_) => lt := Plain;
    case ElseLine => lt := Direct(Else, false);
    case EndifLine => lt := Direct(Endif, false);
    case IfLine(c) =>
      var d := EvaluateIf(c, syms, o);
      lt := Direct(d, false);
    case ElifLine(c) =>
      var d := EvaluateIf(c, syms, o);
      lt := Direct(if d in {True, TrueI} then Eltrue else if d in {False, FalseI} then Elfalse else Elif, false);
  }

  /** Process a whole file. */
  method Filter(lines: seq<Line>, syms: Symbols, o: Options, iocccok: bool)
    returns (status: Status, output: seq<Line>)
    ensures var m := Run(ClassifyAll(lines, syms, o), iocccok);
            status == m.status && output == m.output
    ensures status == Finished ==> LeftOpen(output, lines, syms, o)
  {
    var items := [];
    var n := 0;
    while n < |lines|
      invariant n <= |lines| && items == ClassifyAll(lines[..n], syms, o)
    {
      var lt := Parseline(lines[n], syms, o);
      items := items + [Item(lines[n], lt)];
      n := n + 1;
    }
    assert lines[..n] == lines;
    var u := new Unifdef(iocccok);
    u.Process(items);
    status, output := u.status, u.output;
    if status == Finished {
      OutputLeftOpen(lines, syms, o, iocccok);
    }
  }
}
