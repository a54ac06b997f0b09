/** unifdef's line processor with its state held as the program holds it: arrays indexed by
    the nesting depth, updated in place, and a current line that transitions may edit. */
module UnifdefProcess {
  import opened UnifdefMachine
  import opened UnifdefMeaning

  /** The stack of states held in the first `depth` slots above slot 0. */
  ghost function NestOf(states: seq<Ifstate>, ignores: seq<bool>, depth: nat): Nest
    requires depth < |states| && depth < |ignores|
  {
    if depth == 0 then Bottom
    else Inside(NestOf(states, ignores, depth - 1), states[depth], ignores[depth])
  }

  /** Writing the top slots changes the top of the stack and nothing below it. */
  lemma {:induction false} NestOfBelow(s: seq<Ifstate>, i: seq<bool>, at: nat, x: Ifstate, b: bool,
                                       depth: nat)
    requires depth < at < |s| && at < |i|
    ensures NestOf(s[at := x], i[at := b], depth) == NestOf(s, i, depth)
  {
    if depth > 0 {
      NestOfBelow(s, i, at, x, b, depth - 1);
    }
  }

  lemma NestOfUpdate(s: seq<Ifstate>, i: seq<bool>, depth: nat, x: Ifstate, b: bool)
    requires 0 < depth < |s| && depth < |i|
    ensures NestOf(s[depth := x], i[depth := b], depth) == Inside(NestOf(s, i, depth - 1), x, b)
  {
    NestOfBelow(s, i, depth, x, b, depth - 1);
  }

  lemma {:induction false} NestOfDepth(s: seq<Ifstate>, i: seq<bool>, depth: nat)
    requires depth < |s| && depth < |i|
    ensures NestOf(s, i, depth).Depth() == depth
  {
    if depth > 0 {
      NestOfDepth(s, i, depth - 1);
    }
  }

  lemma FeedNext(items: seq<Item>, n: nat, iocccok: bool)
    requires n < |items|
    ensures Feed(items[..n + 1], iocccok) == Step(Feed(items[..n], iocccok), items[n], iocccok)
  {
    assert items[..n + 1][..n] == items[..n];
  }

  lemma FinishedKeepsMeaning(items: seq<Item>, iocccok: bool)
    ensures Run(items, iocccok).status == Finished ==>
      forall v | Consistent(items, v) ::
        Preprocess(Run(items, iocccok).output, v) == Preprocess(Lines(items), v)
  {
    if Run(items, iocccok).status == Finished {
      forall v | Consistent(items, v)
        ensures Preprocess(Run(items, iocccok).output, v) == Preprocess(Lines(items), v)
      {
        RunPreservesMeaning(items, iocccok, v);
      }
    }
  }

  /** A run that has stopped reads nothing more. */
  lemma {:induction false} StoppedStays(items: seq<Item>, n: nat, iocccok: bool)
    requires n <= |items| && Feed(items[..n], iocccok).status != Running
    ensures Feed(items, iocccok) == Feed(items[..n], iocccok)
    decreases |items|
  {
    if n == |items| {
      assert items[..n] == items;
    } else {
      var m := |items| - 1;
      assert items[..m][..n] == items[..n];
      StoppedStays(items[..m], n, iocccok);
    }
  }

  class Unifdef {
    const iocccok: bool
    const ifstate: array<Ifstate>
    const ignoring: array<bool>
    var depth: nat
    var tline: Line
    var output: seq<Line>
    var exitstat: nat
    var status: Status

    ghost predicate Valid()
      reads this, ifstate, ignoring
    {
      && ifstate.Length == MAXDEPTH && ignoring.Length == MAXDEPTH
      && depth < MAXDEPTH && exitstat <= 1
      && ifstate[0] == Outside && !ignoring[0]
    }

    /** Between two lines no open group is in the state for being outside all groups. */
    ghost predicate Settled()
      reads this, ifstate, ignoring
    {
      Valid() && forall k :: 0 < k <= depth ==> ifstate[k] != Outside
    }

    ghost function Stack(): Nest
      reads this, ifstate, ignoring
      requires Valid()
    {
      NestOf(ifstate[..], ignoring[..], depth)
    }

    /** The state as a value. */
    ghost function State(): Machine
      reads this, ifstate, ignoring
      requires Valid()
    {
      Machine(Stack(), output, exitstat == 1, status)
    }

    constructor (iocccok: bool)
      ensures Settled() && fresh(ifstate) && fresh(ignoring)
      ensures this.iocccok == iocccok && State() == START
    {
      this.iocccok := iocccok;
      ifstate := new Ifstate[MAXDEPTH](_ => Outside);
      ignoring := new bool[MAXDEPTH](_ => false);
      depth, output, exitstat, status := 0, [], 0, Running;
      tline := PlainLine("");
    }

    // ------------------------------------------------------------------ the primitives

    method Flushline(keep: bool)
      requires Valid()
      modifies this`output, this`exitstat
      ensures Valid() && State() == Flush(old(State()), tline, keep)
    {
      if keep {
        output := output + [tline];
      } else {
        exitstat := 1;
      }
    }

    /** Overwrite the rest of the line from the keyword on, and print it. */
    method Keywordedit(replacement: Line)
      requires Valid()
      modifies this`tline, this`output, this`exitstat
      ensures Valid() && State() == Flush(old(State()), replacement, true)
    {
      tline := replacement;
      Flushline(true);
    }

    method Nest()
      requires Valid() && status == Running
      modifies this`depth, this`status
      ensures Valid() && status == (if old(depth) == MAXDEPTH - 1 then TooDeep else Running)
      ensures depth == old(depth) + (if status == Running then 1 else 0)
    {
      if depth == MAXDEPTH - 1 {
        status := TooDeep;
        return;
      }
      depth := depth + 1;
    }

    method Unnest()
      requires Valid() && status == Running
      modifies this`depth, this`status
      ensures Valid() && depth <= old(depth) && State() == Pop(old(State()))
    {
      if depth == 0 {
        status := Aborted;
        return;
      }
      depth := depth - 1;
    }

    method Ignoreoff()
      requires Valid() && depth > 0
      modifies ignoring
      ensures Valid() && ignoring[..] == old(ignoring[..])[depth := old(ignoring[depth - 1])]
    {
      ignoring[depth] := ignoring[depth - 1];
    }

    method Ignoreon()
      requires Valid() && depth > 0
      modifies ignoring
      ensures Valid() && ignoring[..] == old(ignoring[..])[depth := true]
      ensures State() == old(State()).(nest := old(Stack()).(ignoring := true))
    {
      NestOfUpdate(ifstate[..], ignoring[..], depth, ifstate[depth], true);
      assert ifstate[..][depth := ifstate[depth]] == ifstate[..];
      ignoring[depth] := true;
    }

    method SetIfstate(s: Ifstate)
      requires Valid() && depth > 0
      modifies ifstate
      ensures Valid() && ifstate[..] == old(ifstate[..])[depth := s]
      ensures State() == SetState(old(State()), s, false)
    {
      NestOfUpdate(ifstate[..], ignoring[..], depth, s, ignoring[depth]);
      assert ignoring[..][depth := ignoring[depth]] == ignoring[..];
      ifstate[depth] := s;
    }

    // -------------------------------------------------- what the transition functions share

    lemma SlotBelow()
      requires Valid()
      ensures depth > 0 ==> Stack().Inside? && Stack().state == ifstate[depth]
                            && Stack().outer == NestOf(ifstate[..], ignoring[..], depth - 1)
                            && Stack().outer.Ignoring() == ignoring[depth - 1]
      ensures Stack().Top() == ifstate[depth]
    {
    }

    /** First line of a group: nest, print or drop the line, take over the ignore flag. */
    method Enter(keep: bool, s: Ifstate)
      requires Settled() && status == Running && s != Outside
      modifies this`depth, this`status, this`output, this`exitstat, ifstate, ignoring
      ensures Settled() && State() == Push(old(State()), tline, keep, s, false)
      ensures status == Running ==> depth > 0
    {
      NestOfDepth(ifstate[..], ignoring[..], depth);
      SlotBelow();
      Nest();
      if status != Running { return; }
      ghost var states, ignores := ifstate[..], ignoring[..];
      NestOfUpdate(states, ignores, depth, s, ignores[depth - 1]);
      Flushline(keep);
      Ignoreoff();
      SetIfstate(s);
      assert ifstate[..] == states[depth := s] && ignoring[..] == ignores[depth := ignores[depth - 1]];
    }

    /** Print or drop the line, take over the outer ignore flag, and change the state. */
    method Become(keep: bool, s: Ifstate, reset: bool)
      requires Settled() && status == Running && depth > 0 && s != Outside
      modifies this`output, this`exitstat, ifstate, ignoring
      ensures Settled() && State() == SetState(Flush(old(State()), tline, keep), s, reset)
    {
      SlotBelow();
      NestOfUpdate(ifstate[..], ignoring[..], depth, s, ignoring[if reset then depth - 1 else depth]);
      assert ignoring[..][depth := ignoring[depth]] == ignoring[..];
      Flushline(keep);
      if reset {
        Ignoreoff();
      }
      SetIfstate(s);
    }

    method EnterIgnoring(keep: bool, s: Ifstate)
      requires Settled() && status == Running && s != Outside
      modifies this`depth, this`status, this`output, this`exitstat, ifstate, ignoring
      ensures Settled() && State() == Push(old(State()), tline, keep, s, true)
    {
      Enter(keep, s);
      if status == Running { Ignoreon(); }
    }

    /** A true or false #if split over several lines is an error, or passed through. */
    method Obfuscated(ignore: bool)
      requires Settled() && status == Running
      modifies this`depth, this`status, this`output, this`exitstat, ifstate, ignoring
      ensures Settled()
      ensures State() == Perform(old(State()), if ignore then Oiffy else Oif, tline, iocccok)
    {
      if !iocccok {
        status := Failed(Eioccc);
      } else if ignore {
        EnterIgnoring(true, PassMiddle);
      } else {
        Enter(true, PassMiddle);
      }
    }

    method Leave(keep: bool)
      requires Settled() && status == Running && depth > 0
      modifies this`output, this`exitstat, this`depth, this`status
      ensures Settled() && State() == Pop(Flush(old(State()), tline, keep))
    {
      Flushline(keep);
      Unnest();
    }

    /** The transition functions for the first line of a group. */
    method OpenTransition(a: Action)
      requires Settled() && status == Running
      requires a in {Fdrop, Fpass, Ftrue, Ffalse}
      modifies this`depth, this`status, this`output, this`exitstat, ifstate, ignoring
      ensures Settled() && State() == Perform(old(State()), a, tline, iocccok)
    {
      match a
      case Fdrop => Enter(false, FalseTrailer);
      case Fpass => Enter(true, PassMiddle);
      case Ftrue => Enter(false, TruePrefix);
      case Ffalse => Enter(false, FalsePrefix);
    }

    /** ... for those that ignore what is inside, or are split over several lines. */
    method IgnoringTransition(a: Action)
      requires Settled() && status == Running
      requires a in {Idrop, Itrue, Ifalse, Oiffy, Oif}
      modifies this`depth, this`status, this`output, this`exitstat, ifstate, ignoring
      ensures Settled() && State() == Perform(old(State()), a, tline, iocccok)
    {
      match a
      case Idrop => EnterIgnoring(false, FalseTrailer);
      case Itrue => EnterIgnoring(false, TruePrefix);
      case Ifalse => EnterIgnoring(false, FalsePrefix);
      case Oiffy => Obfuscated(true);
      case Oif => Obfuscated(false);
    }

    method Edit(replacement: Line, s: Ifstate)
      requires Settled() && status == Running && depth > 0 && s != Outside
      modifies this`tline, this`output, this`exitstat, ifstate
      ensures Settled() && State() == SetState(Flush(old(State()), replacement, true), s, false)
    {
      Keywordedit(replacement);
      SetIfstate(s);
    }

    /** The transition functions that overwrite the line. */
    method EditTransition(a: Action)
      requires Settled() && status == Running && depth > 0 && a in {Mtrue, Melif, Melse}
      modifies this`tline, this`output, this`exitstat, ifstate
      ensures Settled() && State() == Perform(old(State()), a, old(tline), iocccok)
    {
      match a
      case Mtrue => Edit(ElseLine, TrueMiddle);
      case Melif => Edit(EndifLine, FalseTrailer);
      case Melse => Edit(EndifLine, FalseElse);
    }

    /** The keyword becomes "if", and the rest of the line is kept. */
    method ElifToIf()
      requires Settled() && status == Running && depth > 0 && tline.ElifLine?
      modifies this`tline, this`output, this`exitstat, ifstate, ignoring
      ensures Settled()
      ensures State() == SetState(Flush(old(State()), IfLine(old(tline).cond), true), PassMiddle, true)
    {
      tline := IfLine(tline.cond);
      Become(true, PassMiddle, true);
    }

    /** The transition functions for the later lines of a group that is dropped or decided. */
    method BranchTransition(a: Action)
      requires Settled() && status == Running && depth > 0
      requires a in {Strue, Sfalse, Selse, Dfalse, Delif}
      modifies this`depth, this`status, this`output, this`exitstat, ifstate, ignoring
      ensures Settled() && State() == Perform(old(State()), a, tline, iocccok)
    {
      match a
      case Strue => Become(false, TruePrefix, true);
      case Sfalse => Become(false, FalsePrefix, true);
      case Selse => Become(false, TrueElse, false);
      case Dfalse => Become(false, FalseTrailer, true);
      case Delif => Become(false, FalseMiddle, true);
    }

    /** ... of a group that is passed on, or near its end. */
    method CloseTransition(a: Action)
      requires Settled() && status == Running && depth > 0
      requires a in {Pelif, Pelse, Pendif, Delse, Dendif, Oelif}
      modifies this`depth, this`status, this`output, this`exitstat, ifstate, ignoring
      ensures Settled() && State() == Perform(old(State()), a, tline, iocccok)
    {
      match a
      case Pelif => Become(true, PassMiddle, true);
      case Pelse => Become(true, PassElse, false);
      case Pendif => Leave(true);
      case Delse => Become(false, FalseElse, false);
      case Dendif => Leave(false);
      case Oelif =>
        if !iocccok {
          status := Failed(Eioccc);
        } else {
          Become(true, PassMiddle, true);
        }
    }

    /** Call the state transition function `a` on the current line. */
    method Transition(a: Action)
      requires Settled() && status == Running
      requires exists lt :: a == TransTable(ifstate[depth], lt)
      requires a == Mpass ==> tline.ElifLine?
      modifies this, ifstate, ignoring
      ensures Settled() && State() == Perform(old(State()), a, old(tline), iocccok)
    {
      if a in {Eelif, Eelse, Eendif, Eeof, Eioccc} {
        status := Failed(a);
      } else if a == Done {
        status := Finished;
      } else if a == Abort {
        status := Aborted;
      } else if a == Print || a == Drop {
        Flushline(a == Print);
      } else if a in {Fdrop, Fpass, Ftrue, Ffalse} {
        OpenTransition(a);
      } else if a in {Idrop, Itrue, Ifalse, Oiffy, Oif} {
        IgnoringTransition(a);
      } else if a in {Pelif, Pelse, Pendif, Delse, Dendif, Oelif} {
        CloseTransition(a);
      } else if a == Mpass {
        ElifToIf();
      } else if a in {Mtrue, Melif, Melse} {
        EditTransition(a);
      } else {
        BranchTransition(a);
      }
    }

    /** One line: look its transition up and call it. */
    method ProcessLine(item: Item)
      requires Settled() && status == Running && (item.lt != Eof ==> Fits(item))
      modifies this, ifstate, ignoring
      ensures Settled() && State() == Step(old(State()), item, iocccok)
    {
      tline := item.line;
      SlotBelow();
      Transition(TransTable(ifstate[depth], item.lt));
    }

    /** The driver: one transition a line until the run ends. */
    method Process(items: seq<Item>)
      requires Valid() && State() == START
      requires forall i :: 0 <= i < |items| ==> Fits(items[i])
      modifies this, ifstate, ignoring
      ensures Valid() && State() == Run(items, iocccok)
      ensures status == Finished ==>
        forall v | Consistent(items, v) :: Preprocess(output, v) == Preprocess(Lines(items), v)
    {
      var n := 0;
      while status == Running && n < |items|
        invariant n <= |items| && Settled()
        invariant State() == Feed(items[..n], iocccok)
      {
        ProcessLine(items[n]);
        FeedNext(items, n, iocccok);
        n := n + 1;
      }
      assert items[..|items|] == items;
      if status == Running {
        ProcessLine(Item(PlainLine(""), Eof));
      } else {
        StoppedStays(items, n, iocccok);
      }
      FinishedKeepsMeaning(items, iocccok);
    }
  }
}
