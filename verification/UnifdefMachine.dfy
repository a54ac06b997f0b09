/** The line state machine of unifdef (scripts/unifdef.c): the 10-state transition table,
    its stack of #if states, and the edits it makes to #elif lines.

    The machine is stated twice: as a function on values, `Run`, and as the class
    `Unifdef`, whose methods update the arrays and counters as the C globals are updated
    and are proved to compute `Run`.  What the machine is for is proved about `Run`,
    against `Preprocess`, an independent reading of conditional inclusion (section 6.10.1
    of ISO/IEC 9899:1999). */
module UnifdefMachine {

  import opened UnifdefExpr

  const MAXDEPTH: nat := 64

  /** A line of a C file, as far as conditional inclusion cares; the machine never
      looks inside a condition. */
  datatype Line =
    | IfLine(cond: Cond)
    | ElifLine(cond: Cond)
    | ElseLine
    | EndifLine
    | PlainLine(text: string)

  datatype Directive =
    TrueI | FalseI | If | True | False | Elif | Eltrue | Elfalse | Else | Endif

  /** The 23 line types: a directive, possibly with the DODGY flag, or one of three others. */
  datatype Linetype = Direct(d: Directive, dodgy: bool) | Plain | Eof | Error

  datatype Ifstate =
    | Outside | FalsePrefix | TruePrefix | PassMiddle | FalseMiddle | TrueMiddle
    | PassElse | FalseElse | TrueElse | FalseTrailer

  /** One name for each state transition function. */
  datatype Action =
    | Eelif | Eelse | Eendif | Eeof | Eioccc
    | Print | Drop
    | Strue | Sfalse | Selse
    | Pelif | Pelse | Pendif
    | Dfalse | Delif | Delse | Dendif
    | Fdrop | Fpass | Ftrue | Ffalse
    | Oiffy | Oif | Oelif
    | Idrop | Itrue | Ifalse
    | Mpass | Mtrue | Melif | Melse
    | Done | Abort

  /** The entries most rows share: a group that opens where lines are printed ... */
  function OpenPrinted(d: Directive, dodgy: bool): Action {
    match d
    case TrueI => if dodgy then Oiffy else Itrue
    case FalseI => if dodgy then Oiffy else Ifalse
    case If => Fpass
    case True => if dodgy then Oif else Ftrue
    case False => if dodgy then Oif else Ffalse
    case Elif => Eelif
    case Eltrue => Eelif
    case Elfalse => Eelif
    case Else => Eelse
    case Endif => Eendif
  }

  /** ... and one that opens where they are dropped. */
  function OpenDropped(d: Directive): Action {
    match d
    case TrueI => Idrop
    case FalseI => Idrop
    case If => Fdrop
    case True => Fdrop
    case False => Fdrop
    case Elif => Eelif
    case Eltrue => Eelif
    case Elfalse => Eelif
    case Else => Eelse
    case Endif => Eendif
  }

  predicate Opens(d: Directive) { d in {TrueI, FalseI, If, True, False} }
  predicate Elifs(d: Directive) { d in {Elif, Eltrue, Elfalse} }

  /** Are plain lines copied to the output in this state? */
  predicate Printing(s: Ifstate) {
    s in {Outside, TruePrefix, PassMiddle, TrueMiddle, PassElse, TrueElse}
  }

  /** The transition table. */
  function TransTable(s: Ifstate, lt: Linetype): Action {
    match lt
    case Error => Abort
    case Eof => if s == Outside then Done else Eeof
    case Plain => if Printing(s) then Print else Drop
    case Direct(d, dodgy) =>
      if Opens(d) then (if Printing(s) then OpenPrinted(d, dodgy) else OpenDropped(d)) else
      match s
      case Outside => OpenPrinted(d, dodgy)
      case FalsePrefix => (
        if d == Elif then Mpass
        else if dodgy then Eioccc
        else match d
          case Eltrue => Strue
          case Elfalse => Sfalse
          case Else => Selse
          case _ => Dendif)
      case TruePrefix => (
        if dodgy then Eioccc
        else if Elifs(d) then Dfalse
        else if d == Else then Delse else Dendif)
      case PassMiddle => (
        match d
        case Elif => Pelif
        case Eltrue => if dodgy then Oelif else Mtrue
        case Elfalse => if dodgy then Oelif else Delif
        case Else => Pelse
        case _ => Pendif)
      case FalseMiddle => (
        if dodgy then Eioccc
        else match d
          case Elif => Pelif
          case Eltrue => Mtrue
          case Elfalse => Delif
          case Else => Pelse
          case _ => Pendif)
      case TrueMiddle => (
        if d == Endif then Pendif
        else if dodgy then Eioccc
        else if Elifs(d) then Melif else Melse)
      case PassElse => if d == Endif then Pendif else OpenPrinted(d, dodgy)
      case FalseElse =>
        if d == Endif then (if dodgy then Eioccc else Dendif) else OpenDropped(d)
      case TrueElse =>
        if d == Endif then (if dodgy then Eioccc else Dendif) else OpenPrinted(d, dodgy)
      case FalseTrailer => (
        if Elifs(d) then Dfalse
        else if d == Else then Delse
        else if dodgy then Eioccc else Dendif)
  }

  /** Does the output hold an #if for the group this state belongs to? */
  predicate OpenInOutput(s: Ifstate) {
    s in {PassMiddle, FalseMiddle, TrueMiddle, PassElse}
  }

  // ---------------------------------------------------------------- the machine on values

  /** The stack of #if states with the ignore flag kept beside each. */
  datatype Nest = Bottom | Inside(outer: Nest, state: Ifstate, ignoring: bool)
  {
    function Top(): Ifstate { if Bottom? then Outside else state }
    function Ignoring(): bool { if Bottom? then false else ignoring }
    function Depth(): nat { if Bottom? then 0 else 1 + outer.Depth() }
  }

  datatype Status = Running | Finished | Failed(error: Action) | TooDeep | Aborted

  /** `changed` is the exit status: some line was not copied. */
  datatype Machine = Machine(nest: Nest, output: seq<Line>, changed: bool, status: Status)

  const START := Machine(Bottom, [], false, Running)

  function Flush(m: Machine, line: Line, keep: bool): Machine {
    if keep then m.(output := m.output + [line]) else m.(changed := true)
  }

  /** Replace the state on top of the stack; `reset` also takes over the outer ignore flag. */
  function SetState(m: Machine, s: Ifstate, reset: bool): Machine {
    match m.nest
    case Bottom => m.(status := Aborted)
    case Inside(outer, _, ig) =>
      m.(nest := Inside(outer, s, if reset then outer.Ignoring() else ig))
  }

  function Pop(m: Machine): Machine {
    match m.nest
    case Bottom => m.(status := Aborted)
    case Inside(outer, _, _) => m.(nest := outer)
  }

  function Push(m: Machine, line: Line, keep: bool, s: Ifstate, ignore: bool): Machine {
    if m.nest.Depth() >= MAXDEPTH - 1 then m.(status := TooDeep)
    else Flush(m, line, keep).(nest := Inside(m.nest, s, ignore || m.nest.Ignoring()))
  }

  /** `#elif c` rewritten to `#if c`. */
  function AsIf(line: Line): Line {
    if line.ElifLine? then IfLine(line.cond) else line
  }

  /** The effect of one transition function on the line being processed. */
  function Perform(m: Machine, a: Action, line: Line, iocccok: bool): Machine {
    match a
    case Eelif => m.(status := Failed(a))
    case Eelse => m.(status := Failed(a))
    case Eendif => m.(status := Failed(a))
    case Eeof => m.(status := Failed(a))
    case Eioccc => m.(status := Failed(a))
    case Print => Flush(m, line, true)
    case Drop => Flush(m, line, false)
    case Strue => SetState(Flush(m, line, false), TruePrefix, true)
    case Sfalse => SetState(Flush(m, line, false), FalsePrefix, true)
    case Selse => SetState(Flush(m, line, false), TrueElse, false)
    case Pelif => SetState(Flush(m, line, true), PassMiddle, true)
    case Pelse => SetState(Flush(m, line, true), PassElse, false)
    case Pendif => Pop(Flush(m, line, true))
    case Dfalse => SetState(Flush(m, line, false), FalseTrailer, true)
    case Delif => SetState(Flush(m, line, false), FalseMiddle, true)
    case Delse => SetState(Flush(m, line, false), FalseElse, false)
    case Dendif => Pop(Flush(m, line, false))
    case Fdrop => Push(m, line, false, FalseTrailer, false)
    case Fpass => Push(m, line, true, PassMiddle, false)
    case Ftrue => Push(m, line, false, TruePrefix, false)
    case Ffalse => Push(m, line, false, FalsePrefix, false)
    case Oiffy =>
      if iocccok then Push(m, line, true, PassMiddle, true) else m.(status := Failed(Eioccc))
    case Oif =>
      if iocccok then Push(m, line, true, PassMiddle, false) else m.(status := Failed(Eioccc))
    case Oelif =>
      if iocccok then SetState(Flush(m, line, true), PassMiddle, true)
      else m.(status := Failed(Eioccc))
    case Idrop => Push(m, line, false, FalseTrailer, true)
    case Itrue => Push(m, line, false, TruePrefix, true)
    case Ifalse => Push(m, line, false, FalsePrefix, true)
    case Mpass => SetState(Flush(m, AsIf(line), true), PassMiddle, true)
    case Mtrue => SetState(Flush(m, ElseLine, true), TrueMiddle, false)
    case Melif => SetState(Flush(m, EndifLine, true), FalseTrailer, false)
    case Melse => SetState(Flush(m, EndifLine, true), FalseElse, false)
    case Done => m.(status := Finished)
    case Abort => m.(status := Aborted)
  }

  /** An input line with the type the line parser gave it. */
  datatype Item = Item(line: Line, lt: Linetype)

  function Step(m: Machine, item: Item, iocccok: bool): Machine {
    if m.status != Running then m
    else Perform(m, TransTable(m.nest.Top(), item.lt), item.line, iocccok)
  }

  /** The machine after the given lines, before the end of the file is seen. */
  function Feed(items: seq<Item>, iocccok: bool): Machine
    decreases |items|
  {
    if items == [] then START
    else Step(Feed(items[..|items| - 1], iocccok), items[|items| - 1], iocccok)
  }

  /** A whole run: every line, then the end of the file. */
  function Run(items: seq<Item>, iocccok: bool): Machine {
    Step(Feed(items, iocccok), Item(PlainLine(""), Eof), iocccok)
  }

  // ------------------------------------------------- conditional inclusion, independently

  /** An open conditional group: is its current branch the selected one, was a branch
      selected before or now, and has #else been seen? */
  datatype Group = Group(live: bool, taken: bool, sawElse: bool)

  /** Groups open at some point of a file, innermost first, and the lines selected so far. */
  datatype Groups = NoGroup | In(outer: Groups, g: Group)
  datatype Reading = Reading(groups: Groups, text: seq<string>) | IllNested

  predicate Active(gs: Groups) {
    gs.In? ==> gs.g.live && Active(gs.outer)
  }

  /** The truth value of a condition met after the preprocessor has selected the given plain
      lines: these may define and undefine what the condition is about, so one condition can be
      true at one place of a file and false at another. */
  type Outcomes = (Cond, seq<string>) -> bool

  /** Reading one line when the conditions have the truth values `v`. */
  function ReadLine(r: Reading, line: Line, v: Outcomes): Reading {
    match r
    case IllNested => r
    case Reading(gs, text) =>
      match line
      case PlainLine(t) => if Active(gs) then Reading(gs, text + [t]) else r
      case IfLine(c) => Reading(In(gs, Group(v(c, text), v(c, text), false)), text)
      case ElifLine(c) =>
        if gs.NoGroup? || gs.g.sawElse then IllNested
        else Reading(In(gs.outer, Group(!gs.g.taken && v(c, text), gs.g.taken || v(c, text), false)), text)
      case ElseLine =>
        if gs.NoGroup? || gs.g.sawElse then IllNested
        else Reading(In(gs.outer, Group(!gs.g.taken, true, true)), text)
      case EndifLine =>
        if gs.NoGroup? then IllNested else Reading(gs.outer, text)
  }

  function ReadLines(lines: seq<Line>, v: Outcomes): Reading
    decreases |lines|
  {
    if lines == [] then Reading(NoGroup, [])
    else ReadLine(ReadLines(lines[..|lines| - 1], v), lines[|lines| - 1], v)
  }

  /** The outcome of preprocessing: the selected plain lines of a well nested file. */
  datatype Selection = Selected(text: seq<string>) | NotWellNested

  function Preprocess(lines: seq<Line>, v: Outcomes): Selection {
    match ReadLines(lines, v)
    case IllNested => NotWellNested
    case Reading(gs, text) => if gs == NoGroup then Selected(text) else NotWellNested
  }

  function Lines(items: seq<Item>): seq<Line> {
    seq(|items|, i requires 0 <= i < |items| => items[i].line)
  }

  /** The line type fits the line: what the line parser guarantees by construction. */
  predicate Fits(item: Item) {
    match item.lt
    case Plain => item.line.PlainLine?
    case Eof => false
    case Error => false
    case Direct(d, _) =>
      && (Opens(d) ==> item.line.IfLine?)
      && (Elifs(d) ==> item.line.ElifLine?)
      && (d == Else ==> item.line.ElseLine?)
      && (d == Endif ==> item.line.EndifLine?)
  }

  /** Wherever it is met, the condition has the truth value the line parser decided on. */
  ghost predicate Agrees(item: Item, v: Outcomes)
    requires Fits(item)
  {
    item.lt.Direct? ==>
      && (item.lt.d in {TrueI, True, Eltrue} ==> forall text :: v(item.line.cond, text))
      && (item.lt.d in {FalseI, False, Elfalse} ==> forall text :: !v(item.line.cond, text))
  }

  ghost predicate Consistent(items: seq<Item>, v: Outcomes) {
    forall i :: 0 <= i < |items| ==> Fits(items[i]) && Agrees(items[i], v)
  }
}
