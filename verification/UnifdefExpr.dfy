/** The expressions unifdef evaluates on #if and #elif lines (scripts/unifdef.c), as tokens:
    the grammar they follow, what C takes them to mean, and what unifdef can tell of them
    when it knows only some of the symbols. */
module UnifdefExpr {
  import opened Basics

  datatype Op = Or | And | Eq | Ne | Le | Ge | Lt | Gt

  /** A number keeps its spelling because it can stand where a name is looked up. */
  datatype Token =
    | Not | LParen | RParen
    | Num(spelling: string, value: int)
    | Word(name: string)
    | Binary(op: Op)
    | Other

  type Tokens = seq<Token>

  /** What -D and -U said of a symbol: undefined, or defined with a value that may or may
      not be a number.  `ignore` is the -i flag. */
  datatype Known = Known(value: Option<Option<int>>, ignore: bool)
  type Symbols = map<string, Known>

  const DEFINED := "defined"

  /** The condition on a directive line: an expression, or what follows #ifdef or #ifndef. */
  datatype Cond = Test(ts: Tokens) | Ifdef(ts: Tokens) | Ifndef(ts: Tokens)

  /** The precedence table: 0 binds loosest; 4 stands for operands. */
  function Level(op: Op): nat {
    match op
    case Or => 0
    case And => 1
    case Eq => 2
    case Ne => 2
    case _ => 3
  }

  // ------------------------------------------------------------------------ the grammar

  datatype Ast =
    | Number(spelling: string, value: int)
    | DefinedTest(operand: Tokens, paren: bool)
    | Ident(name: string, args: Tokens)
    | NotE(e: Ast)
    | Paren(e: Ast)
    | Bin(op: Op, l: Ast, r: Ast)

  function Precedence(a: Ast): nat {
    if a.Bin? then Level(a.op) else 4
  }

  predicate IsSym(t: Token) { t.Num? || t.Word? }

  predicate IsUndefined(name: string, syms: Symbols) {
    name in syms && syms[name].value == None
  }

  /** What remains after the parenthesis that balances, if there is one. */
  function CloseArgs(ts: Tokens, level: int): (r: Option<Tokens>)
    requires ts != []
    ensures r.Some? ==> |r.value| < |ts|
  {
    var level' := level + (if ts[0] == LParen then 1 else if ts[0] == RParen then -1 else 0);
    if level' == 0 then Some(ts[1..])
    else if ts[1..] == [] then None
    else CloseArgs(ts[1..], level')
  }

  /** Binary operators are left associative and bind by level; an argument list is one
      balanced pair of parentheses; a symbol known to be undefined takes no arguments. */
  predicate Wf(a: Ast, syms: Symbols) {
    match a
    case Number(_, _) => true
    case DefinedTest(w, _) => |w| <= 1 && (forall t | t in w :: IsSym(t))
    case Ident(name, args) =>
      && name != DEFINED
      && (args != [] ==> !IsUndefined(name, syms) && args[0] == LParen && CloseArgs(args, 0) == Some([]))
    case NotE(e) => !e.Bin? && Wf(e, syms)
    case Paren(e) => Wf(e, syms)
    case Bin(op, l, r) =>
      Level(op) <= Precedence(l) && Level(op) < Precedence(r) && Wf(l, syms) && Wf(r, syms)
  }

  /** The tokens of an expression. */
  function Yield(a: Ast): Tokens {
    match a
    case Number(s, v) => [Num(s, v)]
    case DefinedTest(w, paren) =>
      [Word(DEFINED)] + (if paren then [LParen] + w + [RParen] else w)
    case Ident(name, args) => [Word(name)] + args
    case NotE(e) => [Not] + Yield(e)
    case Paren(e) => [LParen] + Yield(e) + [RParen]
    case Bin(op, l, r) => Yield(l) + [Binary(op)] + Yield(r)
  }

  // ------------------------------------------------------------------------- the parser

  /** Skip the arguments of a function-like macro; stay put when they are not balanced. */
  function SkipArgs(ts: Tokens): (r: Tokens)
    ensures |r| <= |ts|
  {
    if ts == [] || ts[0] != LParen then ts
    else match CloseArgs(ts, 0)
      case None => ts
      case Some(rest) => rest
  }

  datatype Parsed = NoParse | Parsed(ast: Ast, rest: Tokens)

  /** A symbol with the arguments that follow it. */
  function ParseIdent(name: string, ts: Tokens, syms: Symbols): (r: Parsed)
    ensures r.Parsed? && |r.rest| <= |ts|
  {
    if IsUndefined(name, syms) then Parsed(Ident(name, []), ts)
    else
      var rest := SkipArgs(ts);
      Parsed(Ident(name, ts[..|ts| - |rest|]), rest)
  }

  /** The operand of `defined`, with or without parentheses, possibly missing. */
  function ParseDefined(ts: Tokens): (r: Parsed)
    ensures r.Parsed? ==> |r.rest| <= |ts|
  {
    var paren := ts != [] && ts[0] == LParen;
    var ts1 := if paren then ts[1..] else ts;
    var w := if ts1 != [] && IsSym(ts1[0]) then ts1[..1] else [];
    var ts2 := ts1[|w|..];
    if !paren then Parsed(DefinedTest(w, false), ts2)
    else if ts2 != [] && ts2[0] == RParen then Parsed(DefinedTest(w, true), ts2[1..])
    else NoParse
  }

  function ParseUnary(ts: Tokens, syms: Symbols): (r: Parsed)
    ensures r.Parsed? ==> |r.rest| < |ts|
    decreases |ts|, 0
  {
    if ts == [] then NoParse else
    match ts[0]
    case Not => (
      match ParseUnary(ts[1..], syms)
      case NoParse => NoParse
      case Parsed(e, rest) => Parsed(NotE(e), rest))
    case LParen => (
      match ParseTable(0, ts[1..], syms)
      case NoParse => NoParse
      case Parsed(e, rest) =>
        if rest != [] && rest[0] == RParen then Parsed(Paren(e), rest[1..]) else NoParse)
    case Num(s, v) => Parsed(Number(s, v), ts[1..])
    case Word(name) =>
      if name == DEFINED then ParseDefined(ts[1..]) else ParseIdent(name, ts[1..], syms)
    case _ => NoParse
  }

  function ParseTable(k: nat, ts: Tokens, syms: Symbols): (r: Parsed)
    requires k <= 4
    ensures r.Parsed? ==> |r.rest| < |ts|
    decreases |ts|, 5 - k
  {
    if k == 4 then ParseUnary(ts, syms)
    else match ParseTable(k + 1, ts, syms)
      case NoParse => NoParse
      case Parsed(l, rest) => ParseLoop(k, l, rest, syms)
  }

  /** Extend `l` to the left-associative chain of the operators at level `k`. */
  function ParseLoop(k: nat, l: Ast, ts: Tokens, syms: Symbols): (r: Parsed)
    requires k < 4
    ensures r.Parsed? ==> |r.rest| <= |ts|
    decreases |ts|, 5 - k
  {
    if ts == [] || !ts[0].Binary? || Level(ts[0].op) != k then Parsed(l, ts)
    else match ParseTable(k + 1, ts[1..], syms)
      case NoParse => NoParse
      case Parsed(r, rest) => ParseLoop(k, Bin(ts[0].op, l, r), rest, syms)
  }

  // --------------------------------------------------- the parser decides the grammar

  /** Tokens that cannot extend an operand. */
  predicate Ends(ts: Tokens) {
    ts == [] || (ts[0] != LParen && !IsSym(ts[0]))
  }

  /** Tokens that cannot extend an expression of level `k` or above. */
  predicate Stops(k: nat, ts: Tokens) {
    Ends(ts) && (ts != [] && ts[0].Binary? ==> Level(ts[0].op) < k)
  }

  lemma {:induction false} CloseArgsExtends(ts: Tokens, level: int, rest: Tokens)
    requires ts != [] && CloseArgs(ts, level) == Some([])
    ensures CloseArgs(ts + rest, level) == Some(rest)
    decreases |ts|
  {
    assert (ts + rest)[1..] == ts[1..] + rest;
    if ts[1..] != [] {
      var level' := level + (if ts[0] == LParen then 1 else if ts[0] == RParen then -1 else 0);
      if level' != 0 {
        CloseArgsExtends(ts[1..], level', rest);
      }
    }
  }

  lemma Prepend(t: Token, ts: Tokens, a: Tokens, rest: Tokens)
    requires ts != [] && ts[0] == t && ts[1..] == a + rest
    ensures ts == [t] + a + rest
  {
    assert ts == [t] + ts[1..];
  }

  lemma {:induction false} CloseArgsSplits(ts: Tokens, level: int)
    requires ts != [] && CloseArgs(ts, level).Some?
    ensures var rest := CloseArgs(ts, level).value;
            var args := ts[..|ts| - |rest|];
            args != [] && ts == args + rest && CloseArgs(args, level) == Some([])
    decreases |ts|
  {
    var level' := level + (if ts[0] == LParen then 1 else if ts[0] == RParen then -1 else 0);
    var rest := CloseArgs(ts, level).value;
    var args := ts[..|ts| - |rest|];
    if level' == 0 {
      assert args[1..] == [];
    } else {
      CloseArgsSplits(ts[1..], level');
      var tail := ts[1..][..|ts[1..]| - |rest|];
      assert args == [ts[0]] + tail && args[1..] == tail;
      Prepend(ts[0], ts, tail, rest);
    }
  }

  lemma Enclose(ts: Tokens, a: Tokens, rest: Tokens)
    requires ts != [] && ts[0] == LParen && ts[1..] == a + rest && rest != [] && rest[0] == RParen
    ensures ts == [LParen] + a + [RParen] + rest[1..]
  {
    Prepend(LParen, ts, a, rest);
    assert rest == [RParen] + rest[1..];
  }

  /** Completeness: parsing the tokens of an expression of level `k` gives that expression
      as the left end of a chain, whatever follows it. */
  lemma {:induction false} ParseYield(k: nat, a: Ast, rest: Tokens, syms: Symbols)
    requires k <= Precedence(a) && Wf(a, syms) && Ends(rest) && Stops(k + 1, rest)
    ensures ParseTable(k, Yield(a) + rest, syms)
         == if k == 4 then Parsed(a, rest) else ParseLoop(k, a, rest, syms)
    decreases a, 5 - k
  {
    var ts := Yield(a) + rest;
    if k == 4 {
      ParseYieldUnary(a, rest, syms);
    } else if k < Precedence(a) {
      ParseYield(k + 1, a, rest, syms);
    } else {
      var tail := [Binary(a.op)] + (Yield(a.r) + rest);
      assert ts == Yield(a.l) + tail;
      ParseYield(k, a.l, tail, syms);
      assert tail[1..] == Yield(a.r) + rest;
      ParseYield(k + 1, a.r, rest, syms);
    }
  }

  lemma ParseDefinedYield(w: Tokens, paren: bool, rest: Tokens)
    requires |w| <= 1 && (forall t | t in w :: IsSym(t)) && Ends(rest)
    ensures ParseDefined((if paren then [LParen] + w + [RParen] else w) + rest)
         == Parsed(DefinedTest(w, paren), rest)
  {
    var ts := (if paren then [LParen] + w + [RParen] else w) + rest;
    var ts1 := if paren then ts[1..] else ts;
    var ts2 := if paren then [RParen] + rest else rest;
    assert paren ==> ts == [LParen] + (w + ts2);
    assert ts1 == w + ts2;
    if w == [] {
      assert ts1 == ts2;
    } else {
      assert w == [w[0]] && IsSym(w[0]) && ts1[0] == w[0] && ts1[..1] == w;
    }
    assert ts1[|w|..] == ts2;
    assert paren ==> ts2[1..] == rest;
  }

  lemma ParseIdentYield(name: string, args: Tokens, rest: Tokens, syms: Symbols)
    requires Wf(Ident(name, args), syms) && Ends(rest)
    ensures ParseIdent(name, args + rest, syms) == Parsed(Ident(name, args), rest)
  {
    if args == [] {
      assert args + rest == rest;
    } else {
      CloseArgsExtends(args, 0, rest);
    }
    assert (args + rest)[..|args|] == args;
  }

  lemma ParseIdentSound(name: string, ts: Tokens, syms: Symbols)
    requires name != DEFINED
    ensures var Parsed(a, rest) := ParseIdent(name, ts, syms);
            Wf(a, syms) && a.Ident? && a.name == name && ts == a.args + rest
  {
    if !IsUndefined(name, syms) && ts != [] && ts[0] == LParen && CloseArgs(ts, 0).Some? {
      CloseArgsSplits(ts, 0);
    }
  }

  lemma ParseDefinedSound(ts: Tokens, syms: Symbols)
    requires ParseDefined(ts).Parsed?
    ensures var Parsed(a, rest) := ParseDefined(ts);
            Wf(a, syms) && a.DefinedTest? && [Word(DEFINED)] + ts == Yield(a) + rest
  {
    var Parsed(a, rest) := ParseDefined(ts);
    if a.paren {
      assert ts == [LParen] + a.operand + [RParen] + rest;
    } else {
      assert ts == a.operand + rest;
    }
  }

  /** The tokens of an operand and what follows it, without the first token. */
  function OperandTail(a: Ast, rest: Tokens): Tokens
    requires !a.Bin?
  {
    match a
    case Number(_, _) => rest
    case DefinedTest(w, paren) => (if paren then [LParen] + w + [RParen] else w) + rest
    case Ident(_, args) => args + rest
    case NotE(e) => Yield(e) + rest
    case Paren(e) => Yield(e) + ([RParen] + rest)
  }

  lemma OperandSplits(a: Ast, rest: Tokens)
    requires !a.Bin?
    ensures Yield(a) + rest != [] && (Yield(a) + rest)[1..] == OperandTail(a, rest)
    ensures (Yield(a) + rest)[0] == match a
      case Number(s, v) => Num(s, v)
      case DefinedTest(_, _) => Word(DEFINED)
      case Ident(name, _) => Word(name)
      case NotE(_) => Not
      case Paren(_) => LParen
  {
  }

  lemma {:induction false} ParseYieldUnary(a: Ast, rest: Tokens, syms: Symbols)
    requires !a.Bin? && Wf(a, syms) && Ends(rest)
    ensures ParseUnary(Yield(a) + rest, syms) == Parsed(a, rest)
    decreases a, 0
  {
    OperandSplits(a, rest);
    match a
    case Number(_, _) =>
    case DefinedTest(w, paren) => ParseDefinedYield(w, paren, rest);
    case Ident(name, args) => ParseIdentYield(name, args, rest, syms);
    case NotE(e) => ParseYieldUnary(e, rest, syms);
    case Paren(e) =>
      var tail := [RParen] + rest;
      ParseYield(0, e, tail, syms);
      assert ParseTable(0, Yield(e) + tail, syms) == Parsed(e, tail);
      assert tail[1..] == rest;
  }

  /** Soundness: what the parser returns is an expression of the grammar, and its tokens
      are the tokens consumed. */
  lemma {:induction false} ParseSound(k: nat, ts: Tokens, syms: Symbols)
    requires k <= 4 && ParseTable(k, ts, syms).Parsed?
    ensures var Parsed(a, rest) := ParseTable(k, ts, syms);
            Wf(a, syms) && k <= Precedence(a) && ts == Yield(a) + rest
    decreases |ts|, 5 - k, 0
  {
    if k == 4 {
      ParseUnarySound(ts, syms);
    } else {
      ParseSound(k + 1, ts, syms);
      var Parsed(l, rest) := ParseTable(k + 1, ts, syms);
      ParseLoopSound(k, l, rest, syms);
    }
  }

  lemma ChainYield(op: Op, l: Ast, r: Ast, ts: Tokens, rest: Tokens)
    requires ts != [] && ts[0] == Binary(op) && ts[1..] == Yield(r) + rest
    ensures Yield(l) + ts == Yield(Bin(op, l, r)) + rest
  {
    assert ts == [ts[0]] + ts[1..];
  }

  lemma {:induction false} ParseLoopSound(k: nat, l: Ast, ts: Tokens, syms: Symbols)
    requires k < 4 && Wf(l, syms) && k <= Precedence(l) && ParseLoop(k, l, ts, syms).Parsed?
    ensures var Parsed(a, rest) := ParseLoop(k, l, ts, syms);
            Wf(a, syms) && k <= Precedence(a) && Yield(l) + ts == Yield(a) + rest
    decreases |ts|, 5 - k, 1
  {
    if ts != [] && ts[0].Binary? && Level(ts[0].op) == k {
      ParseSound(k + 1, ts[1..], syms);
      var Parsed(r, rest) := ParseTable(k + 1, ts[1..], syms);
      ChainYield(ts[0].op, l, r, ts, rest);
      ParseLoopSound(k, Bin(ts[0].op, l, r), rest, syms);
    }
  }

  lemma ParseWordSound(name: string, ts: Tokens, syms: Symbols)
    requires ts != [] && ts[0] == Word(name) && ParseUnary(ts, syms).Parsed?
    ensures var Parsed(a, rest) := ParseUnary(ts, syms);
            Wf(a, syms) && !a.Bin? && ts == Yield(a) + rest
  {
    if name == DEFINED {
      ParseDefinedSound(ts[1..], syms);
      assert ts == [Word(DEFINED)] + ts[1..];
    } else {
      ParseIdentSound(name, ts[1..], syms);
      var Parsed(a, rest) := ParseIdent(name, ts[1..], syms);
      Prepend(Word(name), ts, a.args, rest);
    }
  }

  lemma {:induction false} ParseUnarySound(ts: Tokens, syms: Symbols)
    requires ParseUnary(ts, syms).Parsed?
    ensures var Parsed(a, rest) := ParseUnary(ts, syms);
            Wf(a, syms) && !a.Bin? && ts == Yield(a) + rest
    decreases |ts|, 0, 0
  {
    match ts[0]
    case Not =>
      ParseUnarySound(ts[1..], syms);
      var Parsed(e, rest) := ParseUnary(ts[1..], syms);
      Prepend(Not, ts, Yield(e), rest);
    case LParen =>
      ParseSound(0, ts[1..], syms);
      var Parsed(e, rest) := ParseTable(0, ts[1..], syms);
      Enclose(ts, Yield(e), rest);
    case Num(_, _) =>
    case Word(name) => ParseWordSound(name, ts, syms);
  }

  /** The grammar is unambiguous: tokens have at most one reading. */
  lemma UniqueReading(a: Ast, b: Ast, syms: Symbols)
    requires Wf(a, syms) && Wf(b, syms) && Yield(a) == Yield(b)
    ensures a == b
  {
    ParseYield(0, a, [], syms);
    ParseYield(0, b, [], syms);
    assert Yield(a) + [] == Yield(a) && Yield(b) + [] == Yield(b);
  }

  /** In C the second operator binds tighter than the first (sections 6.5.8 to 6.5.14 of
      ISO/IEC 9899:1999). */
  predicate Tighter(op1: Op, op2: Op) {
    || (op1 == Or && op2 in {And, Eq, Ne, Le, Ge, Lt, Gt})
    || (op1 == And && op2 in {Eq, Ne, Le, Ge, Lt, Gt})
    || (op1 in {Eq, Ne} && op2 in {Le, Ge, Lt, Gt})
  }

  /** Two operators group as in C: the tighter one first, else from the left. */
  lemma GroupsAsC(x: int, y: int, z: int, op1: Op, op2: Op, syms: Symbols)
    ensures var a, b, c := Number("", x), Number("", y), Number("", z);
            ParseTable(0, [Num("", x), Binary(op1), Num("", y), Binary(op2), Num("", z)], syms)
            == Parsed(if Tighter(op1, op2) then Bin(op1, a, Bin(op2, b, c)) else Bin(op2, Bin(op1, a, b), c), [])
  {
    var a, b, c := Number("", x), Number("", y), Number("", z);
    var t := if Tighter(op1, op2) then Bin(op1, a, Bin(op2, b, c)) else Bin(op2, Bin(op1, a, b), c);
    var ts := [Num("", x), Binary(op1), Num("", y), Binary(op2), Num("", z)];
    assert Yield(a) == [Num("", x)] && Yield(b) == [Num("", y)] && Yield(c) == [Num("", z)];
    assert Yield(Bin(op2, b, c)) == [Num("", y), Binary(op2), Num("", z)];
    assert Yield(Bin(op1, a, b)) == [Num("", x), Binary(op1), Num("", y)];
    assert Yield(t) == ts && ts + [] == ts;
    ParseYield(0, t, [], syms);
  }
}
