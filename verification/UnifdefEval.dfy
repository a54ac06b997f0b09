/** unifdef's three-valued evaluator (scripts/unifdef.c) and its soundness against the
    meaning C gives the same expression under any values of the unknown symbols. */
module UnifdefEval {
  import opened Basics
  import opened UnifdefExpr

  // ------------------------------------------------------------------ what C computes

  /** Values of all names: as an operand, possibly applied to arguments, and for `defined`. */
  datatype Env = Env(value: (string, Tokens) -> int, isDefined: string -> bool)

  function Truth(b: bool): int { if b then 1 else 0 }

  function OpMeaning(op: Op, x: int, y: int): int {
    match op
    case Or => Truth(x != 0 || y != 0)
    case And => Truth(x != 0 && y != 0)
    case Eq => Truth(x == y)
    case Ne => Truth(x != y)
    case Le => Truth(x <= y)
    case Ge => Truth(x >= y)
    case Lt => Truth(x < y)
    case Gt => Truth(x > y)
  }

  function SymName(w: Tokens): string {
    if w == [] then "" else match w[0]
      case Word(name) => name
      case Num(spelling, _) => spelling
      case _ => ""
  }

  function Meaning(a: Ast, env: Env): int {
    match a
    case Number(_, n) => n
    case DefinedTest(w, _) => Truth(env.isDefined(SymName(w)))
    case Ident(name, args) => env.value(name, args)
    case NotE(e) => Truth(Meaning(e, env) == 0)
    case Paren(e) => Meaning(e, env)
    case Bin(op, l, r) => OpMeaning(op, Meaning(l, env), Meaning(r, env))
  }

  /** The environment is one in which what -D and -U said is true. */
  ghost predicate Agree(env: Env, syms: Symbols) {
    forall name | name in syms ::
      && (env.isDefined(name) <==> syms[name].value.Some?)
      && (syms[name].value == None ==> forall args :: env.value(name, args) == 0)
      && (forall n :: syms[name].value == Some(Some(n)) ==>
            forall args :: env.value(name, args) == n)
  }

  // --------------------------------------------------------------- what unifdef computes

  /** `Bad` is a symbol whose value is not a number; it spoils the whole expression. */
  datatype Answer = Bad | Unknown | Value(n: int)

  /** The operator functions: strict, except that || and && may decide on one operand. */
  function OpAnswer(op: Op, strict: bool, x: Answer, y: Answer): Answer {
    if x == Bad || y == Bad then Bad
    else if op == Or && !strict && ((x.Value? && x.n != 0) || (y.Value? && y.n != 0)) then Value(1)
    else if op == And && !strict && (x == Value(0) || y == Value(0)) then Value(0)
    else if x == Unknown || y == Unknown then Unknown
    else Value(OpMeaning(op, x.n, y.n))
  }

  function Estimate(a: Ast, syms: Symbols, strict: bool): Answer {
    match a
    case Number(_, n) => Value(n)
    case DefinedTest(w, _) =>
      if w != [] && SymName(w) in syms then Value(Truth(syms[SymName(w)].value.Some?)) else Unknown
    case Ident(name, _) =>
      if name !in syms then Unknown
      else if syms[name].value == None then Value(0)
      else if syms[name].value.value == None then Bad
      else Value(syms[name].value.value.value)
    case NotE(e) => (
      match Estimate(e, syms, strict)
      case Value(n) => Value(Truth(n == 0))
      case other => other)
    case Paren(e) => Estimate(e, syms, strict)
    case Bin(op, l, r) => OpAnswer(op, strict, Estimate(l, syms, strict), Estimate(r, syms, strict))
  }

  /** Does the expression contain anything but numbers? */
  predicate Mentions(a: Ast) {
    match a
    case Number(_, _) => false
    case DefinedTest(_, _) => true
    case Ident(_, _) => true
    case NotE(e) => Mentions(e)
    case Paren(e) => Mentions(e)
    case Bin(_, l, r) => Mentions(l) || Mentions(r)
  }

  /** Exactly if there is a word among its tokens. */
  lemma {:induction false} MentionsIff(a: Ast)
    ensures Mentions(a) <==> exists t :: t in Yield(a) && t.Word?
  {
    match a
    case Number(_, _) =>
    case DefinedTest(_, _) => assert Word(DEFINED) in Yield(a);
    case Ident(name, _) => assert Word(name) in Yield(a);
    case NotE(e) =>
      MentionsIff(e);
      assert Yield(a) == [Not] + Yield(e);
    case Paren(e) =>
      MentionsIff(e);
      assert Yield(a) == [LParen] + Yield(e) + [RParen];
    case Bin(op, l, r) =>
      MentionsIff(l);
      MentionsIff(r);
      assert Yield(a) == Yield(l) + [Binary(op)] + Yield(r);
  }

  /** Soundness: a definite answer is the value of the expression under every environment
      that agrees with what is known. */
  lemma {:induction false} EstimateSound(a: Ast, syms: Symbols, strict: bool, env: Env)
    requires Agree(env, syms) && Estimate(a, syms, strict).Value?
    ensures Meaning(a, env) == Estimate(a, syms, strict).n
  {
    match a
    case Number(_, _) =>
    case DefinedTest(_, _) =>
    case Ident(_, _) =>
    case NotE(e) => EstimateSound(e, syms, strict, env);
    case Paren(e) => EstimateSound(e, syms, strict, env);
    case Bin(op, l, r) =>
      if Estimate(l, syms, strict).Value? { EstimateSound(l, syms, strict, env); }
      if Estimate(r, syms, strict).Value? { EstimateSound(r, syms, strict, env); }
  }

  /** An answer given under -K is given without it, and errors do not depend on it. */
  lemma {:induction false} StrictIsWeaker(a: Ast, syms: Symbols)
    ensures Estimate(a, syms, true).Value? ==> Estimate(a, syms, false) == Estimate(a, syms, true)
    ensures Estimate(a, syms, true) == Bad <==> Estimate(a, syms, false) == Bad
  {
    match a
    case Number(_, _) =>
    case DefinedTest(_, _) =>
    case Ident(_, _) =>
    case NotE(e) => StrictIsWeaker(e, syms);
    case Paren(e) => StrictIsWeaker(e, syms);
    case Bin(op, l, r) => StrictIsWeaker(l, syms); StrictIsWeaker(r, syms);
  }

  // -------------------------------------------------------- what has to be decided

  /** A number the operand may have, given what is known of it. */
  predicate Completes(x: Answer, n: int) { x.Value? ==> n == x.n }

  /** Every number the operands may have gives the same result. */
  ghost predicate Forced(op: Op, x: Answer, y: Answer, n: int) {
    forall a, b {:trigger OpMeaning(op, a, b)} | Completes(x, a) && Completes(y, b) :: OpMeaning(op, a, b) == n
  }

  /** Where two numbers are wanted of which one is not known, there are two that give different
      results. */
  lemma NotForced(op: Op, x: Answer, y: Answer)
    requires x != Bad && y != Bad && OpAnswer(op, false, x, y) == Unknown
    ensures exists a, b, c, d {:trigger OpMeaning(op, a, b), OpMeaning(op, c, d)} ::
              && Completes(x, a) && Completes(y, b) && Completes(x, c) && Completes(y, d)
              && OpMeaning(op, a, b) != OpMeaning(op, c, d)
  {
    var a := if x.Value? then x.n else if y.Value? then y.n else 0;
    var b := if y.Value? then y.n else a;
    if op == Or || op == And {
      var i, j := (if x.Value? then x.n else 0), if y.Value? then y.n else 0;
      var k, l := (if x.Value? then x.n else 1), if y.Value? then y.n else 1;
      assert OpMeaning(op, i, j) != OpMeaning(op, k, l);
    } else {
      var c, d := (if x.Value? then a else a + 1), if x.Value? then b + 1 else b;
      var e, f := (if x.Value? then a else a - 1), if x.Value? then b - 1 else b;
      assert OpMeaning(op, a, b) != OpMeaning(op, c, d) || OpMeaning(op, a, b) != OpMeaning(op, e, f);
    }
  }

  /** Without -K an operator answers exactly if every number that the unknown operands may have
      gives the answer; with it exactly if both operands are known. */
  lemma OpAnswerExact(op: Op, x: Answer, y: Answer, n: int)
    requires x != Bad && y != Bad
    ensures OpAnswer(op, false, x, y) == Value(n) <==> Forced(op, x, y, n)
    ensures OpAnswer(op, true, x, y) == Value(n) <==> x.Value? && y.Value? && OpMeaning(op, x.n, y.n) == n
  {
    var r := OpAnswer(op, false, x, y);
    if r == Unknown {
      NotForced(op, x, y);
    } else {
      var a, b := (if x.Value? then x.n else 0), if y.Value? then y.n else 0;
      assert OpMeaning(op, a, b) == r.n;
    }
  }

  /** Are all names of the expression known, as numbers where their value is asked for? */
  predicate AllKnown(a: Ast, syms: Symbols) {
    match a
    case Number(_, _) => true
    case DefinedTest(w, _) => w != [] && SymName(w) in syms
    case Ident(name, _) => name in syms && syms[name].value != Some(None)
    case NotE(e) => AllKnown(e, syms)
    case Paren(e) => AllKnown(e, syms)
    case Bin(_, l, r) => AllKnown(l, syms) && AllKnown(r, syms)
  }

  /** Then the answer is the value of the expression, with -K or without. */
  lemma {:induction false} KnownIsAnswered(a: Ast, syms: Symbols, strict: bool, env: Env)
    requires AllKnown(a, syms) && Agree(env, syms)
    ensures Estimate(a, syms, strict) == Value(Meaning(a, env))
  {
    match a
    case Number(_, _) =>
    case DefinedTest(_, _) =>
    case Ident(_, _) =>
    case NotE(e) => KnownIsAnswered(e, syms, strict, env);
    case Paren(e) => KnownIsAnswered(e, syms, strict, env);
    case Bin(op, l, r) =>
      KnownIsAnswered(l, syms, strict, env);
      KnownIsAnswered(r, syms, strict, env);
      OpAnswerExact(op, Estimate(l, syms, strict), Estimate(r, syms, strict), Meaning(a, env));
  }

  /** The verdict on a condition: LT_TRUE, LT_FALSE or LT_IF, and what is left unread. */
  datatype Linekind = LtIf | LtTrue | LtFalse | LtError
  datatype Verdict = Verdict(kind: Linekind, rest: Tokens)

  function KindOf(x: Answer): Linekind {
    match x
    case Bad => LtError
    case Unknown => LtIf
    case Value(n) => if n != 0 then LtTrue else LtFalse
  }

  datatype Options = Options(strict: bool, killconsts: bool)

  function Judge(ts: Tokens, syms: Symbols, o: Options): Verdict {
    match ParseTable(0, ts, syms)
    case NoParse => Verdict(LtIf, ts)
    case Parsed(a, rest) =>
      if Estimate(a, syms, o.strict) == Bad then Verdict(LtIf, ts)
      else if !o.killconsts && !Mentions(a) then Verdict(LtIf, rest)
      else Verdict(KindOf(Estimate(a, syms, o.strict)), rest)
  }

  /** When the condition is judged true (false), its only reading is non-zero (zero) under
      every environment that agrees with what is known. */
  lemma JudgeSound(a: Ast, syms: Symbols, o: Options, env: Env)
    requires Wf(a, syms) && Agree(env, syms)
    ensures Judge(Yield(a), syms, o).kind == LtTrue ==> Meaning(a, env) != 0
    ensures Judge(Yield(a), syms, o).kind == LtFalse ==> Meaning(a, env) == 0
    ensures Judge(Yield(a), syms, o).kind != LtError
  {
    ParseYield(0, a, [], syms);
    assert Yield(a) + [] == Yield(a);
    if Estimate(a, syms, o.strict).Value? {
      EstimateSound(a, syms, o.strict, env);
    }
  }

  /** A condition whose names are all known is judged by its value, if it has any name or
      constants are to be judged too (-k). */
  lemma KnownIsJudged(a: Ast, syms: Symbols, o: Options, env: Env)
    requires Wf(a, syms) && AllKnown(a, syms) && Agree(env, syms)
    ensures Judge(Yield(a), syms, o)
         == Verdict(if !Mentions(a) && !o.killconsts then LtIf
                    else if Meaning(a, env) != 0 then LtTrue else LtFalse, [])
  {
    ParseYield(0, a, [], syms);
    assert Yield(a) + [] == Yield(a);
    KnownIsAnswered(a, syms, o.strict, env);
  }

  /** A definite verdict on a whole condition is a verdict on an expression. */
  lemma JudgeReads(ts: Tokens, syms: Symbols, o: Options) returns (a: Ast)
    requires Judge(ts, syms, o).kind in {LtTrue, LtFalse} && Judge(ts, syms, o).rest == []
    ensures Wf(a, syms) && Yield(a) == ts && ParseTable(0, ts, syms) == Parsed(a, [])
  {
    ParseSound(0, ts, syms);
    a := ParseTable(0, ts, syms).ast;
    assert Yield(a) + [] == Yield(a);
  }

  /** The same verdicts on all token sequences, well formed or not: -K only loses answers. */
  lemma JudgeStrictIsWeaker(ts: Tokens, syms: Symbols, killconsts: bool)
    ensures var k, n := Judge(ts, syms, Options(true, killconsts)), Judge(ts, syms, Options(false, killconsts));
            && k.rest == n.rest
            && k.kind in {LtIf, n.kind}
  {
    var p := ParseTable(0, ts, syms);
    if p.Parsed? {
      StrictIsWeaker(p.ast, syms);
    }
  }

  // ------------------------------------------------------------------- the evaluator

  /** A bad operand anywhere in a chain spoils the chain. */
  predicate Spoiled(p: Parsed, syms: Symbols, strict: bool) {
    p.Parsed? ==> Estimate(p.ast, syms, strict) == Bad
  }

  lemma {:induction false} LoopStaysBad(k: nat, l: Ast, ts: Tokens, syms: Symbols, strict: bool)
    requires k < 4 && Estimate(l, syms, strict) == Bad
    ensures Spoiled(ParseLoop(k, l, ts, syms), syms, strict)
    decreases |ts|
  {
    if ts != [] && ts[0].Binary? && Level(ts[0].op) == k {
      var q := ParseTable(k + 1, ts[1..], syms);
      if q.Parsed? {
        LoopStaysBad(k, Bin(ts[0].op, l, q.ast), q.rest, syms, strict);
      }
    }
  }

  lemma FirstSpoils(k: nat, ts: Tokens, syms: Symbols, strict: bool)
    requires k < 4 && Spoiled(ParseTable(k + 1, ts, syms), syms, strict)
    ensures Spoiled(ParseTable(k, ts, syms), syms, strict)
  {
    var p := ParseTable(k + 1, ts, syms);
    if p.Parsed? {
      LoopStaysBad(k, p.ast, p.rest, syms, strict);
    }
  }

  /** The next operand of a chain: spoiling it, or becoming part of it. */
  lemma ChainStep(k: nat, l: Ast, ts: Tokens, syms: Symbols, strict: bool)
    requires k < 4 && ts != [] && ts[0].Binary? && Level(ts[0].op) == k
    ensures var q := ParseTable(k + 1, ts[1..], syms);
            && (Spoiled(q, syms, strict) ==> Spoiled(ParseLoop(k, l, ts, syms), syms, strict))
            && (q.Parsed? ==>
                  ParseLoop(k, l, ts, syms) == ParseLoop(k, Bin(ts[0].op, l, q.ast), q.rest, syms))
  {
    var q := ParseTable(k + 1, ts[1..], syms);
    if q.Parsed? && Estimate(q.ast, syms, strict) == Bad {
      LoopStaysBad(k, Bin(ts[0].op, l, q.ast), q.rest, syms, strict);
    }
  }

  /** The evaluation functions of one condition.  Each takes the current content of the
      value cell and the cursor, and returns both updated; the value cell holds junk unless
      the answer is definite. */
  class Evaluator {
    const ts: Tokens
    const syms: Symbols
    const o: Options
    var constexpr: bool

    constructor (ts: Tokens, syms: Symbols, o: Options)
      ensures this.ts == ts && this.syms == syms && this.o == o
    {
      this.ts, this.syms, this.o := ts, syms, o;
    }

    /** The outcome `lt`, `val`, `cp` reports the parse `p` and the estimate of its tree. */
    ghost predicate Reports(p: Parsed, lt: Linekind, val: int, cp: nat) {
      match p
      case NoParse => lt == LtError
      case Parsed(a, rest) =>
        var x := Estimate(a, syms, o.strict);
        && lt == KindOf(x)
        && (x.Value? ==> val == x.n)
        && (x != Bad ==> cp <= |ts| && ts[cp..] == rest)
    }

    /** The constant-expression flag after reading `p`, when it was `before`. */
    ghost predicate Noticed(p: Parsed, lt: Linekind, before: bool, after: bool) {
      lt != LtError && p.Parsed? ==> after == (before && !Mentions(p.ast))
    }

    method SkipArguments(cp0: nat) returns (cp: nat)
      requires cp0 <= |ts|
      ensures cp0 <= cp <= |ts| && ts[cp..] == SkipArgs(ts[cp0..])
    {
      cp := cp0;
      if cp == |ts| || ts[cp] != LParen { return; }
      var level := 0;
      while true
        invariant cp0 <= cp < |ts|
        invariant CloseArgs(ts[cp0..], 0) == CloseArgs(ts[cp..], level)
        decreases |ts| - cp
      {
        if ts[cp] == LParen { level := level + 1; }
        if ts[cp] == RParen { level := level - 1; }
        cp := cp + 1;
        if level == 0 || cp == |ts| { break; }
      }
      if level != 0 {
        cp := cp0;
      }
    }

    method EvalDefined(valp: int, cp0: nat) returns (lt: Linekind, val: int, cp: nat)
      requires cp0 <= |ts|
      modifies this`constexpr
      ensures cp0 <= cp <= |ts| && Reports(ParseDefined(ts[cp0..]), lt, val, cp)
      ensures Noticed(ParseDefined(ts[cp0..]), lt, old(constexpr), constexpr)
    {
      cp, val := cp0, valp;
      var defparen := cp < |ts| && ts[cp] == LParen;
      if defparen { cp := cp + 1; }
      var name := "";
      lt := LtIf;
      if cp < |ts| && IsSym(ts[cp]) {
        assert ts[cp..][..1] == [ts[cp]];
        name := SymName([ts[cp]]);
        if name in syms {
          val := Truth(syms[name].value.Some?);
          lt := if val != 0 then LtTrue else LtFalse;
        }
        cp := cp + 1;
      }
      if defparen {
        if cp == |ts| || ts[cp] != RParen {
          lt := LtError;
          return;
        }
        cp := cp + 1;
      }
      constexpr := false;
    }

    method EvalUnary(valp: int, cp0: nat) returns (lt: Linekind, val: int, cp: nat)
      requires cp0 <= |ts|
      modifies this`constexpr
      ensures cp0 <= cp <= |ts| && (lt != LtError ==> cp0 < cp)
      ensures Reports(ParseUnary(ts[cp0..], syms), lt, val, cp)
      ensures Noticed(ParseUnary(ts[cp0..], syms), lt, old(constexpr), constexpr)
      decreases |ts| - cp0, 0
    {
      lt, val, cp := LtError, valp, cp0;
      if cp == |ts| { return; }
      var t := ts[cp];
      match t
      case Not =>
        lt, val, cp := EvalUnary(valp, cp + 1);
        if lt == LtTrue || lt == LtFalse {
          val := Truth(val == 0);
          lt := if val != 0 then LtTrue else LtFalse;
        }
      case LParen =>
        lt, val, cp := EvalTable(0, valp, cp + 1);
        if lt == LtError { return; }
        if cp == |ts| || ts[cp] != RParen {
          lt := LtError;
          return;
        }
        cp := cp + 1;
      case Num(_, n) =>
        val := n;
        lt := if val != 0 then LtTrue else LtFalse;
        cp := cp + 1;
      case Word(name) =>
        cp := cp + 1;
        if name == DEFINED {
          lt, val, cp := EvalDefined(valp, cp);
        } else if name !in syms {
          lt := LtIf;
          cp := SkipArguments(cp);
          constexpr := false;
        } else if syms[name].value == None {
          val, lt := 0, LtFalse;
          constexpr := false;
        } else {
          if syms[name].value.value == None { return; }
          val := syms[name].value.value.value;
          lt := if val != 0 then LtTrue else LtFalse;
          cp := SkipArguments(cp);
          constexpr := false;
        }
      case _ =>
    }

    /** The operator functions on truth kinds and value cells; `p` is the left value cell. */
    method OpFn(op: Op, at: Linekind, p: int, bt: Linekind, b: int, ghost x: Answer, ghost y: Answer)
      returns (lt: Linekind, p': int)
      requires at == KindOf(x) && bt == KindOf(y) && x != Bad && y != Bad
      requires (x.Value? ==> p == x.n) && (y.Value? ==> b == y.n)
      ensures lt == KindOf(OpAnswer(op, o.strict, x, y))
      ensures OpAnswer(op, o.strict, x, y).Value? ==> p' == OpAnswer(op, o.strict, x, y).n
    {
      p' := p;
      if op == Or && !o.strict && (at == LtTrue || bt == LtTrue) {
        return LtTrue, 1;
      }
      if op == And && !o.strict && (at == LtFalse || bt == LtFalse) {
        return LtFalse, 0;
      }
      if at == LtIf || bt == LtIf {
        return LtIf, p;
      }
      p' := OpMeaning(op, p, b);
      lt := if p' != 0 then LtTrue else LtFalse;
    }

    method EvalTable(k: nat, valp: int, cp0: nat) returns (lt: Linekind, val: int, cp: nat)
      requires k <= 4 && cp0 <= |ts|
      modifies this`constexpr
      ensures cp0 <= cp <= |ts| && (lt != LtError ==> cp0 < cp)
      ensures Reports(ParseTable(k, ts[cp0..], syms), lt, val, cp)
      ensures Noticed(ParseTable(k, ts[cp0..], syms), lt, old(constexpr), constexpr)
      decreases |ts| - cp0, 5 - k
    {
      if k == 4 {
        lt, val, cp := EvalUnary(valp, cp0);
        return;
      }
      ghost var p := ParseTable(k + 1, ts[cp0..], syms);
      lt, val, cp := EvalTable(k + 1, valp, cp0);
      if lt == LtError {
        FirstSpoils(k, ts[cp0..], syms, o.strict);
        return;
      }
      ghost var l := p.ast;
      while cp < |ts| && ts[cp].Binary? && Level(ts[cp].op) == k
        invariant cp0 < cp <= |ts| && lt != LtError
        invariant Reports(Parsed(l, ts[cp..]), lt, val, cp)
        invariant constexpr == (old(constexpr) && !Mentions(l))
        invariant ParseTable(k, ts[cp0..], syms) == ParseLoop(k, l, ts[cp..], syms)
        decreases |ts| - cp
      {
        lt, val, cp, l := EvalNext(k, l, lt, val, cp);
        if lt == LtError { return; }
      }
    }

    /** One more operator and operand of a chain at level `k` whose left end is `l`. */
    method EvalNext(k: nat, ghost l: Ast, lt0: Linekind, val0: int, cp0: nat)
      returns (lt: Linekind, val: int, cp: nat, ghost l': Ast)
      requires k < 4 && cp0 < |ts| && ts[cp0].Binary? && Level(ts[cp0].op) == k
      requires lt0 != LtError && Reports(Parsed(l, ts[cp0..]), lt0, val0, cp0)
      modifies this`constexpr
      ensures cp0 < cp <= |ts|
      ensures lt == LtError ==> Spoiled(ParseLoop(k, l, ts[cp0..], syms), syms, o.strict)
      ensures lt != LtError ==>
        && Reports(Parsed(l', ts[cp..]), lt, val, cp)
        && ParseLoop(k, l, ts[cp0..], syms) == ParseLoop(k, l', ts[cp..], syms)
        && l'.Bin? && l'.l == l
        && constexpr == (old(constexpr) && !Mentions(l'.r))
      decreases |ts| - cp0, 0
    {
      var op, junk: int := ts[cp0].op, *;
      ghost var q := ParseTable(k + 1, ts[cp0 + 1..], syms);
      assert ts[cp0..][1..] == ts[cp0 + 1..];
      ChainStep(k, l, ts[cp0..], syms, o.strict);
      l' := l;
      lt, val, cp := EvalTable(k + 1, junk, cp0 + 1);
      if lt == LtError { return; }
      lt, val := OpFn(op, lt0, val0, lt, val, Estimate(l, syms, o.strict), Estimate(q.ast, syms, o.strict));
      l' := Bin(op, l, q.ast);
    }

    /** The verdict on the condition that starts at the beginning of the tokens. */
    method Ifeval() returns (v: Verdict)
      modifies this`constexpr
      ensures v == Judge(ts, syms, o)
    {
      constexpr := !o.killconsts;
      var ret, val, cp := EvalTable(0, 0, 0);
      assert ts[0..] == ts;
      var rest := if ret == LtError then ts else ts[cp..];
      v := Verdict(if constexpr || ret == LtError then LtIf else ret, rest);
    }
  }
}
