/** A .config file printed and read back: kconfig_print_symbol, conf_set_sym_val and the loop of
    conf_read_simple (scripts/kconfig/confdata.c), for symbols outside choices. */
module ConfFile {
  import opened Basics
  import K = KconfigExpr
  import opened ConfLine

  type Kinds = map<string, Kind>
  type Defs = map<string, Val>

  predicate IsDigit(c: char) { '0' <= c <= '9' }
  predicate IsXDigit(c: char) { IsDigit(c) || 'a' <= c <= 'f' || 'A' <= c <= 'F' }

  function IntDigits(s: string): string { if s != "" && s[0] == '-' then s[1..] else s }

  function HexDigits(s: string): string {
    if |s| >= 2 && s[0] == '0' && (s[1] == 'x' || s[1] == 'X') then s[2..] else s
  }

  /** sym_string_valid for numbers */
  predicate ValidInt(s: string) {
    var d := IntDigits(s);
    d != "" && (forall c | c in d :: IsDigit(c)) && (d[0] == '0' ==> |d| == 1)
  }

  predicate ValidHex(s: string) {
    HexDigits(s) != "" && forall c | c in HexDigits(s) :: IsXDigit(c)
  }

  // ---------------------------------------------------------------- reading

  /** strchr */
  function Find(s: string, c: char): (r: Option<nat>)
    ensures r.Some? ==> r.value < |s|
  {
    if s == "" then None
    else if s[0] == c then Some(0)
    else match Find(s[1..], c)
      case None => None
      case Some(k) => Some(k + 1)
  }

  function AssignedBool(p: string): Outcome {
    if p != "" && p[0] == 'y' then Set(Truth(K.YES))
    else if p != "" && p[0] == 'n' then Set(Truth(K.NO))
    else Refused
  }

  /** What conf_set_sym_val makes of the text after "=". */
  function Assigned(kind: Kind, p: string): Outcome {
    match kind
    case Tristate => if p != "" && p[0] == 'm' then Set(Truth(K.MOD)) else AssignedBool(p)
    case Boolean => AssignedBool(p)
    case Text =>
      if p == "" || p[0] != '"' then Kept
      else (match Unescape(p[1..])
        case None => Refused
        case Some(s) => Set(Chars(s)))
    case Int => if ValidInt(p) then Set(Chars(p)) else Refused
    case Hex => if ValidHex(p) then Set(Chars(p)) else Refused
  }

  datatype Parsed = Nothing | NotSet(name: string) | Assign(name: string, text: string)

  /** Cut the end of the line off, be it a newline or a carriage return and a newline. */
  function CutEol(t: string): string {
    match Find(t, '\n')
    case None => t
    case Some(e) => if e > 0 && t[e - 1] == '\r' then t[..e - 1] else t[..e]
  }

  const UNSET := "is not set"

  function ParseLine(line: string): Parsed {
    if line != "" && line[0] == '#' then
      if |line| < 9 || line[2..9] != CONFIG then Nothing
      else match Find(line[9..], ' ')
        case None => Nothing
        case Some(k) =>
          var p := line[9 + k + 1..];
          if UNSET <= p then NotSet(line[9..9 + k]) else Nothing
    else if CONFIG <= line then
      match Find(line[7..], '=')
      case None => Nothing
      case Some(k) => Assign(line[7..7 + k], CutEol(line[7 + k + 1..]))
    else Nothing
  }

  function ReadLine(defs: Defs, kinds: Kinds, line: string): Defs {
    match ParseLine(line)
    case Nothing => defs
    case NotSet(name) =>
      if name in kinds && (kinds[name].Boolean? || kinds[name].Tristate?) then defs[name := Truth(K.NO)]
      else defs
    case Assign(name, text) =>
      if name !in kinds then defs
      else match Assigned(kinds[name], text)
        case Set(v) => defs[name := v]
        case Kept => defs
        case Refused => defs
  }

  /** The length of the first line, with its newline if it has one. */
  function LineLength(file: string): (n: nat)
    requires file != ""
    ensures 0 < n <= |file|
  {
    match Find(file, '\n')
    case None => |file|
    case Some(k) => k + 1
  }

  function ReadFile(defs: Defs, kinds: Kinds, file: string): Defs
    decreases |file|
  {
    if file == "" then defs
    else
      var n := LineLength(file);
      ReadFile(ReadLine(defs, kinds, file[..n]), kinds, file[n..])
  }

  // ---------------------------------------------------------------- printing

  function TruthString(t: K.Tri): string { if t == K.YES then "y" else if t == K.MOD then "m" else "n" }

  /** conf_write_symbol, through kconfig_print_symbol */
  function PrintSymbol(name: string, kind: Kind, v: Val): string {
    match v
    case Truth(t) =>
      if t == K.NO then "# " + CONFIG + name + " " + UNSET + "\n"
      else CONFIG + name + "=" + TruthString(t) + "\n"
    case Chars(s) => CONFIG + name + "=" + (if kind.Text? then Escape(s) else s) + "\n"
  }

  /** How values look in a file. */
  lemma Spelled(name: string, kind: Kind, s: string)
    ensures PrintSymbol(name, kind, Truth(K.YES)) == "CONFIG_" + name + "=y\n"
    ensures PrintSymbol(name, kind, Truth(K.MOD)) == "CONFIG_" + name + "=m\n"
    ensures PrintSymbol(name, kind, Truth(K.NO)) == "# CONFIG_" + name + " is not set\n"
    ensures !kind.Text? ==> PrintSymbol(name, kind, Chars(s)) == "CONFIG_" + name + "=" + s + "\n"
  {
    var a, b := "CONFIG_" + name + "=", "# " + "CONFIG_" + name;
    assert a + "y" + "\n" == a + "=y\n"[1..] && "=y\n"[1..] == "y\n";
    assert a + "m" + "\n" == a + "=m\n"[1..] && "=m\n"[1..] == "m\n";
    assert "CONFIG_" + name + "=y\n" == a + "y\n" && "CONFIG_" + name + "=m\n" == a + "m\n";
    assert b + " " + "is not set" + "\n" == "# CONFIG_" + name + " is not set\n";
  }

  /** Strings stand in quotes. */
  lemma SpelledText(name: string, s: string)
    requires forall i :: 0 <= i < |s| ==> s[i] != '"' && s[i] != '\\'
    ensures PrintSymbol(name, Text, Chars(s)) == "CONFIG_" + name + "=" + "\"" + s + "\"" + "\n"
  {
    EscapedPlain(s);
    assert "CONFIG_" + name + "=" + ("\"" + s + "\"") == "CONFIG_" + name + "=" + "\"" + s + "\"";
  }

  /** What a letter after "=" means. */
  lemma LettersMean(rest: string)
    ensures Assigned(Tristate, "m" + rest) == Set(Truth(K.MOD)) && Assigned(Boolean, "m" + rest) == Refused
    ensures forall kind | kind in {Boolean, Tristate} ::
              && Assigned(kind, "y" + rest) == Set(Truth(K.YES)) && Assigned(kind, "n" + rest) == Set(Truth(K.NO))
    ensures Assigned(Text, "\"" + rest) != Kept
  {
  }

  /** Which numbers are taken: a decimal one has no leading zero, a hexadecimal one need not begin
      with 0x. */
  lemma NumbersTaken()
    ensures ValidInt("0") && ValidInt("-12") && !ValidInt("007") && !ValidInt("-") && !ValidInt("")
    ensures ValidHex("0x1F") && ValidHex("ff") && !ValidHex("0x") && !ValidHex("0xg") && !ValidHex("")
  {
    assert IntDigits("-12") == "12" && HexDigits("0x1F") == "1F" && HexDigits("0x") == "";
    assert HexDigits("0xg") == "g" && 'g' in "g" && "g"[0] == 'g';
  }

  predicate IsSymName(name: string) {
    forall i :: 0 <= i < |name| ==> IsNameChar(name[i])
  }

  /** A value that a symbol of the kind can have. */
  predicate Suits(kind: Kind, v: Val) {
    match kind
    case Boolean => v.Truth? && v.t != K.MOD
    case Tristate => v.Truth?
    case Text => v.Chars?
    case Int => v.Chars? && ValidInt(v.s)
    case Hex => v.Chars? && ValidHex(v.s)
  }

  /** The value spans one line. */
  predicate OneLine(v: Val) { v.Chars? ==> '\n' !in v.s }

  // ---------------------------------------------------------------- the round trip

  /** The first occurrence, if there is one. */
  lemma {:induction false} FindIs(s: string, c: char)
    ensures match Find(s, c)
      case None => c !in s
      case Some(k) => s[k] == c && c !in s[..k]
  {
    if s != "" && s[0] != c {
      FindIs(s[1..], c);
      var r := Find(s[1..], c);
      if r.Some? {
        assert s[..r.value + 1] == [s[0]] + s[1..][..r.value];
      }
    }
  }

  lemma {:induction false} FindFirst(a: string, c: char, b: string)
    requires c !in a
    ensures Find(a + [c] + b, c) == Some(|a|)
  {
    if a != "" {
      FindFirst(a[1..], c, b);
      assert (a + [c] + b)[1..] == a[1..] + [c] + b;
    }
  }

  lemma ParseNotSet(name: string)
    requires IsSymName(name)
    ensures ParseLine("# " + CONFIG + name + " " + UNSET + "\n") == NotSet(name)
  {
    var line := "# " + CONFIG + name + " " + UNSET + "\n";
    var rest := UNSET + "\n";
    assert line[2..9] == CONFIG && line[9..] == name + [' '] + rest;
    FindFirst(name, ' ', rest);
    assert line[9 + |name| + 1..] == rest;
    assert line[9..9 + |name|] == name;
  }

  lemma ParseAssign(name: string, text: string)
    requires IsSymName(name) && '\n' !in text
    ensures ParseLine(CONFIG + name + "=" + text + "\n") == Assign(name, CutEol(text + "\n"))
    ensures CutEol(text + "\n") == if text != "" && text[|text| - 1] == '\r' then text[..|text| - 1] else text
  {
    var line := CONFIG + name + "=" + text + "\n";
    assert line[0] == 'C' && line[7..] == name + ['='] + (text + "\n");
    FindFirst(name, '=', text + "\n");
    assert line[7..7 + |name|] == name && line[7 + |name| + 1..] == text + "\n";
    FindFirst(text, '\n', "");
    assert text + ['\n'] + "" == text + "\n";
  }

  lemma FirstLine(line: string, rest: string)
    requires '\n' !in line
    ensures var file := line + "\n" + rest;
            && LineLength(file) == |line| + 1
            && file[..|line| + 1] == line + "\n" && file[|line| + 1..] == rest
  {
    FindFirst(line, '\n', rest);
    assert line + "\n" + rest == line + ['\n'] + rest;
  }

  predicate Clean(s: string) { '\n' !in s && s != "" && s[|s| - 1] != '\r' }

  lemma DigitsAreClean(d: string)
    requires d != "" && forall c | c in d :: IsXDigit(c)
    ensures Clean(d)
  {
    assert d[|d| - 1] in d;
  }

  lemma CleanAfter(sign: string, d: string)
    requires '\n' !in sign && Clean(d)
    ensures Clean(sign + d)
  {
  }

  lemma NumbersAreClean(s: string)
    requires ValidInt(s) || ValidHex(s)
    ensures Clean(s)
  {
    if ValidInt(s) {
      DigitsAreClean(IntDigits(s));
      CleanAfter("-", IntDigits(s));
      assert s == IntDigits(s) || s == "-" + IntDigits(s);
    } else {
      DigitsAreClean(HexDigits(s));
      CleanAfter(s[..|s| - |HexDigits(s)|], HexDigits(s));
      assert s == s[..|s| - |HexDigits(s)|] + HexDigits(s);
    }
  }

  lemma {:induction false} EscapedNewlines(s: string)
    ensures '\n' in Escaped(s) <==> '\n' in s
  {
    if s != "" {
      EscapedNewlines(s[1..]);
      assert s == [s[0]] + s[1..];
    }
  }

  /** The text that stands for a value after "=". */
  function ValueText(kind: Kind, v: Val): string {
    match v
    case Truth(t) => TruthString(t)
    case Chars(s) => if kind.Text? then Escape(s) else s
  }

  lemma TextReadsBack(kind: Kind, v: Val)
    requires Suits(kind, v)
    ensures Assigned(kind, ValueText(kind, v)) == Set(v)
  {
    if kind.Text? {
      UnescapeEscaped(v.s, "");
      assert Escape(v.s)[1..] == Escaped(v.s) + "\"" + "";
    }
  }

  lemma TextIsClean(kind: Kind, v: Val)
    requires Suits(kind, v) && OneLine(v)
    ensures Clean(ValueText(kind, v))
  {
    if kind.Text? {
      EscapedNewlines(v.s);
    } else if kind.Int? || kind.Hex? {
      NumbersAreClean(v.s);
    }
  }

  lemma NamesAreClean(name: string)
    requires IsSymName(name)
    ensures '\n' !in name && ' ' !in name && '=' !in name
  {
  }

  lemma ReadFirst(defs: Defs, kinds: Kinds, line: string, rest: string)
    requires '\n' !in line
    ensures ReadFile(defs, kinds, line + "\n" + rest)
         == ReadFile(ReadLine(defs, kinds, line + "\n"), kinds, rest)
  {
    FirstLine(line, rest);
  }

  lemma NoReadsBack(defs: Defs, kinds: Kinds, name: string, rest: string)
    requires IsSymName(name) && name in kinds && (kinds[name].Boolean? || kinds[name].Tristate?)
    ensures ReadFile(defs, kinds, PrintSymbol(name, kinds[name], Truth(K.NO)) + rest)
         == ReadFile(defs[name := Truth(K.NO)], kinds, rest)
  {
    NamesAreClean(name);
    ParseNotSet(name);
    ReadFirst(defs, kinds, "# " + CONFIG + name + " " + UNSET, rest);
  }

  lemma ValueReadsBack(defs: Defs, kinds: Kinds, name: string, v: Val, rest: string)
    requires IsSymName(name) && name in kinds && Suits(kinds[name], v) && OneLine(v) && v != Truth(K.NO)
    ensures ReadFile(defs, kinds, PrintSymbol(name, kinds[name], v) + rest)
         == ReadFile(defs[name := v], kinds, rest)
  {
    var t := ValueText(kinds[name], v);
    NamesAreClean(name);
    TextIsClean(kinds[name], v);
    TextReadsBack(kinds[name], v);
    ParseAssign(name, t);
    ReadFirst(defs, kinds, CONFIG + name + "=" + t, rest);
  }

  /** A printed symbol reads back as the value it had, whatever else is in the file. */
  lemma SymbolReadsBack(defs: Defs, kinds: Kinds, name: string, v: Val, rest: string)
    requires IsSymName(name) && name in kinds && Suits(kinds[name], v) && OneLine(v)
    ensures ReadFile(defs, kinds, PrintSymbol(name, kinds[name], v) + rest)
         == ReadFile(defs[name := v], kinds, rest)
  {
    if v == Truth(K.NO) {
      NoReadsBack(defs, kinds, name, rest);
    } else {
      ValueReadsBack(defs, kinds, name, v, rest);
    }
  }

  lemma EscapedLast(a: string, c: char)
    requires !Special(c)
    ensures Escaped(a + [c]) == Escaped(a) + [c]
  {
    EscapedAppend(a, [c]);
    EscapedPlain([c]);
  }

  lemma EscapedSpecial(a: string, c: char)
    requires Special(c)
    ensures Escaped(a + [c]) == Escaped(a) + ['\\', c]
  {
    EscapedAppend(a, [c]);
    assert [c][1..] == "";
  }

  function NoReturn(s: string): string {
    if s != "" && s[|s| - 1] == '\r' then s[..|s| - 1] else s
  }

  lemma CutQuoted(e: string)
    requires '\n' !in e
    ensures CutEol("\"" + e + "\n") == "\"" + NoReturn(e)
  {
    ParseAssign("", "\"" + e);
  }

  /** An escaped string without a carriage return at its end is another escaped string. */
  lemma EscapedNoReturn(a: string) returns (b: string)
    ensures NoReturn(Escaped(a)) == Escaped(b)
  {
    b := NoReturn(a);
    if a != "" {
      var c := a[|a| - 1];
      assert a == a[..|a| - 1] + [c];
      if Special(c) {
        EscapedSpecial(a[..|a| - 1], c);
      } else {
        EscapedLast(a[..|a| - 1], c);
      }
    }
  }

  lemma OpenQuoteRefused(a: string)
    requires '\n' !in a
    ensures Assigned(Text, CutEol("\"" + Escaped(a) + "\n")) == Refused
  {
    EscapedNewlines(a);
    CutQuoted(Escaped(a));
    var b := EscapedNoReturn(a);
    UnescapeOpen(b);
    assert ("\"" + Escaped(b))[1..] == Escaped(b);
  }

  lemma AssignRefused(defs: Defs, kinds: Kinds, name: string, text: string)
    requires IsSymName(name) && name in kinds && '\n' !in text
    requires Assigned(kinds[name], CutEol(text + "\n")) == Refused
    ensures ReadLine(defs, kinds, CONFIG + name + "=" + text + "\n") == defs
  {
    ParseAssign(name, text);
  }

  /** The first line of a string that spans several is refused: the quote does not end on it. */
  lemma BrokenLineRefused(defs: Defs, kinds: Kinds, name: string, a: string, rest: string)
    requires IsSymName(name) && name in kinds && kinds[name].Text? && '\n' !in a
    ensures ReadFile(defs, kinds, CONFIG + name + "=" + ("\"" + Escaped(a)) + "\n" + rest)
         == ReadFile(defs, kinds, rest)
  {
    EscapedNewlines(a);
    NamesAreClean(name);
    OpenQuoteRefused(a);
    AssignRefused(defs, kinds, name, "\"" + Escaped(a));
    ReadFirst(defs, kinds, CONFIG + name + "=" + ("\"" + Escaped(a)), rest);
  }

  lemma QuoteAcross(p: string, a: string, b: string)
    ensures p + ("\"" + (a + "\n" + b) + "\"") + "\n" == p + ("\"" + a) + "\n" + (b + "\"\n")
  {
  }

  /** So a string with a newline is not restored: what is left is read as lines of its own. */
  lemma NewlineSplits(name: string, a: string, b: string)
    ensures PrintSymbol(name, Text, Chars(a + "\n" + b))
         == CONFIG + name + "=" + ("\"" + Escaped(a)) + "\n" + (Escaped(b) + "\"\n")
  {
    EscapedLast(a, '\n');
    EscapedAppend(a + "\n", b);
    QuoteAcross(CONFIG + name + "=", Escaped(a), Escaped(b));
  }

  datatype Entry = Entry(name: string, v: Val)

  function PrintAll(entries: seq<Entry>, kinds: Kinds): string
    requires forall e | e in entries :: e.name in kinds
  {
    if entries == [] then ""
    else PrintSymbol(entries[0].name, kinds[entries[0].name], entries[0].v) + PrintAll(entries[1..], kinds)
  }

  lemma {:induction false} PrintAllAppend(a: seq<Entry>, b: seq<Entry>, kinds: Kinds)
    requires forall e | e in a + b :: e.name in kinds
    ensures (forall e | e in a :: e in a + b) && (forall e | e in b :: e in a + b)
    ensures PrintAll(a + b, kinds) == PrintAll(a, kinds) + PrintAll(b, kinds)
    decreases |a|
  {
    if a == [] {
      assert a + b == b;
    } else {
      var e := (a + b)[0];
      assert e == a[0] && (a + b)[1..] == a[1..] + b;
      PrintAllAppend(a[1..], b, kinds);
      var first := PrintSymbol(e.name, kinds[e.name], e.v);
      assert PrintAll(a + b, kinds) == first + (PrintAll(a[1..], kinds) + PrintAll(b, kinds));
    }
  }

  function AsDefs(defs: Defs, entries: seq<Entry>): Defs
    decreases |entries|
  {
    if entries == [] then defs else AsDefs(defs[entries[0].name := entries[0].v], entries[1..])
  }

  /** Everything that was printed reads back. */
  lemma {:induction false} FileReadsBack(defs: Defs, kinds: Kinds, entries: seq<Entry>)
    requires forall e | e in entries ::
               e.name in kinds && IsSymName(e.name) && Suits(kinds[e.name], e.v) && OneLine(e.v)
    ensures ReadFile(defs, kinds, PrintAll(entries, kinds)) == AsDefs(defs, entries)
    decreases |entries|
  {
    if entries != [] {
      var e := entries[0];
      SymbolReadsBack(defs, kinds, e.name, e.v, PrintAll(entries[1..], kinds));
      FileReadsBack(defs[e.name := e.v], kinds, entries[1..]);
    }
  }

  // ---------------------------------------------------------------- what cannot be read

  ghost predicate AllOneLine(defs: Defs) {
    forall name :: name in defs ==> OneLine(defs[name])
  }

  lemma {:induction false} UnescapedNewlines(s: string)
    requires '\n' !in s
    ensures Unescape(s).Some? ==> '\n' !in Unescape(s).value
    decreases |s|
  {
    if s != "" && s[0] == '\\' && |s| > 1 {
      UnescapedNewlines(s[2..]);
    } else if s != "" {
      UnescapedNewlines(s[1..]);
    }
  }

  /** Whatever the text after "=", a symbol never gets a value of several lines. */
  lemma AssignedOneLine(kind: Kind, t: string)
    ensures var r := Assigned(kind, CutEol(t)); r.Set? ==> OneLine(r.v)
  {
    var p := CutEol(t);
    FindIs(t, '\n');
    assert '\n' !in p;
    if kind.Text? && p != "" {
      UnescapedNewlines(p[1..]);
    }
  }

  lemma ReadLineOneLine(defs: Defs, kinds: Kinds, line: string)
    requires AllOneLine(defs)
    ensures AllOneLine(ReadLine(defs, kinds, line))
  {
    var p := ParseLine(line);
    if p.Assign? && p.name in kinds {
      var k := Find(line[7..], '=').value;
      assert p.text == CutEol(line[7 + k + 1..]);
      AssignedOneLine(kinds[p.name], line[7 + k + 1..]);
    }
  }

  lemma {:induction false} ReadFileOneLine(defs: Defs, kinds: Kinds, file: string)
    requires AllOneLine(defs)
    ensures AllOneLine(ReadFile(defs, kinds, file))
    decreases |file|
  {
    if file != "" {
      var n := LineLength(file);
      ReadLineOneLine(defs, kinds, file[..n]);
      ReadFileOneLine(ReadLine(defs, kinds, file[..n]), kinds, file[n..]);
    }
  }

  /** A symbol printed and read back has its value again if and only if the value spans one
      line. */
  lemma RestoredIff(kinds: Kinds, name: string, v: Val)
    requires IsSymName(name) && name in kinds && Suits(kinds[name], v)
    ensures var d := ReadFile(map[], kinds, PrintSymbol(name, kinds[name], v));
            (name in d && d[name] == v) <==> OneLine(v)
  {
    var text := PrintSymbol(name, kinds[name], v);
    ReadFileOneLine(map[], kinds, text);
    if OneLine(v) {
      SymbolReadsBack(map[], kinds, name, v, "");
      assert text + "" == text;
    }
  }

  lemma NewlineLost()
    ensures var d := ReadFile(map[], map["A" := Text], PrintSymbol("A", Text, Chars("\n")));
            !("A" in d && d["A"] == Chars("\n"))
  {
    assert "\n"[0] == '\n';
    RestoredIff(map["A" := Text], "A", Chars("\n"));
  }

  ghost predicate DistinctNames(entries: seq<Entry>) {
    forall i, j :: 0 <= i < j < |entries| ==> entries[i].name != entries[j].name
  }

  lemma {:induction false} AsDefsKeeps(defs: Defs, entries: seq<Entry>, name: string)
    requires forall e | e in entries :: e.name != name
    ensures name in AsDefs(defs, entries) <==> name in defs
    ensures name in defs ==> AsDefs(defs, entries)[name] == defs[name]
    decreases |entries|
  {
    if entries != [] {
      AsDefsKeeps(defs[entries[0].name := entries[0].v], entries[1..], name);
    }
  }

  /** Each entry is there, if no two have the same name. */
  lemma {:induction false} AsDefsHolds(defs: Defs, entries: seq<Entry>, e: Entry)
    requires DistinctNames(entries) && e in entries
    ensures e.name in AsDefs(defs, entries) && AsDefs(defs, entries)[e.name] == e.v
    decreases |entries|
  {
    var more := defs[entries[0].name := entries[0].v];
    if e == entries[0] {
      AsDefsKeeps(more, entries[1..], e.name);
    } else {
      AsDefsHolds(more, entries[1..], e);
    }
  }

  /** A whole configuration comes back if and only if every value in it spans one line. */
  lemma FileRestoredIff(kinds: Kinds, entries: seq<Entry>)
    requires DistinctNames(entries)
    requires forall e | e in entries :: e.name in kinds && IsSymName(e.name) && Suits(kinds[e.name], e.v)
    ensures var d := ReadFile(map[], kinds, PrintAll(entries, kinds));
            (forall e | e in entries :: e.name in d && d[e.name] == e.v)
            <==> (forall e | e in entries :: OneLine(e.v))
  {
    ReadFileOneLine(map[], kinds, PrintAll(entries, kinds));
    if forall e | e in entries :: OneLine(e.v) {
      FileReadsBack(map[], kinds, entries);
      forall e | e in entries
        ensures e.name in AsDefs(map[], entries) && AsDefs(map[], entries)[e.name] == e.v
      {
        AsDefsHolds(map[], entries, e);
      }
    }
  }

  // ---------------------------------------------------------------- the program's form

  /** strdup */
  method Strdup(buf: array<char>, p: nat, ghost end: nat) returns (s: string)
    requires StringAt(buf[..], p, end)
    ensures s == buf[p..end]
  {
    s := "";
    var i := p;
    while buf[i] != NUL
      invariant p <= i <= end && s == buf[p..i]
      decreases end - i
    {
      s := s + [buf[i]];
      i := i + 1;
    }
  }

  function AssignedChar(c: char): Outcome {
    if c == 'y' then Set(Truth(K.YES)) else if c == 'n' then Set(Truth(K.NO)) else Refused
  }

  /** conf_set_sym_val, on a line held in a buffer: a quoted string is unescaped there. */
  method SetSymVal(kind: Kind, buf: array<char>, p: nat, ghost end: nat) returns (r: Outcome)
    requires StringAt(buf[..], p, end)
    modifies buf
    ensures r == Assigned(kind, old(buf[p..end]))
  {
    ghost var text := buf[p..end];
    assert buf[p] == NUL <==> text == "";
    if kind.Tristate? && buf[p] == 'm' { return Set(Truth(K.MOD)); }
    match kind {
      case Boolean => r := AssignedChar(buf[p]);
      case Tristate => r := AssignedChar(buf[p]);
      case Text =>
        if buf[p] != '"' { return Kept; }
        assert buf[p + 1..end] == text[1..];
        var ok, stop := UnescapeInPlace(buf, p + 1, end);
        if !ok { return Refused; }
        var s := Strdup(buf, p + 1, stop);
        r := Set(Chars(s));
      case Int =>
        var s := Strdup(buf, p, end);
        r := if ValidInt(s) then Set(Chars(s)) else Refused;
      case Hex =>
        var s := Strdup(buf, p, end);
        r := if ValidHex(s) then Set(Chars(s)) else Refused;
    }
  }

  class Reader {
    const kinds: Kinds
    /** def[S_DEF_USER], for the symbols that have the SYMBOL_DEF_USER flag. */
    var defs: Defs

    constructor (kinds: Kinds)
      ensures this.kinds == kinds && defs == map[]
    {
      this.kinds, defs := kinds, map[];
    }

    /** The body of the loop of conf_read_simple. */
    method TakeLine(line: string)
      requires NUL !in line
      modifies this
      ensures defs == ReadLine(old(defs), kinds, line)
    {
      match ParseLine(line) {
        case Nothing =>
        case NotSet(name) =>
          if name in kinds && (kinds[name].Boolean? || kinds[name].Tristate?) {
            defs := defs[name := Truth(K.NO)];
          }
        case Assign(name, text) =>
          if name in kinds {
            assert NUL !in text;
            var buf := new char[|text| + 1](i requires 0 <= i <= |text| => if i < |text| then text[i] else NUL);
            assert buf[..|text|] == text;
            var r := SetSymVal(kinds[name], buf, 0, |text|);
            if r.Set? {
              defs := defs[name := r.v];
            }
          }
      }
    }

    /** conf_read_simple: after the earlier values were cleared, line by line. */
    method ReadConf(file: string)
      requires NUL !in file
      modifies this
      ensures defs == ReadFile(map[], kinds, file)
    {
      defs := map[];
      var rest := file;
      while rest != ""
        invariant NUL !in rest && ReadFile(map[], kinds, file) == ReadFile(defs, kinds, rest)
        decreases |rest|
      {
        var n := LineLength(rest);
        TakeLine(rest[..n]);
        rest := rest[n..];
      }
    }

    /** What a printed configuration held is what the symbols have once it is read. */
    method Restore(entries: seq<Entry>)
      requires forall e | e in entries ::
                 e.name in kinds && IsSymName(e.name) && Suits(kinds[e.name], e.v) && OneLine(e.v)
      requires NUL !in PrintAll(entries, kinds)
      modifies this
      ensures defs == AsDefs(map[], entries)
    {
      FileReadsBack(map[], kinds, entries);
      ReadConf(PrintAll(entries, kinds));
    }
  }
}
