/** Lines of a .config file: how values are printed, escaped, read back and unescaped
    (scripts/kconfig/confdata.c and symbol.c).  Strings hold no NUL. */
module ConfLine {
  import opened Basics
  import K = KconfigExpr

  datatype Kind = Boolean | Tristate | Int | Hex | Text

  datatype Val = Truth(t: K.Tri) | Chars(s: string)

  /** What reading a value did: gave the symbol the value, or left it alone, or warned. */
  datatype Outcome = Set(v: Val) | Kept | Refused

  const NUL := '\0'
  const CONFIG := "CONFIG_"

  predicate Special(c: char) { c == '"' || c == '\\' }

  // ---------------------------------------------------------------- escapes

  function Escaped(s: string): string {
    if s == "" then ""
    else (if Special(s[0]) then ['\\', s[0]] else [s[0]]) + Escaped(s[1..])
  }

  /** sym_escape_string_value, as a string */
  function Escape(s: string): string { "\"" + Escaped(s) + "\"" }

  function Before(c: char, s: Option<string>): Option<string> {
    match s
    case None => None
    case Some(t) => Some([c] + t)
  }

  /** What a quoted string stands for, from after its first quote; none if it never ends. */
  function Unescape(s: string): Option<string> {
    if s == "" then None
    else if s[0] == '"' then Some("")
    else if s[0] == '\\' then if |s| == 1 then None else Before(s[1], Unescape(s[2..]))
    else Before(s[0], Unescape(s[1..]))
  }

  /** Unescaping undoes escaping, and looks at nothing after the closing quote. */
  lemma {:induction false} UnescapeEscaped(s: string, rest: string)
    ensures Unescape(Escaped(s) + "\"" + rest) == Some(s)
  {
    if s != "" {
      UnescapeEscaped(s[1..], rest);
      var e := Escaped(s) + "\"" + rest;
      var e' := Escaped(s[1..]) + "\"" + rest;
      if Special(s[0]) {
        assert e == ['\\', s[0]] + e' && e[2..] == e';
      } else {
        assert e == [s[0]] + e' && e[1..] == e';
      }
      assert [s[0]] + s[1..] == s;
    }
  }

  /** What is escaped holds no closing quote. */
  lemma {:induction false} UnescapeOpen(s: string)
    ensures Unescape(Escaped(s)) == None
  {
    if s != "" {
      UnescapeOpen(s[1..]);
      assert Escaped(s)[if Special(s[0]) then 2 else 1..] == Escaped(s[1..]);
    }
  }

  lemma {:induction false} EscapedAppend(s: string, t: string)
    ensures Escaped(s + t) == Escaped(s) + Escaped(t)
    decreases |s|
  {
    if s == "" {
      assert s + t == t;
    } else {
      assert (s + t)[1..] == s[1..] + t;
      EscapedAppend(s[1..], t);
    }
  }

  lemma {:induction false} EscapedPlain(s: string)
    requires forall i :: 0 <= i < |s| ==> !Special(s[i])
    ensures Escaped(s) == s
  {
    if s != "" {
      EscapedPlain(s[1..]);
    }
  }

  /** A quote and a backslash get a backslash; together with the two lemmas before, this says what
      is escaped and what is not. */
  lemma EscapedMarks()
    ensures Escaped("\"") == "\\\"" && Escaped("\\") == "\\\\"
  {
    assert "\""[1..] == "" && "\\"[1..] == "";
  }

  /** strcspn(s + p, "\"\\") */
  method Strcspn(s: string, p: nat) returns (l: nat)
    requires p <= |s|
    ensures p + l <= |s| && (p + l < |s| ==> Special(s[p + l]))
    ensures Escaped(s[..p + l]) == Escaped(s[..p]) + s[p..p + l]
  {
    l := 0;
    while p + l < |s| && !Special(s[p + l])
      invariant p + l <= |s| && forall i :: p <= i < p + l ==> !Special(s[i])
    {
      l := l + 1;
    }
    EscapedAppend(s[..p], s[p..p + l]);
    EscapedPlain(s[p..p + l]);
    assert s[..p + l] == s[..p] + s[p..p + l];
  }

  lemma EscapedOne(s: string, p: nat)
    requires p < |s| && Special(s[p])
    ensures Escaped(s[..p + 1]) == Escaped(s[..p]) + ['\\', s[p]]
  {
    EscapedAppend(s[..p], [s[p]]);
    assert s[..p + 1] == s[..p] + [s[p]];
    assert [s[p]][1..] == "";
  }

  /** The first pass of sym_escape_string_value: how long the buffer must be. */
  method EscapedLength(s: string) returns (reslen: nat)
    ensures reslen == |Escape(s)| + 1
  {
    reslen := |s| + 2 + 1;
    var p := 0;
    while true
      invariant p <= |s| && reslen == |s| + 3 + |Escaped(s[..p])| - p
      decreases |s| - p
    {
      var l := Strcspn(s, p);
      p := p + l;
      if p == |s| { break; }
      EscapedOne(s, p);
      reslen, p := reslen + 1, p + 1;
    }
    assert s[..|s|] == s;
  }

  lemma {:induction false} EscapedGrows(s: string, t: string)
    ensures |Escaped(s)| <= |Escaped(s + t)|
  {
    EscapedAppend(s, t);
  }

  /** The first p characters of s have been escaped into the first n places. */
  ghost predicate Filled(res: seq<char>, s: string, n: nat, p: nat) {
    && p <= |s| && |res| == |Escape(s)| + 1 && n + 1 < |res|
    && res[..n] == "\"" + Escaped(s[..p])
    && forall i :: n <= i < |res| ==> res[i] == NUL
  }

  /** Escaping some more characters leaves room for the closing quote and the NUL. */
  lemma FillMore(res: seq<char>, s: string, n: nat, p: nat, p': nat, t: string)
    requires Filled(res, s, n, p) && p <= p' <= |s| && Escaped(s[..p']) == Escaped(s[..p]) + t
    ensures n + |t| + 1 < |res|
    ensures Filled(res[..n] + t + res[n + |t|..], s, n + |t|, p')
  {
    EscapedGrows(s[..p'], s[p'..]);
    assert s[..p'] + s[p'..] == s;
    var new_ := res[..n] + t + res[n + |t|..];
    assert new_[..n + |t|] == res[..n] + t;
  }

  lemma LastPlace(res: seq<char>, s: string, n: nat)
    requires Filled(res, s, n, |s|)
    ensures n + 2 == |res| && res[n := '"'] == Escape(s) + [NUL]
  {
    assert s[..|s|] == s;
    assert res == res[..n] + [res[n], res[n + 1]];
  }

  /** Write some characters at a place in a buffer. */
  method Strncat(res: array<char>, n: nat, s: string)
    requires n + |s| <= res.Length
    modifies res
    ensures res[..] == old(res[..n]) + s + old(res[n + |s|..])
  {
    for i := 0 to |s|
      invariant forall j :: 0 <= j < i ==> res[n + j] == s[j]
      invariant forall j :: (0 <= j < n || n + i <= j < res.Length) ==> res[j] == old(res[j])
    {
      res[n + i] := s[i];
    }
  }

  /** Write what the characters from p to before q become when they are escaped. */
  method Fill(res: array<char>, n: nat, t: string, ghost s: string, ghost p: nat, ghost q: nat)
    requires Filled(res[..], s, n, p) && p <= q <= |s| && Escaped(s[..q]) == Escaped(s[..p]) + t
    modifies res
    ensures Filled(res[..], s, n + |t|, q)
  {
    FillMore(res[..], s, n, p, q, t);
    Strncat(res, n, t);
  }

  /** sym_escape_string_value: the buffer is filled to its last place. */
  method EscapeString(s: string) returns (res: array<char>)
    ensures fresh(res) && res[..] == Escape(s) + [NUL]
  {
    var reslen := EscapedLength(s);
    res := new char[reslen](_ => NUL);
    res[0] := '"';
    var n: nat, p: nat := 1, 0;
    assert res[..1] == "\"" + Escaped(s[..0]);
    while true
      invariant Filled(res[..], s, n, p)
      decreases |s| - p
    {
      var l := Strcspn(s, p);
      Fill(res, n, s[p..p + l], s, p, p + l);
      n, p := n + l, p + l;
      if p == |s| { break; }
      EscapedOne(s, p);
      Fill(res, n, ['\\', s[p]], s, p, p + 1);
      n, p := n + 2, p + 1;
    }
    assert s[..|s|] == s;
    LastPlace(res[..], s, n);
    res[n] := '"';
  }

  // ---------------------------------------------------------------- unescaping in place

  /** The characters from p up to the NUL at end. */
  ghost predicate StringAt(buf: seq<char>, p: nat, end: nat) {
    p <= end < |buf| && buf[end] == NUL && forall i :: p <= i < end ==> buf[i] != NUL
  }

  /** strpbrk(buf + p, "\"\\") */
  method Strpbrk(buf: array<char>, p: nat, ghost end: nat) returns (r: Option<nat>)
    requires StringAt(buf[..], p, end)
    ensures match r
      case None => forall i :: p <= i < end ==> !Special(buf[i])
      case Some(q) => p <= q < end && Special(buf[q]) && forall i :: p <= i < q ==> !Special(buf[i])
  {
    var q := p;
    while buf[q] != NUL
      invariant p <= q <= end && forall i :: p <= i < q ==> !Special(buf[i])
      decreases end - q
    {
      if Special(buf[q]) { return Some(q); }
      q := q + 1;
    }
    r := None;
  }

  /** memmove(buf + p, buf + p + 1, strlen(buf + p)) */
  method DropChar(buf: array<char>, p: nat, ghost end: nat)
    requires p < end && StringAt(buf[..], p, end)
    modifies buf
    ensures buf[..] == old(buf[..p]) + old(buf[p + 1..end + 1]) + old(buf[end..])
  {
    var i := p;
    while buf[i] != NUL
      invariant p <= i <= end
      invariant forall j :: p <= j < i ==> buf[j] == old(buf[j + 1])
      invariant forall j :: (0 <= j < p || i <= j < buf.Length) ==> buf[j] == old(buf[j])
      decreases end - i
    {
      buf[i] := buf[i + 1];
      i := i + 1;
    }
  }

  function Prefixed(a: string, s: Option<string>): Option<string> {
    match s
    case None => None
    case Some(t) => Some(a + t)
  }

  lemma PrefixedTwice(a: string, b: string, s: Option<string>)
    ensures Prefixed(a, Prefixed(b, s)) == Prefixed(a + b, s)
  {
    if s.Some? {
      assert a + (b + s.value) == a + b + s.value;
    }
  }

  lemma {:induction false} UnescapeRun(s: string, n: nat)
    requires n <= |s| && forall i :: 0 <= i < n ==> !Special(s[i])
    ensures Unescape(s) == Prefixed(s[..n], Unescape(s[n..]))
    decreases n
  {
    if n == 0 {
      assert s[0..] == s;
      if Unescape(s).Some? {
        assert s[..0] + Unescape(s).value == Unescape(s).value;
      }
    } else {
      UnescapeRun(s[1..], n - 1);
      assert s[1..][n - 1..] == s[n..] && [s[0]] + s[1..][..n - 1] == s[..n];
      PrefixedTwice([s[0]], s[1..][..n - 1], Unescape(s[n..]));
    }
  }

  /** The characters from p to at are what the text so far stands for; those from at to the NUL
      at end are still to be unescaped. */
  ghost predicate Undone(b: seq<char>, p: nat, at: nat, end: nat, text: string) {
    && p <= at && StringAt(b, at, end)
    && Unescape(text) == Prefixed(b[p..at], Unescape(b[at..end]))
    && (Unescape(text).Some? ==> forall i :: p <= i < at ==> b[i] != NUL)
  }

  /** Passing over characters that stand for themselves. */
  lemma PassOver(b: seq<char>, p: nat, at: nat, q: nat, end: nat, text: string)
    requires Undone(b, p, at, end, text) && at <= q <= end && forall i :: at <= i < q ==> !Special(b[i])
    ensures Undone(b, p, q, end, text)
  {
    var s := b[at..end];
    UnescapeRun(s, q - at);
    assert s[..q - at] == b[at..q] && s[q - at..] == b[q..end] && b[p..at] + b[at..q] == b[p..q];
    PrefixedTwice(b[p..at], b[at..q], Unescape(b[q..end]));
  }

  /** Dropping a backslash and passing over what follows it. */
  lemma DropBackslash(b: seq<char>, p: nat, q: nat, end: nat, text: string, b': seq<char>)
    requires Undone(b, p, q, end, text) && q < end && b[q] == '\\'
    requires b' == b[..q] + b[q + 1..end + 1] + b[end..]
    ensures Undone(b', p, q + 1, if q + 1 == end then end else end - 1, text)
  {
    var s := b[q..end];
    assert b'[p..q] == b[p..q];
    if q + 1 == end {
      assert s == ['\\'];
      assert b'[q + 1] == NUL;
    } else {
      assert s[1] == b[q + 1] && s[2..] == b[q + 2..end];
      assert forall i :: q <= i < end ==> b'[i] == b[i + 1];
      assert b'[q + 1..end - 1] == b[q + 2..end] && b'[end - 1] == NUL;
      assert b'[p..q + 1] == b[p..q] + [b[q + 1]];
      PrefixedTwice(b[p..q], [b[q + 1]], Unescape(s[2..]));
    }
  }

  /** The quote that ends the string is overwritten by a NUL. */
  lemma CloseQuote(b: seq<char>, p: nat, q: nat, end: nat, text: string)
    requires Undone(b, p, q, end, text) && q < end && b[q] == '"'
    ensures Unescape(text) == Some(b[p..q]) && StringAt(b[q := NUL], p, q)
  {
    assert b[q..end][0] == '"';
    assert b[p..q] + "" == b[p..q];
  }

  /** The loop of conf_set_sym_val over a quoted string, from after its first quote: the string
      it stands for takes its place. */
  method UnescapeInPlace(buf: array<char>, p: nat, ghost end0: nat) returns (ok: bool, ghost stop: nat)
    requires StringAt(buf[..], p, end0)
    modifies buf
    ensures ok <==> Unescape(old(buf[p..end0])).Some?
    ensures ok ==> StringAt(buf[..], p, stop) && Some(buf[p..stop]) == Unescape(old(buf[p..end0]))
  {
    ghost var text, end := buf[p..end0], end0;
    var p2 := p;
    UnescapeRun(text, 0);
    assert buf[p..p] == text[..0] && text[0..] == text;
    while true
      invariant Undone(buf[..], p, p2, end, text)
      decreases end - p2
    {
      var r := Strpbrk(buf, p2, end);
      if r == None {
        PassOver(buf[..], p, p2, end, end, text);
        return false, end;
      }
      PassOver(buf[..], p, p2, r.value, end, text);
      p2 := r.value;
      if buf[p2] == '"' {
        CloseQuote(buf[..], p, p2, end, text);
        buf[p2] := NUL;
        return true, p2;
      }
      ghost var b := buf[..];
      DropChar(buf, p2, end);
      DropBackslash(b, p, p2, end, text, buf[..]);
      end := if p2 + 1 == end then end else end - 1;
      p2 := p2 + 1;
    }
  }
}
