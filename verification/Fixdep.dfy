/** The search for configuration symbols in a source file, and the hash table that lists each
    of them once (scripts/basic/fixdep.c).  A file is its bytes; names are ASCII. */
module Fixdep {
  import opened Basics

  const PREFIX := "CONFIG_"
  const SUFFIX := "_MODULE"

  // ---------------------------------------------------------------- what is to be found

  predicate Occurs(file: string, p: nat) {
    p + 7 <= |file| && file[p..p + 7] == PREFIX
  }

  /** Where the name that begins at q ends, unless the file ends first. */
  function NameEnd(file: string, q: nat): (r: Option<nat>)
    requires q <= |file|
    ensures r.Some? ==> q <= r.value < |file|
    decreases |file| - q
  {
    if q == |file| then None else if !IsNameChar(file[q]) then Some(q) else NameEnd(file, q + 1)
  }

  /** All of a string from lo to hi may be in a name. */
  predicate IsName(file: string, lo: nat, hi: nat)
    requires lo <= hi <= |file|
  {
    forall i :: lo <= i < hi ==> IsNameChar(file[i])
  }

  lemma {:induction false} NameEndIs(file: string, q: nat, r: nat)
    requires q <= r < |file|
    ensures NameEnd(file, q) == Some(r) <==> IsName(file, q, r) && !IsNameChar(file[r])
    decreases |file| - q
  {
    if q < r && IsNameChar(file[q]) {
      NameEndIs(file, q + 1, r);
    } else if IsNameChar(file[q]) {
      assert NameEnd(file, q) != Some(r);
    }
  }

  /** The symbol that a name stands for: itself, less a "_MODULE" at the end.  Nothing is left
      of the name "MODULE", whose suffix begins in the prefix. */
  function Stripped(name: string): Option<string> {
    if name == SUFFIX[1..] then None
    else if |name| >= 7 && name[|name| - 7..] == SUFFIX then Some(name[..|name| - 7])
    else Some(name)
  }

  /** A final "_MODULE" is removed, whatever it follows; other names are left alone. */
  lemma SuffixRemoved(name: string)
    ensures Stripped(name + "_MODULE") == Some(name)
    ensures name != "MODULE" && (|name| < 7 || name[|name| - 7..] != "_MODULE") ==> Stripped(name) == Some(name)
  {
    assert SUFFIX == "_MODULE" && SUFFIX[1..] == "MODULE";
    var longer := name + "_MODULE";
    assert |longer| > |"MODULE"| && longer[..|name|] == name && longer[|name|..] == "_MODULE";
  }

  /** The symbol used at a place in the file, if any. */
  function UsedAt(file: string, p: nat): Option<string> {
    if !Occurs(file, p) then None
    else match NameEnd(file, p + 7)
      case None => None
      case Some(q) => Stripped(file[p + 7..q])
  }

  /** The values that are there, in order. */
  function Somes<T>(s: seq<Option<T>>): seq<T> {
    if s == [] then []
    else Somes(s[..|s| - 1]) + match s[|s| - 1] { case None => [] case Some(x) => [x] }
  }

  lemma SomesOne<T>(x: Option<T>)
    ensures Somes([x]) == if x.None? then [] else [x.value]
  {
    assert [x][..0] == [];
  }

  lemma {:induction false} SomesContains<T>(s: seq<Option<T>>, x: T)
    ensures x in Somes(s) <==> Some(x) in s
  {
    if s != [] {
      SomesContains(s[..|s| - 1], x);
      assert s == s[..|s| - 1] + [s[|s| - 1]];
    }
  }

  lemma {:induction false} SomesAppend<T>(s: seq<Option<T>>, t: seq<Option<T>>)
    ensures Somes(s + t) == Somes(s) + Somes(t)
    decreases |t|
  {
    if t == [] {
      assert s + t == s;
    } else {
      assert (s + t)[..|s + t| - 1] == s + t[..|t| - 1];
      SomesAppend(s, t[..|t| - 1]);
    }
  }

  /** What is used at each place from the second byte of the file to the n-th. */
  function UsedUpTo(file: string, n: nat): (r: seq<Option<string>>)
    ensures |r| == n
  {
    seq(n, i requires 0 <= i < n => UsedAt(file, i + 1))
  }

  /** The symbols used in a file, once for each place that uses one, in order.  The scan starts
      at the second word, and so misses what is at the very beginning. */
  function Uses(file: string): seq<string> {
    Somes(UsedUpTo(file, |file|))
  }

  /** A name, delimited, after a prefix. */
  ghost predicate NameAt(file: string, p: nat, q: nat) {
    Occurs(file, p) && p + 7 <= q < |file| && IsName(file, p + 7, q) && !IsNameChar(file[q])
  }

  lemma UsedAtMeans(file: string, p: nat, name: string)
    ensures UsedAt(file, p) == Some(name) <==>
            (exists q: nat :: NameAt(file, p, q) && Stripped(file[p + 7..q]) == Some(name))
  {
    if UsedAt(file, p) == Some(name) {
      var q := NameEnd(file, p + 7).value;
      NameEndIs(file, p + 7, q);
      assert NameAt(file, p, q) && Stripped(file[p + 7..q]) == Some(name);
    }
    if q: nat :| NameAt(file, p, q) && Stripped(file[p + 7..q]) == Some(name) {
      NameEndIs(file, p + 7, q);
    }
  }

  lemma UsedInside(file: string, p: nat, name: string)
    requires 1 <= p <= |file| && UsedAt(file, p) == Some(name)
    ensures name in Uses(file)
  {
    assert UsedUpTo(file, |file|)[p - 1] == Some(name);
    SomesContains(UsedUpTo(file, |file|), name);
  }

  lemma UsedSomewhere(file: string, name: string) returns (p: nat)
    requires name in Uses(file)
    ensures 1 <= p <= |file| && UsedAt(file, p) == Some(name)
  {
    var r := UsedUpTo(file, |file|);
    SomesContains(r, name);
    var i :| 0 <= i < |r| && r[i] == Some(name);
    p := i + 1;
  }

  /** A symbol is used exactly if its prefix occurs after the first byte, followed by a name that
      ends before the file does and from which it is left when a final "_MODULE" is removed. */
  lemma UsesContains(file: string, name: string)
    ensures name in Uses(file) <==>
            (exists p: nat, q: nat :: 0 < p && NameAt(file, p, q) && Stripped(file[p + 7..q]) == Some(name))
  {
    if name in Uses(file) {
      var p := UsedSomewhere(file, name);
      UsedAtMeans(file, p, name);
    }
    if p: nat, q: nat :| 0 < p && NameAt(file, p, q) && Stripped(file[p + 7..q]) == Some(name) {
      UsedAtMeans(file, p, name);
      UsedInside(file, p, name);
    }
  }

  // ---------------------------------------------------------------- each symbol once

  /** The symbols listed after some more are used. */
  function Listed(before: seq<string>, uses: seq<string>): seq<string>
    decreases |uses|
  {
    if uses == [] then before
    else
      var l := Listed(before, uses[..|uses| - 1]);
      var n := uses[|uses| - 1];
      if n in l then l else l + [n]
  }

  predicate Distinct(s: seq<string>) {
    forall i, j :: 0 <= i < j < |s| ==> s[i] != s[j]
  }

  /** Everything used is listed, and nothing else, each symbol once. */
  lemma {:induction false} ListedOnce(before: seq<string>, uses: seq<string>)
    requires Distinct(before)
    ensures Distinct(Listed(before, uses)) && before <= Listed(before, uses)
    ensures forall n :: n in Listed(before, uses) <==> n in before || n in uses
    decreases |uses|
  {
    if uses != [] {
      ListedOnce(before, uses[..|uses| - 1]);
      assert uses == uses[..|uses| - 1] + [uses[|uses| - 1]];
    }
  }

  /** They are listed in order of first use. */
  lemma {:induction false} ListedInOrder(uses: seq<string>)
    ensures InOrderOf(Listed([], uses), uses)
    decreases |uses|
  {
    if uses != [] {
      var before, n := uses[..|uses| - 1], uses[|uses| - 1];
      assert uses == before + [n];
      ListedInOrder(before);
      ListedOnce([], before);
      InOrderMore(Listed([], before), before, n);
    }
  }

  lemma {:induction false} ListedAppend(before: seq<string>, a: seq<string>, b: seq<string>)
    ensures Listed(before, a + b) == Listed(Listed(before, a), b)
    decreases |b|
  {
    if b == [] {
      assert a + b == a;
    } else {
      assert (a + b)[..|a + b| - 1] == a + b[..|b| - 1];
      ListedAppend(before, a, b[..|b| - 1]);
    }
  }

  // ---------------------------------------------------------------- words

  /** The bytes after the end of the file are zero. */
  function ByteAt(file: string, i: nat): char {
    if i < |file| then file[i] else '\0'
  }

  function Word(file: string, m: nat): (w: string)
    ensures |w| == 4
  {
    [ByteAt(file, 4 * m), ByteAt(file, 4 * m + 1), ByteAt(file, 4 * m + 2), ByteAt(file, 4 * m + 3)]
  }

  /** Where the prefix begins that would have this word in it. */
  function Candidate(file: string, m: nat): Option<nat>
    requires m > 0
  {
    var w := Word(file, m);
    if w == "CONF" then Some(4 * m)
    else if w == "ONFI" then Some(4 * m - 1)
    else if w == "NFIG" then Some(4 * m - 2)
    else if w == "FIG_" then Some(4 * m - 3)
    else None
  }

  /** One aligned word tells of the four places at which a prefix would have it. */
  lemma WordTells(file: string, m: nat, p: nat)
    requires m > 0 && 4 * m - 3 <= p <= 4 * m && Occurs(file, p)
    ensures Candidate(file, m) == Some(p)
  {
    var s := file[p..p + 7];
    var d := 4 * m - p;
    assert s[d] == file[4 * m] && s[d + 1] == file[4 * m + 1];
    assert s[d + 2] == file[4 * m + 2] && s[d + 3] == file[4 * m + 3];
    assert Word(file, m) == PREFIX[d..d + 4];
  }

  /** What is used at four more places. */
  function Next4(file: string, m: nat): seq<Option<string>>
    requires m > 0
  {
    [UsedAt(file, 4 * m - 3), UsedAt(file, 4 * m - 2), UsedAt(file, 4 * m - 1), UsedAt(file, 4 * m)]
  }

  lemma NotElsewhere(file: string, m: nat, p: nat)
    requires m > 0 && 4 * m - 3 <= p <= 4 * m
    ensures Candidate(file, m) == Some(p) || UsedAt(file, p) == None
  {
    if Occurs(file, p) {
      WordTells(file, m, p);
    }
  }

  lemma {:induction false} NothingUsed<T>(s: seq<Option<T>>)
    requires forall i :: 0 <= i < |s| ==> s[i] == None
    ensures Somes(s) == []
  {
    if s != [] {
      NothingUsed(s[..|s| - 1]);
    }
  }

  lemma {:induction false} OneUsed<T>(s: seq<Option<T>>, k: nat)
    requires k < |s| && forall i :: 0 <= i < |s| && i != k ==> s[i] == None
    ensures Somes(s) == Somes([s[k]])
  {
    var a, b := s[..k], s[k + 1..];
    assert s == a + [s[k]] + b;
    SomesAppend(a + [s[k]], b);
    SomesAppend(a, [s[k]]);
    NothingUsed(a);
    NothingUsed(b);
  }

  /** None of the four places but the candidate is one at which a symbol is used. */
  lemma OthersUnused(file: string, m: nat)
    requires m > 0
    ensures Candidate(file, m) == Some(4 * m - 3) || UsedAt(file, 4 * m - 3) == None
    ensures Candidate(file, m) == Some(4 * m - 2) || UsedAt(file, 4 * m - 2) == None
    ensures Candidate(file, m) == Some(4 * m - 1) || UsedAt(file, 4 * m - 1) == None
    ensures Candidate(file, m) == Some(4 * m) || UsedAt(file, 4 * m) == None
  {
    NotElsewhere(file, m, 4 * m - 3);
    NotElsewhere(file, m, 4 * m - 2);
    NotElsewhere(file, m, 4 * m - 1);
    NotElsewhere(file, m, 4 * m);
  }

  lemma OnlyCandidate<T>(next: seq<Option<T>>, c: Option<nat>, base: nat)
    requires |next| == 4 && (c.Some? ==> base <= c.value <= base + 3)
    requires c == Some(base) || next[0] == None
    requires c == Some(base + 1) || next[1] == None
    requires c == Some(base + 2) || next[2] == None
    requires c == Some(base + 3) || next[3] == None
    ensures Somes(next) == if c.None? then [] else Somes([next[c.value - base]])
  {
    match c
    case None => NothingUsed(next);
    case Some(p) => OneUsed(next, p - base);
  }

  lemma Next4At(file: string, m: nat, p: nat)
    requires m > 0 && 4 * m - 3 <= p <= 4 * m
    ensures Next4(file, m)[p - (4 * m - 3)] == UsedAt(file, p)
  {
  }

  /** At most the candidate is a place at which a symbol is used. */
  lemma Next4IsCandidate(file: string, m: nat)
    requires m > 0
    ensures var c := Candidate(file, m);
            Somes(Next4(file, m)) == if c.None? then [] else Somes([UsedAt(file, c.value)])
  {
    var next, c := Next4(file, m), Candidate(file, m);
    OthersUnused(file, m);
    assert next[0] == UsedAt(file, 4 * m - 3) && next[1] == UsedAt(file, 4 * m - 2);
    assert next[2] == UsedAt(file, 4 * m - 1) && next[3] == UsedAt(file, 4 * m);
    OnlyCandidate(next, c, 4 * m - 3);
    if c.Some? {
      Next4At(file, m, c.value);
    }
  }

  lemma OneMore(file: string, n: nat)
    ensures UsedUpTo(file, n + 1) == UsedUpTo(file, n) + [UsedAt(file, n + 1)]
  {
  }

  lemma FourMore(file: string, m: nat)
    requires m > 0
    ensures UsedUpTo(file, 4 * m) == UsedUpTo(file, 4 * m - 4) + Next4(file, m)
  {
    OneMore(file, 4 * m - 4);
    OneMore(file, 4 * m - 3);
    OneMore(file, 4 * m - 2);
    OneMore(file, 4 * m - 1);
  }

  /** No symbol is used where the prefix does not fit. */
  lemma UsesEnd(file: string, a: nat, b: nat)
    requires a <= b && |file| < a + 8
    ensures Somes(UsedUpTo(file, b)) == Somes(UsedUpTo(file, a))
  {
    var rest := UsedUpTo(file, b)[a..];
    assert UsedUpTo(file, b) == UsedUpTo(file, a) + rest;
    forall i | 0 <= i < |rest| ensures rest[i] == None {
      assert rest[i] == UsedUpTo(file, b)[a + i] && !Occurs(file, a + i + 1);
    }
    NothingUsed(rest);
    SomesAppend(UsedUpTo(file, a), rest);
  }

  /** The suffix may begin in the prefix only if the name is "MODULE". */
  lemma StrippedInPlace(file: string, p: nat, q: nat)
    requires Occurs(file, p) && p + 7 <= q < |file|
    ensures var end := if file[q - 7..q] == SUFFIX then q - 7 else q;
            && (end < p + 7 <==> Stripped(file[p + 7..q]) == None)
            && (p + 7 <= end ==> Stripped(file[p + 7..q]) == Some(file[p + 7..end]))
  {
    var name := file[p + 7..q];
    var last := file[q - 7..q];
    if |name| >= 7 {
      assert name[|name| - 7..] == last && name[..|name| - 7] == file[p + 7..q - 7];
    } else {
      assert forall i :: 0 <= i < |name| ==> last[7 - |name| + i] == name[i];
      assert last[6 - |name|] == file[p..p + 7][6] == '_';
      if last == SUFFIX {
        assert 6 - |name| == 0;
        assert name == SUFFIX[1..];
      }
      if name == SUFFIX[1..] {
        assert last == SUFFIX;
      }
    }
  }

  // ---------------------------------------------------------------- the hash table

  /** A chain of items; an item is never changed once it is in a chain. */
  datatype Chain = End | Item(len: nat, hash: bv32, name: string, next: Chain)

  function Mix(hash: bv32, c: char): bv32 {
    (hash ^ (c as int as bv32)) * 0x01000193
  }

  /** The hash of a string. */
  function Hash(s: string): bv32 {
    if s == [] then 2166136261 else Mix(Hash(s[..|s| - 1]), s[|s| - 1])
  }

  lemma HashNext(s: string, i: nat)
    requires i < |s|
    ensures Hash(s[..i + 1]) == Mix(Hash(s[..i]), s[i])
  {
    assert s[..i + 1][..i] == s[..i];
  }

  function Bucket(hash: bv32): (b: nat)
    ensures b < 256
  {
    (hash % 256) as nat
  }

  predicate Has(c: Chain, name: string) {
    c.Item? && (c.name == name || Has(c.next, name))
  }

  /** Each item knows the length and the hash of its name, and is in the right chain. */
  predicate Proper(c: Chain, b: nat) {
    c.Item? ==> c.len == |c.name| && c.hash == Hash(c.name) && Bucket(c.hash) == b && Proper(c.next, b)
  }

  function Lower(c: char): char {
    if 'A' <= c <= 'Z' then ((c as int) + 32) as char else c
  }

  /** The file that stands for a symbol. */
  function ConfigPath(name: string): string {
    seq(|name|, i requires 0 <= i < |name| => if name[i] == '_' then '/' else Lower(name[i]))
  }

  /** Letters become small, and an underscore separates directories. */
  lemma PathSpelled(name: string, i: nat)
    requires i < |name|
    ensures |ConfigPath(name)| == |name|
    ensures name[i] == '_' ==> ConfigPath(name)[i] == '/'
    ensures 'A' <= name[i] <= 'Z' ==> ConfigPath(name)[i] as int - 'a' as int == name[i] as int - 'A' as int
    ensures name[i] != '_' && !('A' <= name[i] <= 'Z') ==> ConfigPath(name)[i] == name[i]
  {
  }

  function AllUses(files: seq<string>): seq<string> {
    if files == [] then [] else AllUses(files[..|files| - 1]) + Uses(files[|files| - 1])
  }

  lemma {:induction false} AllUsesContains(files: seq<string>, n: string)
    ensures n in AllUses(files) <==> exists i :: 0 <= i < |files| && n in Uses(files[i])
  {
    if files != [] {
      AllUsesContains(files[..|files| - 1], n);
    }
  }

  lemma ListedFromAll(files: seq<string>)
    ensures var l := Listed([], AllUses(files));
            Distinct(l) && forall n :: n in l <==> exists i :: 0 <= i < |files| && n in Uses(files[i])
  {
    ListedOnce([], AllUses(files));
    forall n ensures n in AllUses(files) <==> exists i :: 0 <= i < |files| && n in Uses(files[i]) {
      AllUsesContains(files, n);
    }
  }

  lemma AllUsesNext(files: seq<string>, i: nat)
    requires i < |files|
    ensures AllUses(files[..i + 1]) == AllUses(files[..i]) + Uses(files[i])
  {
    assert files[..i + 1][..i] == files[..i];
  }

  /** What was printed since is one line for each symbol listed since. */
  ghost predicate Printed(output0: seq<string>, listed0: seq<string>, output: seq<string>, listed: seq<string>) {
    && |listed0| <= |listed| && listed[..|listed0|] == listed0
    && |output| - |output0| == |listed| - |listed0| && output0 <= output
    && forall i {:trigger listed[i]} :: |listed0| <= i < |listed| ==>
                                          output[i - |listed0| + |output0|] == ConfigPath(listed[i])
  }

  lemma PrintedMore(o0: seq<string>, l0: seq<string>, o1: seq<string>, l1: seq<string>,
                    o2: seq<string>, l2: seq<string>)
    requires Printed(o0, l0, o1, l1) && Printed(o1, l1, o2, l2)
    ensures Printed(o0, l0, o2, l2)
  {
    forall i | |l0| <= i < |l2| ensures o2[i - |l0| + |o0|] == ConfigPath(l2[i]) {
      if i < |l1| {
        assert l1[i] == l2[i];
      }
    }
    assert l2[..|l0|] == l2[..|l1|][..|l0|];
  }

  class Fixdep {
    const hashtab: array<Chain>
    /** What was printed: one line for each symbol. */
    var output: seq<string>
    /** The symbols listed so far. */
    ghost var listed: seq<string>

    ghost predicate Valid()
      reads this, hashtab
    {
      && hashtab.Length == 256
      && (forall b :: 0 <= b < 256 ==> Proper(hashtab[b], b))
      && (forall n :: n in listed <==> Has(hashtab[Bucket(Hash(n))], n))
    }

    constructor ()
      ensures Valid() && fresh(hashtab) && listed == [] && output == []
    {
      hashtab := new Chain[256](_ => End);
      output, listed := [], [];
    }

    /** strhash */
    method StrHash(s: string) returns (hash: bv32)
      ensures hash == Hash(s)
    {
      hash := 2166136261;
      for i := 0 to |s|
        invariant hash == Hash(s[..i])
      {
        HashNext(s, i);
        hash := Mix(hash, s[i]);
      }
      assert s[..|s|] == s;
    }

    /** is_defined_config */
    method IsDefinedConfig(name: string, hash: bv32) returns (found: bool)
      requires Valid() && hash == Hash(name)
      ensures found <==> name in listed
    {
      var aux := hashtab[Bucket(hash)];
      while aux.Item?
        invariant Proper(aux, Bucket(hash))
        invariant name in listed <==> Has(aux, name)
        decreases aux
      {
        if aux.hash == hash && aux.len == |name| && aux.name == name {
          return true;
        }
        aux := aux.next;
      }
      found := false;
    }

    /** define_config */
    method DefineConfig(name: string, hash: bv32)
      requires Valid() && hash == Hash(name)
      modifies this`listed, hashtab
      ensures Valid() && listed == old(listed) + [name]
    {
      hashtab[Bucket(hash)] := Item(|name|, hash, name, hashtab[Bucket(hash)]);
      listed := listed + [name];
    }

    /** clear_config */
    method ClearConfig()
      requires Valid()
      modifies this`listed, hashtab
      ensures Valid() && listed == []
    {
      for i := 0 to 256
        invariant hashtab.Length == 256
        invariant forall b :: 0 <= b < i ==> hashtab[b] == End
        invariant forall b :: i <= b < 256 ==> hashtab[b] == old(hashtab[b])
      {
        hashtab[i] := End;
      }
      listed := [];
    }

    method PrintConfig(name: string)
      modifies this`output
      ensures output == old(output) + [ConfigPath(name)]
    {
      var path := "";
      for i := 0 to |name|
        invariant path == ConfigPath(name)[..i]
      {
        path := path + [if name[i] == '_' then '/' else Lower(name[i])];
      }
      assert path == ConfigPath(name);
      output := output + [path];
    }

    lemma ListedOne(before: seq<string>, name: string)
      ensures Listed(before, [name]) == if name in before then before else before + [name]
    {
      assert [name][..0] == [];
    }

    /** use_config: a symbol is printed the first time it is used. */
    method UseConfig(name: string)
      requires Valid()
      modifies this, hashtab
      ensures Valid() && listed == Listed(old(listed), [name])
      ensures output == old(output) + if name in old(listed) then [] else [ConfigPath(name)]
    {
      ListedOne(listed, name);
      var hash := StrHash(name);
      var found := IsDefinedConfig(name, hash);
      if found { return; }
      DefineConfig(name, hash);
      PrintConfig(name);
    }

    /** The part of the loop body after a word was met that may be part of a prefix. */
    method FindConfig(file: string, p: nat) returns (name: Option<string>)
      ensures name == UsedAt(file, p)
    {
      if p > |file| - 7 { return None; }
      if file[p..p + 7] != PREFIX { return None; }
      var q := p + 7;
      while q < |file| && IsNameChar(file[q])
        invariant p + 7 <= q <= |file| && NameEnd(file, p + 7) == NameEnd(file, q)
      {
        q := q + 1;
      }
      if q == |file| { return None; }
      StrippedInPlace(file, p, q);
      if file[q - 7..q] == SUFFIX {
        q := q - 7;
      }
      if q - p - 7 < 0 { return None; }
      name := Some(file[p + 7..q]);
    }

    /** The body of the loop over the words. */
    method ScanWord(file: string, m: nat, ghost output0: seq<string>, ghost listed0: seq<string>)
      requires Valid() && m > 0 && Printed(output0, listed0, output, listed)
      modifies this, hashtab
      ensures Valid() && listed == Listed(old(listed), Somes(Next4(file, m)))
      ensures Printed(output0, listed0, output, listed)
    {
      Next4IsCandidate(file, m);
      var c := Candidate(file, m);
      if c.None? { return; }
      var use := FindConfig(file, c.value);
      SomesOne(use);
      if use.Some? {
        UseConfig(use.value);
      }
    }

    /** parse_config_file: the scan of aligned words finds what there is to be found. */
    method ParseConfigFile(file: string)
      requires Valid()
      modifies this, hashtab
      ensures Valid() && listed == Listed(old(listed), Uses(file))
      ensures Printed(old(output), old(listed), output, listed)
    {
      ghost var n := 0;
      var m := 1;
      while 4 * m < |file|
        invariant m >= 1 && Valid() && n == 4 * m - 4
        invariant listed == Listed(old(listed), Somes(UsedUpTo(file, n)))
        invariant Printed(old(output), old(listed), output, listed)
      {
        FourMore(file, m);
        SomesAppend(UsedUpTo(file, n), Next4(file, m));
        ListedAppend(old(listed), Somes(UsedUpTo(file, n)), Somes(Next4(file, m)));
        ScanWord(file, m, old(output), old(listed));
        m, n := m + 1, n + 4;
      }
      if |file| <= n {
        UsesEnd(file, |file|, n);
      } else {
        UsesEnd(file, n, |file|);
      }
    }

    /** All dependencies, after the table was cleared: each symbol that is used in any of them
        is listed once. */
    method ParseDependencies(files: seq<string>)
      requires Valid() && output == []
      modifies this, hashtab
      ensures Distinct(listed) && Printed([], [], output, listed)
      ensures forall n :: n in listed <==> exists i :: 0 <= i < |files| && n in Uses(files[i])
    {
      ClearConfig();
      for i := 0 to |files|
        invariant Valid() && listed == Listed([], AllUses(files[..i])) && Printed([], [], output, listed)
      {
        AllUsesNext(files, i);
        ListedAppend([], AllUses(files[..i]), Uses(files[i]));
        ghost var output1, listed1 := output, listed;
        ParseConfigFile(files[i]);
        PrintedMore([], [], output1, listed1, output, listed);
      }
      assert files[..|files|] == files;
      ListedFromAll(files);
    }
  }

  /** Of the names after a prefix only "MODULE" is passed over. */
  lemma OnlyModuleIsMissed(file: string, p: nat, q: nat)
    requires NameAt(file, p, q)
    ensures UsedAt(file, p) == None <==> file[p + 7..q] == "MODULE"
  {
    NameEndIs(file, p + 7, q);
  }

  lemma ModuleIsMissed()
    ensures NameAt(" CONFIG_MODULE ", 1, 14) && UsedAt(" CONFIG_MODULE ", 1) == None
  {
    var f := " CONFIG_MODULE ";
    assert f[8] == 'M' && f[9] == 'O' && f[10] == 'D' && f[11] == 'U' && f[12] == 'L' && f[13] == 'E' && f[14] == ' ';
    assert f[8..14] == "MODULE" && IsName(f, 8, 14);
    assert Occurs(f, 1);
    OnlyModuleIsMissed(f, 1, 14);
  }
}
