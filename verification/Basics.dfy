/** What several of the models need. */
module Basics {

  datatype Option<T> = None | Some(value: T)

  /** A letter or digit of ASCII, or an underscore. */
  predicate IsNameChar(c: char) {
    'a' <= c <= 'z' || 'A' <= c <= 'Z' || '0' <= c <= '9' || c == '_'
  }

  lemma {:induction false} SubsetSize<T>(a: set<T>, b: set<T>)
    requires a <= b
    ensures |a| <= |b|
    decreases a
  {
    if a != {} {
      var x :| x in a;
      SubsetSize(a - {x}, b - {x});
    }
  }

  /** The first place of an element. */
  ghost function Place<T>(s: seq<T>, x: T): (i: nat)
    requires x in s
    ensures i < |s| && s[i] == x && x !in s[..i]
  {
    if s[0] == x then 0 else 1 + Place(s[1..], x)
  }

  lemma PlaceIs<T>(s: seq<T>, x: T, i: nat)
    requires i < |s| && s[i] == x && x !in s[..i]
    ensures x in s && Place(s, x) == i
  {
  }

  /** More at the end does not move it. */
  lemma PlaceStays<T>(s: seq<T>, t: seq<T>, x: T)
    requires x in s
    ensures x in s + t && Place(s + t, x) == Place(s, x)
  {
    assert (s + t)[..Place(s, x)] == s[..Place(s, x)];
    PlaceIs(s + t, x, Place(s, x));
  }

  /** The elements of `l` stand in the order in which they first occur in `s`. */
  ghost predicate InOrderOf<T>(l: seq<T>, s: seq<T>) {
    && (forall x | x in l :: x in s)
    && forall i, j | 0 <= i < j < |l| :: Place(s, l[i]) < Place(s, l[j])
  }

  lemma InOrderMore<T>(l: seq<T>, s: seq<T>, x: T)
    requires InOrderOf(l, s)
    ensures InOrderOf(l, s + [x]) && (x !in s ==> InOrderOf(l + [x], s + [x]))
  {
    forall y | y in l ensures y in s + [x] && Place(s + [x], y) == Place(s, y) {
      PlaceStays(s, [x], y);
    }
    if x !in s {
      assert (s + [x])[..|s|] == s;
      PlaceIs(s + [x], x, |s|);
      var m := l + [x];
      forall i, j | 0 <= i < j < |m| ensures Place(s + [x], m[i]) < Place(s + [x], m[j]) {
        assert i < |l| && m[i] == l[i] && m[i] in l;
      }
    }
  }
}
