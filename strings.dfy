/**
 * The parts of Python's `str` that the converter relies on, for a
 * non-empty separator: `startswith`, `endswith`, `count`, `split` and
 * `join`, plus string repetition (`" " * n`).
 *
 * `count` and `split` both scan left to right and never let two
 * occurrences of the separator overlap: after a match the scan resumes
 * just past it.
 */
module Strings {

  predicate StartsWith(s: string, prefix: string) {
    |prefix| <= |s| && s[..|prefix|] == prefix
  }

  predicate EndsWith(s: string, suffix: string) {
    |suffix| <= |s| && s[|s| - |suffix|..] == suffix
  }

  /** `s.count(d)`: the number of non-overlapping occurrences of `d`. */
  function Count(s: string, d: string): (c: nat)
    requires d != ""
    ensures c * |d| <= |s|
    decreases |s|
  {
    if |s| < |d| then 0
    else if StartsWith(s, d) then
      MulSucc(Count(s[|d|..], d), |d|);
      1 + Count(s[|d|..], d)
    else Count(s[1..], d)
  }

  /** `s.split(d)`: the pieces between the occurrences counted by `Count`. */
  function Split(s: string, d: string): (parts: seq<string>)
    requires d != ""
    ensures |parts| >= 1
    decreases |s|
  {
    if |s| < |d| then [s]
    else if StartsWith(s, d) then [""] + Split(s[|d|..], d)
    else
      var rest := Split(s[1..], d);
      [[s[0]] + rest[0]] + rest[1..]
  }

  /** `s` with every occurrence counted by `Count` deleted. */
  function RemoveAll(s: string, d: string): (r: string)
    requires d != ""
    ensures |r| <= |s|
    decreases |s|
  {
    if |s| < |d| then s
    else if StartsWith(s, d) then RemoveAll(s[|d|..], d)
    else [s[0]] + RemoveAll(s[1..], d)
  }

  /** `sep.join(parts)`. */
  function Join(parts: seq<string>, sep: string): string
  {
    if parts == [] then ""
    else if |parts| == 1 then parts[0]
    else parts[0] + sep + Join(parts[1..], sep)
  }

  /** `"".join(parts)`. */
  function Concat(parts: seq<string>): string
  {
    if parts == [] then "" else parts[0] + Concat(parts[1..])
  }

  /** `c * n` for a one-character string `c`; a negative `n` gives `""`. */
  function Repeat(c: char, n: int): (r: string)
    ensures |r| == if n < 0 then 0 else n
    ensures forall i :: 0 <= i < |r| ==> r[i] == c
  {
    if n <= 0 then "" else [c] + Repeat(c, n - 1)
  }

  /** Splitting yields exactly one more piece than there are separators. */
  lemma {:induction false} SplitLength(s: string, d: string)
    requires d != ""
    ensures |Split(s, d)| == Count(s, d) + 1
    decreases |s|
  {
    if |s| < |d| {
    } else if StartsWith(s, d) {
      SplitLength(s[|d|..], d);
    } else {
      SplitLength(s[1..], d);
    }
  }

  /** Growing the first piece at its front grows the joined string the same way. */
  lemma JoinExtendFirst(c: char, parts: seq<string>, sep: string)
    requires parts != []
    ensures Join([[c] + parts[0]] + parts[1..], sep) == [c] + Join(parts, sep)
  {
    var longer := [[c] + parts[0]] + parts[1..];
    assert longer[1..] == parts[1..];
    if |parts| > 1 {
      assert Join(longer, sep) == [c] + parts[0] + sep + Join(parts[1..], sep);
    }
  }

  /** Joining the pieces with the separator gives back the original string. */
  lemma {:induction false} JoinSplit(s: string, d: string)
    requires d != ""
    ensures Join(Split(s, d), d) == s
    decreases |s|
  {
    if |s| < |d| {
    } else if StartsWith(s, d) {
      var rest := Split(s[|d|..], d);
      JoinSplit(s[|d|..], d);
      assert ([""] + rest)[1..] == rest;
      assert Split(s, d) == [""] + rest;
      assert Join([""] + rest, d) == "" + d + Join(rest, d);
      assert s == s[..|d|] + s[|d|..];
    } else {
      var rest := Split(s[1..], d);
      JoinSplit(s[1..], d);
      assert Split(s, d) == [[s[0]] + rest[0]] + rest[1..];
      JoinExtendFirst(s[0], rest, d);
      HeadTail(s);
    }
  }

  /** Concatenating the pieces gives the string with its separators deleted. */
  lemma {:induction false} ConcatSplit(s: string, d: string)
    requires d != ""
    ensures Concat(Split(s, d)) == RemoveAll(s, d)
    decreases |s|
  {
    if |s| < |d| {
      assert Concat([s]) == s + Concat([]);
    } else if StartsWith(s, d) {
      var rest := Split(s[|d|..], d);
      ConcatSplit(s[|d|..], d);
      assert ([""] + rest)[1..] == rest;
    } else {
      var rest := Split(s[1..], d);
      ConcatSplit(s[1..], d);
      var parts := [[s[0]] + rest[0]] + rest[1..];
      assert parts[1..] == rest[1..];
      assert Concat(rest) == rest[0] + Concat(rest[1..]);
    }
  }

  /** Deleting the separators shortens the string by `|d|` per occurrence. */
  lemma {:induction false} RemoveAllLength(s: string, d: string)
    requires d != ""
    ensures |RemoveAll(s, d)| == |s| - Count(s, d) * |d|
    decreases |s|
  {
    if |s| < |d| {
      assert RemoveAll(s, d) == s && Count(s, d) == 0;
    } else if StartsWith(s, d) {
      var t := s[|d|..];
      var c := Count(t, d);
      RemoveAllLength(t, d);
      assert RemoveAll(s, d) == RemoveAll(t, d) && Count(s, d) == 1 + c;
      MulSucc(c, |d|);
    } else {
      RemoveAllLength(s[1..], d);
      assert RemoveAll(s, d) == [s[0]] + RemoveAll(s[1..], d) && Count(s, d) == Count(s[1..], d);
    }
  }

  lemma MulSucc(c: nat, m: nat)
    ensures (1 + c) * m == m + c * m
  {
  }

  /** With no occurrence of the separator, deleting it changes nothing. */
  lemma {:induction false} RemoveAllAbsent(s: string, d: string)
    requires d != "" && Count(s, d) == 0
    ensures RemoveAll(s, d) == s
    decreases |s|
  {
    if |s| < |d| {
    } else {
      RemoveAllAbsent(s[1..], d);
      HeadTail(s);
    }
  }

  lemma {:induction false} ConcatAppend(a: seq<string>, b: seq<string>)
    ensures Concat(a + b) == Concat(a) + Concat(b)
  {
    if a == [] {
      assert a + b == b;
    } else {
      ConcatAppend(a[1..], b);
      assert (a + b)[1..] == a[1..] + b;
      assert Concat(a + b) == a[0] + Concat(a[1..] + b);
    }
  }

  /** The three pieces of a concatenation can be sliced back out of it. */
  lemma Middle<T>(a: seq<T>, b: seq<T>, c: seq<T>)
    ensures (a + b + c)[..|a|] == a
    ensures (a + b + c)[|a|..|a| + |b|] == b
    ensures (a + b + c)[|a| + |b|..] == c
  {
  }

  lemma AppendAssoc<T>(a: seq<T>, b: seq<T>, c: seq<T>)
    ensures a + b + c == a + (b + c)
  {
  }

  /** The last piece comes last. */
  lemma ConcatSnoc(parts: seq<string>)
    requires parts != []
    ensures Concat(parts) == Concat(parts[..|parts| - 1]) + parts[|parts| - 1]
  {
    var init, last := parts[..|parts| - 1], parts[|parts| - 1];
    assert init + [last] == parts;
    ConcatAppend(init, [last]);
    assert Concat([last]) == last by {
      assert [last][1..] == [];
    }
  }

  /** No character of `s` is `c`. */
  predicate Avoids(s: string, c: char) {
    forall i :: 0 <= i < |s| ==> s[i] != c
  }

  /** Two strings without `c` make one without `c`. */
  lemma {:induction false} AvoidsAppend(a: string, b: string, c: char)
    requires Avoids(a, c) && Avoids(b, c)
    ensures Avoids(a + b, c)
  {
    assert forall i :: |a| <= i < |a + b| ==> (a + b)[i] == b[i - |a|];
  }

  /** A stretch with no character that can begin the separator joins the first piece. */
  lemma SplitPlainPrefix(a: string, t: string, d: string)
    requires d != ""
    requires Avoids(a, d[0])
    ensures Split(a + t, d) == [a + Split(t, d)[0]] + Split(t, d)[1..]
    ensures Count(a + t, d) == Count(t, d)
  {
    PiecesPlainPrefix(a, t, d);
    CountPlainPrefix(a, t, d);
  }

  lemma {:induction false} PiecesPlainPrefix(a: string, t: string, d: string)
    requires d != ""
    requires Avoids(a, d[0])
    ensures Split(a + t, d) == [a + Split(t, d)[0]] + Split(t, d)[1..]
    decreases |a|
  {
    var st := Split(t, d);
    if a != [] {
      var u := a[1..] + t;
      assert Avoids(a[1..], d[0]) by {
        assert forall i :: 0 <= i < |a| - 1 ==> a[1..][i] == a[i + 1];
      }
      PiecesPlainPrefix(a[1..], t, d);
      var su := Split(u, d);
      assert su[0] == a[1..] + st[0] && su[1..] == st[1..];
      assert (a + t)[1..] == u && (a + t)[0] == a[0];
      SplitPlainHead(a + t, d);
      assert [a[0]] + (a[1..] + st[0]) == a + st[0];
    } else {
      assert a + t == t && a + st[0] == st[0];
      HeadTail(st);
    }
  }

  lemma {:induction false} CountPlainPrefix(a: string, t: string, d: string)
    requires d != ""
    requires Avoids(a, d[0])
    ensures Count(a + t, d) == Count(t, d)
    decreases |a|
  {
    if a != [] {
      CountPlainPrefix(a[1..], t, d);
      assert (a + t)[1..] == a[1..] + t && (a + t)[0] == a[0];
      SplitPlainHead(a + t, d);
    } else {
      assert a + t == t;
    }
  }

  /** A first character that cannot begin the separator joins the first piece. */
  lemma SplitPlainHead(s: string, d: string)
    requires d != "" && s != [] && s[0] != d[0]
    ensures Split(s, d) == [[s[0]] + Split(s[1..], d)[0]] + Split(s[1..], d)[1..]
    ensures Count(s, d) == Count(s[1..], d)
  {
    assert !StartsWith(s, d) by {
      if |d| <= |s| {
        assert s[..|d|][0] == s[0];
      }
    }
    if |s| < |d| {
      assert Split(s[1..], d) == [s[1..]];
      HeadTail(s);
    }
  }

  /** Every element has `p` exactly when every element but the last has it and the last
      one has it too. */
  lemma AllButLast<T>(xs: seq<T>, init: seq<T>, p: T -> bool)
    requires xs != [] && init == xs[..|xs| - 1]
    ensures (forall i :: 0 <= i < |xs| ==> p(xs[i]))
            <==> (forall i :: 0 <= i < |init| ==> p(init[i])) && p(xs[|xs| - 1])
  {
    assert forall i :: 0 <= i < |init| ==> init[i] == xs[i];
  }

  /** A non-empty sequence is its head before its tail. */
  lemma HeadTail<T>(s: seq<T>)
    requires s != []
    ensures [s[0]] + s[1..] == s
  {
  }

  /** A separator at the front opens an empty first piece. */
  lemma SplitSeparatorPrefix(t: string, d: string)
    requires d != ""
    ensures Split(d + t, d) == [""] + Split(t, d)
    ensures Count(d + t, d) == 1 + Count(t, d)
  {
    assert (d + t)[..|d|] == d;
    assert (d + t)[|d|..] == t;
  }

  /** A stretch that cannot begin the separator, the separator, then `t`. */
  lemma SplitPlainThenSeparator(b: string, t: string, d: string)
    requires d != "" && Avoids(b, d[0])
    ensures Split(b + (d + t), d) == [b] + Split(t, d)
    ensures Count(b + (d + t), d) == 1 + Count(t, d)
  {
    SplitSeparatorPrefix(t, d);
    SplitPlainPrefix(b, d + t, d);
    assert b + "" == b && ([""] + Split(t, d))[1..] == Split(t, d);
  }

  /** Two separators between three stretches that cannot begin one. */
  lemma SplitPair(a: string, b: string, c: string, d: string)
    requires d != ""
    requires Avoids(a, d[0]) && Avoids(b, d[0]) && Avoids(c, d[0])
    ensures Split(a + (d + (b + (d + c))), d) == [a, b, c]
    ensures Count(a + (d + (b + (d + c))), d) == 2
  {
    assert Split(c, d) == [c] && Count(c, d) == 0 by {
      SplitPlainPrefix(c, "", d);
      assert c + "" == c;
    }
    SplitPlainThenSeparator(b, c, d);
    SplitPlainThenSeparator(a, b + (d + c), d);
  }

  /** A string without the separator's first character is a single piece. */
  lemma SplitPlain(s: string, d: string)
    requires d != "" && Avoids(s, d[0])
    ensures Split(s, d) == [s]
  {
    SplitPlainPrefix(s, "", d);
    assert s + "" == s;
  }

  /** Splitting undoes joining pieces that cannot contain the (one-character) separator. */
  lemma {:induction false} SplitJoin(parts: seq<string>, c: char)
    requires parts != []
    requires forall i :: 0 <= i < |parts| ==> Avoids(parts[i], c)
    ensures Split(Join(parts, [c]), [c]) == parts
    decreases |parts|
  {
    if |parts| == 1 {
      SplitPlain(parts[0], [c]);
    } else {
      var rest := parts[1..];
      SplitJoin(rest, c);
      assert Join(parts, [c]) == parts[0] + ([c] + Join(rest, [c]));
      SplitPlainThenSeparator(parts[0], Join(rest, [c]), [c]);
      assert [parts[0]] + rest == parts;
    }
  }

  /** The first piece of a split is a prefix of the string. */
  lemma {:induction false} SplitFirstPrefix(s: string, d: string)
    requires d != ""
    ensures StartsWith(s, Split(s, d)[0])
    decreases |s|
  {
    if |s| < |d| {
      assert Split(s, d) == [s];
    } else if StartsWith(s, d) {
      assert Split(s, d)[0] == "";
    } else {
      SplitFirstPrefix(s[1..], d);
      SplitFirstStep(s, d);
    }
  }

  /** A character that does not open a separator goes in front of the first piece. */
  lemma SplitFirstStep(s: string, d: string)
    requires d != "" && |s| >= |d| && !StartsWith(s, d)
    requires StartsWith(s[1..], Split(s[1..], d)[0])
    ensures StartsWith(s, Split(s, d)[0])
  {
    var rest := Split(s[1..], d);
    var first := rest[0];
    assert Split(s, d)[0] == [s[0]] + first;
    PrefixCons(s, first);
  }

  /** A prefix of the tail, after the first character, is a prefix of the string. */
  lemma PrefixCons(s: string, p: string)
    requires s != [] && StartsWith(s[1..], p)
    ensures StartsWith(s, [s[0]] + p)
  {
    assert s[..|p| + 1] == [s[0]] + s[1..][..|p|];
  }
}
