/**
 * The handful of Python `str` operations the note-curl script relies on,
 * for a single separator character: `s.split(sep)`, `sep.join(parts)`,
 * `s.rstrip(c)` and the `find`/`partition` style cut at the first
 * occurrence of a character.
 */
module Text {

  /** Python `s.split(sep)`: the pieces between the occurrences of `sep`, in order. */
  function Split(s: string, sep: char): (parts: seq<string>)
    ensures |parts| >= 1
    ensures forall i :: 0 <= i < |parts| ==> sep !in parts[i]
    ensures |parts| == 1 <==> sep !in s
    decreases |s|
  {
    if s == [] then [[]]
    else
      var rest := Split(s[1..], sep);
      if s[0] == sep then [[]] + rest
      else [[s[0]] + rest[0]] + rest[1..]
  }

  /** Python `sep.join(parts)`. */
  function Join(parts: seq<string>, sep: char): (s: string)
    ensures parts != [] ==> parts[0] <= s
    ensures |parts| >= 2 ==> |s| > |parts[0]| && s[|parts[0]|] == sep
    decreases |parts|
  {
    if |parts| == 0 then []
    else if |parts| == 1 then parts[0]
    else parts[0] + [sep] + Join(parts[1..], sep)
  }

  /** Two parts are joined by one separator. */
  lemma JoinTwo(a: string, b: string, sep: char)
    ensures Join([a, b], sep) == a + [sep] + b
  {
    JoinCons(a, [b], sep);
  }

  /** Joining a first part before a non-empty list of parts puts a separator after it. */
  lemma JoinAfter(first: string, middle: seq<string>, tail: seq<string>, sep: char)
    requires tail != []
    ensures Join([first] + middle + tail, sep) == first + [sep] + Join(middle + tail, sep)
  {
    Assoc([first], middle, tail);
    JoinCons(first, middle + tail, sep);
  }

  /** Joining a first part before at least one more puts a separator after it. */
  lemma JoinCons(first: string, rest: seq<string>, sep: char)
    requires rest != []
    ensures Join([first] + rest, sep) == first + [sep] + Join(rest, sep)
  {
    assert ([first] + rest)[1..] == rest;
  }

  /** Joining the pieces of a split gives the string back. */
  lemma {:induction false} JoinSplit(s: string, sep: char)
    ensures Join(Split(s, sep), sep) == s
    decreases |s|
  {
    if s != [] {
      var rest := Split(s[1..], sep);
      JoinSplit(s[1..], sep);
      HeadRest(s);
      if s[0] == sep {
        JoinCons([], rest, sep);
      } else if |rest| > 1 {
        HeadRest(rest);
        JoinCons(rest[0], rest[1..], sep);
        JoinCons([s[0]] + rest[0], rest[1..], sep);
        Assoc4([s[0]], rest[0], [sep], Join(rest[1..], sep));
      }
    }
  }

  /** Splitting a join of separator-free pieces gives the pieces back. */
  lemma {:induction false} SplitJoin(parts: seq<string>, sep: char)
    requires |parts| >= 1
    requires forall i :: 0 <= i < |parts| ==> sep !in parts[i]
    ensures Split(Join(parts, sep), sep) == parts
    decreases |parts|
  {
    if |parts| == 1 {
      NoSeparator(parts[0], sep);
    } else {
      SplitJoin(parts[1..], sep);
      SplitAppend(parts[0], Join(parts[1..], sep), sep);
    }
  }

  /** A string without the separator is a single piece. */
  lemma {:induction false} NoSeparator(s: string, sep: char)
    requires sep !in s
    ensures Split(s, sep) == [s]
    decreases |s|
  {
    if s != [] {
      NoSeparator(s[1..], sep);
      assert s == [s[0]] + s[1..];
    }
  }

  /** Splitting `a + [sep] + b`, where `a` holds no separator, puts `a` in front of the pieces of `b`. */
  lemma {:induction false} SplitAppend(a: string, b: string, sep: char)
    requires sep !in a
    ensures Split(a + [sep] + b, sep) == [a] + Split(b, sep)
    decreases |a|
  {
    if a == [] {
      assert a + [sep] + b == [sep] + b;
      HeadTail(sep, b);
    } else {
      SplitAppend(a[1..], b, sep);
      Uncons(a, [sep] + b);
      Assoc(a, [sep], b);
      Assoc(a[1..], [sep], b);
      HeadTail(a[1..], Split(b, sep));
    }
  }

  lemma Assoc<T>(a: seq<T>, b: seq<T>, c: seq<T>)
    ensures a + b + c == a + (b + c)
  {
  }

  lemma Assoc4<T>(a: seq<T>, b: seq<T>, c: seq<T>, d: seq<T>)
    ensures a + b + c + d == a + (b + c + d)
  {
  }

  /** A non-empty sequence is its first element followed by the rest. */
  lemma HeadRest<T>(xs: seq<T>)
    requires xs != []
    ensures [xs[0]] + xs[1..] == xs
  {
  }

  /** The first element and the rest of `[x] + ys`. */
  lemma HeadTail<T>(x: T, ys: seq<T>)
    ensures ([x] + ys)[0] == x && ([x] + ys)[1..] == ys
  {
  }

  /** The first element and the rest of `xs + ys` when `xs` is not empty. */
  lemma Uncons<T>(xs: seq<T>, ys: seq<T>)
    requires xs != []
    ensures (xs + ys)[0] == xs[0] && (xs + ys)[1..] == xs[1..] + ys
    ensures [xs[0]] + xs[1..] == xs
  {
  }

  /** `[f(x) for x in xs]`. */
  function Map<A, B>(f: A -> B, xs: seq<A>): (ys: seq<B>)
    ensures |ys| == |xs|
  {
    seq(|xs|, i requires 0 <= i < |xs| => f(xs[i]))
  }

  /** Element `i` of a mapped sequence is the image of element `i`. */
  lemma MapAt<A, B>(f: A -> B, xs: seq<A>, i: int)
    requires 0 <= i < |xs|
    ensures Map(f, xs)[i] == f(xs[i])
  {
  }

  /** Mapping a non-empty sequence maps its first element, then the rest. */
  lemma MapCons<A, B>(f: A -> B, xs: seq<A>)
    requires xs != []
    ensures Map(f, xs) == [f(xs[0])] + Map(f, xs[1..])
  {
    var l := Map(f, xs);
    var r := [f(xs[0])] + Map(f, xs[1..]);
    forall k | 0 <= k < |l|
      ensures l[k] == r[k]
    {
      if k > 0 {
        assert xs[1..][k - 1] == xs[k];
      }
    }
  }

  /** Mapping one more element of a prefix appends its image. */
  lemma MapPush<A, B>(f: A -> B, xs: seq<A>, i: int)
    requires 0 <= i < |xs|
    ensures Map(f, xs[..i + 1]) == Map(f, xs[..i]) + [f(xs[i])]
  {
    var l := Map(f, xs[..i + 1]);
    var r := Map(f, xs[..i]) + [f(xs[i])];
    forall k | 0 <= k < |l|
      ensures l[k] == r[k]
    {
      assert xs[..i + 1][k] == xs[k];
      if k < i {
        assert xs[..i][k] == xs[k];
      }
    }
  }

  /** The last piece of a split: what follows the last separator, or the whole string. */
  function Last(parts: seq<string>): string
    requires |parts| >= 1
  {
    parts[|parts| - 1]
  }

  /**
   * The last piece of `Split(s, sep)` is the longest separator-free suffix of `s`:
   * it is a suffix, and it is either all of `s` or preceded by a separator.
   */
  /**
   * `l` is the last `sep`-separated piece of `s`: a suffix of `s` without
   * `sep` that is either all of `s` or preceded by a `sep`.
   */
  predicate IsLastPiece(l: string, s: string, sep: char) {
    && sep !in l
    && |l| <= |s| && s[|s| - |l|..] == l
    && (|l| == |s| || s[|s| - |l| - 1] == sep)
  }

  lemma {:induction false} LastPieceIsSuffix(s: string, sep: char)
    ensures IsLastPiece(Last(Split(s, sep)), s, sep)
    decreases |s|
  {
    if s != [] {
      var rest := Split(s[1..], sep);
      LastPieceIsSuffix(s[1..], sep);
      if s[0] != sep && |rest| == 1 {
        JoinSplit(s[1..], sep);
        HeadRest(s);
        LastSingle([s[0]] + rest[0], rest[1..]);
      } else {
        var l := Last(rest);
        if s[0] == sep {
          LastCons([], rest);
        } else {
          LastCons([s[0]] + rest[0], rest[1..]);
          LastDrop(rest);
        }
        DropDrop(s, |s| - 1 - |l|);
      }
    }
  }

  lemma LastCons(x: string, ys: seq<string>)
    requires ys != []
    ensures Last([x] + ys) == Last(ys)
  {
  }

  lemma LastSingle(x: string, ys: seq<string>)
    requires ys == []
    ensures Last([x] + ys) == x
  {
  }

  lemma LastDrop(ys: seq<string>)
    requires |ys| > 1
    ensures Last(ys[1..]) == Last(ys)
  {
  }

  lemma DropDrop<T>(s: seq<T>, k: int)
    requires 0 <= k < |s|
    ensures s[1..][k..] == s[k + 1..]
  {
  }

  /** Python `s.rstrip(c)`: `s` without every trailing `c`. */
  function RStrip(s: string, c: char): (r: string)
    ensures |r| <= |s| && r == s[..|r|]
    ensures r == [] || r[|r| - 1] != c
    ensures forall i :: |r| <= i < |s| ==> s[i] == c
    decreases |s|
  {
    if s != [] && s[|s| - 1] == c then RStrip(s[..|s| - 1], c) else s
  }

  /** Every character of `s` is `c`. */
  predicate AllAre(s: string, c: char) {
    forall i :: 0 <= i < |s| ==> s[i] == c
  }

  /**
   * Once the trailing `c` are stripped, the last `c`-separated piece is empty
   * exactly when `s` is made of `c` only (the empty string included).
   */
  lemma LastStrippedPieceEmptyIff(s: string, c: char)
    ensures Last(Split(RStrip(s, c), c)) == [] <==> AllAre(s, c)
  {
    var t := RStrip(s, c);
    LastPieceIsSuffix(t, c);
    if t != [] {
      assert t[|t| - 1] == s[|t| - 1];
    }
  }

  /** Index of the first character of `s` that is in `stops`, or `|s|` when there is none. */
  function FirstOf(s: string, stops: set<char>): (k: nat)
    ensures k <= |s|
    ensures forall j :: 0 <= j < k ==> s[j] !in stops
    ensures k < |s| ==> s[k] in stops
    decreases |s|
  {
    if s == [] || s[0] in stops then 0 else 1 + FirstOf(s[1..], stops)
  }

  /** `FirstOf` is the index of the first stop character. */
  lemma FirstOfAt(s: string, stops: set<char>, k: int)
    requires 0 <= k < |s| && s[k] in stops
    requires forall j :: 0 <= j < k ==> s[j] !in stops
    ensures FirstOf(s, stops) == k
  {
  }

  /** `FirstOf` is the length of a text that holds no stop character. */
  lemma FirstOfNone(s: string, stops: set<char>)
    requires forall j :: 0 <= j < |s| ==> s[j] !in stops
    ensures FirstOf(s, stops) == |s|
  {
  }

  /**
   * Python `s.split(c, 1)` when `c` occurs in `s`: the text before the first
   * `c` and the text after it.
   */
  function Cut(s: string, c: char): (r: (string, string))
    requires c in s
    ensures c !in r.0
    ensures s == r.0 + ([c] + r.1)
  {
    var k := FirstOf(s, {c});
    assert s == s[..k] + ([c] + s[k + 1..]);
    (s[..k], s[k + 1..])
  }
}
