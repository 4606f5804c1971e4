/**
 * A model of the three `strings` package functions the array codec uses:
 * `Trim` with a cutset, `Split` on a one-character separator and `Join`.
 */
module Strings {

  /** How many times `c` occurs in `s` (`strings.Count` for a one-character needle). */
  function Count(s: string, c: char): nat {
    multiset(s)[c]
  }

  /** `strings.IndexByte`: the first position of `c` in `s`, or -1. */
  function IndexOf(s: string, c: char): (i: int)
    ensures -1 <= i < |s|
    ensures 0 <= i ==> s[i] == c
  {
    if s == [] then -1
    else if s[0] == c then 0
    else
      var j := IndexOf(s[1..], c);
      if j < 0 then -1 else j + 1
  }

  /** The position found is the first occurrence, and -1 means there is none. */
  lemma {:induction false} IndexOfFirst(s: string, c: char)
    ensures IndexOf(s, c) == -1 <==> c !in s
    ensures 0 <= IndexOf(s, c) ==> c !in s[..IndexOf(s, c)]
  {
    if s != [] && s[0] != c {
      IndexOfFirst(s[1..], c);
      var j := IndexOf(s[1..], c);
      if j >= 0 {
        assert s[..j + 1] == [s[0]] + s[1..][..j];
      }
      assert s == [s[0]] + s[1..];
    }
  }

  /** `strings.TrimLeft`: drop the longest prefix made of characters of `cutset`. */
  function TrimLeft(s: string, cutset: set<char>): (r: string)
    ensures |r| <= |s|
    ensures r != [] ==> r[0] !in cutset
  {
    if s != [] && s[0] in cutset then TrimLeft(s[1..], cutset) else s
  }

  /** `strings.TrimRight`: drop the longest suffix made of characters of `cutset`. */
  function TrimRight(s: string, cutset: set<char>): (r: string)
    ensures |r| <= |s|
    ensures r != [] ==> r[|r| - 1] !in cutset
  {
    if s != [] && s[|s| - 1] in cutset then TrimRight(s[..|s| - 1], cutset) else s
  }

  /**
   * `strings.Trim(s, cutset)`: every leading and every trailing character that
   * belongs to `cutset` is removed, however many there are.
   */
  function Trim(s: string, cutset: set<char>): (r: string)
    ensures |r| <= |s|
    ensures r != [] ==> r[0] !in cutset && r[|r| - 1] !in cutset
  {
    var t := TrimRight(s, cutset);
    TrimLeftKeepsSuffix(t, cutset);
    TrimLeft(t, cutset)
  }

  /** `TrimLeft` keeps a suffix of the text and drops only cutset characters. */
  lemma {:induction false} TrimLeftKeepsSuffix(s: string, cutset: set<char>)
    ensures TrimLeft(s, cutset) == s[|s| - |TrimLeft(s, cutset)|..]
    ensures forall i :: 0 <= i < |s| - |TrimLeft(s, cutset)| ==> s[i] in cutset
  {
    if s != [] && s[0] in cutset {
      TrimLeftKeepsSuffix(s[1..], cutset);
      assert forall i :: 1 <= i < |s| ==> s[1..][i - 1] == s[i];
    }
  }

  /** `TrimRight` keeps a prefix of the text and drops only cutset characters. */
  lemma {:induction false} TrimRightKeepsPrefix(s: string, cutset: set<char>)
    ensures TrimRight(s, cutset) == s[..|TrimRight(s, cutset)|]
    ensures forall i :: |TrimRight(s, cutset)| <= i < |s| ==> s[i] in cutset
  {
    if s != [] && s[|s| - 1] in cutset {
      TrimRightKeepsPrefix(s[..|s| - 1], cutset);
    }
  }

  /** `strings.Join(elems, sep)`: the elements in order with `sep` between neighbours. */
  function Join(elems: seq<string>, sep: string): (r: string)
    ensures |elems| >= 1 ==> elems[0] <= r
  {
    if |elems| == 0 then ""
    else if |elems| == 1 then elems[0]
    else elems[0] + sep + Join(elems[1..], sep)
  }

  /**
   * `strings.Split(s, [sep])`: the pieces of `s` between occurrences of `sep`.
   * There is always at least one piece, so the empty text splits into one
   * empty piece.
   */
  function Split(s: string, sep: char): (parts: seq<string>)
    ensures |parts| >= 1
    decreases |s|
  {
    var i := IndexOf(s, sep);
    if i < 0 then [s] else [s[..i]] + Split(s[i + 1..], sep)
  }

  /** There is one piece more than there are separators. */
  lemma {:induction false} SplitCount(s: string, sep: char)
    ensures |Split(s, sep)| == Count(s, sep) + 1
    decreases |s|
  {
    var i := IndexOf(s, sep);
    IndexOfFirst(s, sep);
    if i >= 0 {
      SplitCount(s[i + 1..], sep);
      assert s == s[..i] + [sep] + s[i + 1..];
      assert multiset(s) == multiset(s[..i]) + multiset([sep]) + multiset(s[i + 1..]);
    } else {
      assert multiset(s)[sep] == 0;
    }
  }

  /** No piece contains the separator. */
  lemma {:induction false} SplitPiecesAvoid(s: string, sep: char)
    ensures forall k :: 0 <= k < |Split(s, sep)| ==> sep !in Split(s, sep)[k]
    decreases |s|
  {
    var i := IndexOf(s, sep);
    IndexOfFirst(s, sep);
    if i >= 0 {
      SplitPiecesAvoid(s[i + 1..], sep);
      var rest := Split(s[i + 1..], sep);
      assert forall k :: 1 <= k < |rest| + 1 ==> ([s[..i]] + rest)[k] == rest[k - 1];
    }
  }

  /** A run of cutset characters after the text changes nothing `TrimRight` keeps. */
  lemma {:induction false} TrimRightSuffix(x: string, post: string, cutset: set<char>)
    requires forall i :: 0 <= i < |post| ==> post[i] in cutset
    ensures TrimRight(x + post, cutset) == TrimRight(x, cutset)
    decreases |post|
  {
    if post != [] {
      assert (x + post)[|x + post| - 1] == post[|post| - 1];
      assert (x + post)[..|x + post| - 1] == x + post[..|post| - 1];
      TrimRightSuffix(x, post[..|post| - 1], cutset);
    } else {
      assert x + post == x;
    }
  }

  /** A run of cutset characters before the text changes nothing `TrimLeft` keeps. */
  lemma {:induction false} TrimLeftPrefix(pre: string, y: string, cutset: set<char>)
    requires forall i :: 0 <= i < |pre| ==> pre[i] in cutset
    ensures TrimLeft(pre + y, cutset) == TrimLeft(y, cutset)
    decreases |pre|
  {
    if pre != [] {
      assert (pre + y)[0] == pre[0];
      assert (pre + y)[1..] == pre[1..] + y;
      TrimLeftPrefix(pre[1..], y, cutset);
    } else {
      assert pre + y == y;
    }
  }

  /**
   * Trimming removes exactly a cutset-only frame: if `m` neither starts nor
   * ends with a cutset character, `Trim(pre + m + post)` is `m`.
   */
  lemma TrimFrame(pre: string, m: string, post: string, cutset: set<char>)
    requires forall i :: 0 <= i < |pre| ==> pre[i] in cutset
    requires forall i :: 0 <= i < |post| ==> post[i] in cutset
    requires m != [] ==> m[0] !in cutset && m[|m| - 1] !in cutset
    ensures Trim(pre + m + post, cutset) == m
  {
    TrimRightSuffix(pre + m, post, cutset);
    if m == [] {
      assert pre + m == pre;
      var r := TrimRight(pre, cutset);
      TrimRightKeepsPrefix(pre, cutset);
      assert r == [];
    } else {
      assert TrimRight(pre + m, cutset) == pre + m;
      TrimLeftPrefix(pre, m, cutset);
    }
  }

  /** A text made only of cutset characters trims to nothing, and only such a text does. */
  lemma TrimEmpty(s: string, cutset: set<char>)
    ensures Trim(s, cutset) == [] <==> forall i :: 0 <= i < |s| ==> s[i] in cutset
  {
    var r := TrimRight(s, cutset);
    TrimRightKeepsPrefix(s, cutset);
    if forall i :: 0 <= i < |s| ==> s[i] in cutset {
      assert r == [];
    } else {
      assert r != [];
      TrimLeftKeepsSuffix(r, cutset);
    }
  }

  /** A character that is in no element and not in the separator is not in the joined text. */
  lemma {:induction false} JoinAvoids(elems: seq<string>, sep: string, c: char)
    requires c !in sep
    requires forall i :: 0 <= i < |elems| ==> c !in elems[i]
    ensures c !in Join(elems, sep)
  {
    if |elems| > 1 {
      JoinAvoids(elems[1..], sep, c);
    }
  }

  /** A join whose first element is not empty is not empty. */
  lemma {:induction false} JoinNonEmpty(elems: seq<string>, sep: string)
    requires |elems| >= 1 && elems[0] != []
    ensures Join(elems, sep) != []
  {
  }

  /** Joining a first element in front of at least one more puts the separator between. */
  lemma JoinCons(first: string, rest: seq<string>, sep: string)
    requires |rest| >= 1
    ensures Join([first] + rest, sep) == first + sep + Join(rest, sep)
  {
    assert ([first] + rest)[1..] == rest;
  }

  /** Joining the pieces around one separator, the rest already rejoined, gives back the text. */
  lemma JoinAround(s: string, i: nat, sep: char, rest: seq<string>)
    requires i < |s| && s[i] == sep && |rest| >= 1
    requires Join(rest, [sep]) == s[i + 1..]
    ensures Join([s[..i]] + rest, [sep]) == s
  {
    JoinCons(s[..i], rest, [sep]);
    SeqAround(s, i);
  }

  /** A text is the part before position `i`, the character there, and the part after. */
  lemma SeqAround(s: string, i: nat)
    requires i < |s|
    ensures s[..i] + [s[i]] + s[i + 1..] == s
  {
  }

  /** Joining the pieces of a split with the separator gives back the text. */
  lemma {:induction false} JoinSplit(s: string, sep: char)
    ensures Join(Split(s, sep), [sep]) == s
    decreases |s|
  {
    var i := IndexOf(s, sep);
    if i >= 0 {
      JoinSplit(s[i + 1..], sep);
      JoinAround(s, i, sep, Split(s[i + 1..], sep));
    }
  }

  /** The first separator of `a + [c] + b` is the one after `a` when `a` has none. */
  lemma IndexOfAfter(a: string, c: char, b: string)
    requires c !in a
    ensures IndexOf(a + [c] + b, c) == |a|
  {
    IndexOfFirst(a + [c] + b, c);
    assert (a + [c] + b)[|a|] == c;
  }

  /**
   * Splitting a join gives back the elements, provided there is at least one
   * element and no element contains the separator.
   */
  lemma {:induction false} SplitJoin(elems: seq<string>, sep: char)
    requires |elems| >= 1
    requires forall i :: 0 <= i < |elems| ==> sep !in elems[i]
    ensures Split(Join(elems, [sep]), sep) == elems
  {
    if |elems| > 1 {
      var tail := Join(elems[1..], [sep]);
      var s := elems[0] + [sep] + tail;
      IndexOfAfter(elems[0], sep, tail);
      assert s[..|elems[0]|] == elems[0];
      assert s[|elems[0]| + 1..] == tail;
      SplitJoin(elems[1..], sep);
      assert elems == [elems[0]] + elems[1..];
    } else {
      IndexOfFirst(elems[0], sep);
    }
  }
}
