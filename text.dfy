/**
 * The Go standard-library string operations that deinde relies on
 * (strings.Split, strings.Join, strings.Contains, strings.TrimLeft), over
 * strings as sequences of characters, plus the scanning primitives from which
 * the two fixed regular expressions are built.
 */
module Text {

  /** strings.Join: the parts, with `sep` between consecutive ones. */
  function Join(parts: seq<string>, sep: string): (r: string)
    ensures |parts| >= 1 ==> parts[0] <= r
  {
    if |parts| == 0 then ""
    else if |parts| == 1 then parts[0]
    else parts[0] + sep + Join(parts[1..], sep)
  }

  /** A character in no part and not in the separator is not in the joined string. */
  lemma {:induction false} JoinAvoids(parts: seq<string>, sep: string, c: char)
    requires forall k :: 0 <= k < |parts| ==> c !in parts[k]
    requires c !in sep
    ensures c !in Join(parts, sep)
  {
    if |parts| > 1 {
      JoinAvoids(parts[1..], sep, c);
    }
  }

  /** Prepending to the first part prepends to the joined string. */
  lemma JoinExtendHead(x: string, parts: seq<string>, sep: string)
    requires |parts| >= 1
    ensures Join([x + parts[0]] + parts[1..], sep) == x + Join(parts, sep)
  {
    var q := [x + parts[0]] + parts[1..];
    assert q[1..] == parts[1..];
  }

  /**
   * strings.Split with a one-character separator: the maximal pieces between
   * separators, always at least one ("" splits into [""]), and joining the
   * pieces back with the separator gives the input.
   */
  function Split(s: string, c: char): (r: seq<string>)
    ensures |r| >= 1
    ensures forall k :: 0 <= k < |r| ==> c !in r[k]
    ensures Join(r, [c]) == s
  {
    if s == [] then [""]
    else
      var rest := Split(s[1..], c);
      if s[0] == c then
        assert ([""] + rest)[1..] == rest;
        [""] + rest
      else
        JoinExtendHead([s[0]], rest, [c]);
        assert s == [s[0]] + s[1..];
        [[s[0]] + rest[0]] + rest[1..]
  }

  /** A string without the separator is one piece. */
  lemma {:induction false} SplitNoSeparator(s: string, c: char)
    requires c !in s
    ensures Split(s, c) == [s]
  {
    if s != [] {
      SplitNoSeparator(s[1..], c);
      assert s == [s[0]] + s[1..];
    }
  }

  /** Splitting is a homomorphism over a separator: the pieces of `a` then those of `b`. */
  lemma {:induction false} SplitAround(a: string, b: string, c: char)
    ensures Split(a + [c] + b, c) == Split(a, c) + Split(b, c)
    decreases |a|
  {
    var s := a + [c] + b;
    if a == [] {
      assert s[1..] == b;
    } else {
      UnconsAround(a, c, b);
      SplitAround(a[1..], b, c);
      var ra := Split(a[1..], c);
      assert Split(s[1..], c) == ra + Split(b, c);
      if a[0] == c {
        ConsAssoc("", ra, Split(b, c));
      } else {
        UnconsAppend(ra, Split(b, c));
        ConsAssoc([a[0]] + ra[0], ra[1..], Split(b, c));
      }
    }
  }

  /** The head and the tail of a concatenation whose first part is not empty. */
  lemma UnconsAppend<T>(x: seq<T>, y: seq<T>)
    requires x != []
    ensures (x + y)[0] == x[0] && (x + y)[1..] == x[1..] + y
  {
  }

  /** The head and the tail of `x m y` when x is not empty. */
  lemma UnconsAround<T>(x: seq<T>, m: T, y: seq<T>)
    requires x != []
    ensures (x + [m] + y)[0] == x[0] && (x + [m] + y)[1..] == x[1..] + [m] + y
  {
  }

  /** Prepending an element associates with concatenation. */
  lemma ConsAssoc<T>(h: T, x: seq<T>, y: seq<T>)
    ensures [h] + (x + y) == ([h] + x) + y
  {
  }

  /** Split undoes Join when no piece holds the separator. */
  lemma {:induction false} SplitJoin(parts: seq<string>, c: char)
    requires |parts| >= 1
    requires forall k :: 0 <= k < |parts| ==> c !in parts[k]
    ensures Split(Join(parts, [c]), c) == parts
  {
    SplitNoSeparator(parts[0], c);
    if |parts| > 1 {
      SplitJoin(parts[1..], c);
      SplitAround(parts[0], Join(parts[1..], [c]), c);
      assert parts == [parts[0]] + parts[1..];
    }
  }

  /** Every occurrence of character `a` in `s` changed to `b`. */
  function Replace(s: string, a: char, b: char): (r: string)
    ensures |r| == |s|
    ensures forall k :: 0 <= k < |s| ==> r[k] == if s[k] == a then b else s[k]
  {
    if s == [] then [] else [if s[0] == a then b else s[0]] + Replace(s[1..], a, b)
  }

  /** Joining the pieces of a split with another separator replaces the separator. */
  lemma {:induction false} JoinSplit(s: string, a: char, b: char)
    ensures Join(Split(s, a), [b]) == Replace(s, a, b)
  {
    if s != [] {
      JoinSplit(s[1..], a, b);
      var rest := Split(s[1..], a);
      if s[0] == a {
        assert ([""] + rest)[1..] == rest;
      } else {
        JoinExtendHead([s[0]], rest, [b]);
      }
    }
  }

  /** `sub` occurs in `s` starting at position `i`. */
  predicate OccursAt(s: string, sub: string, i: nat)
  {
    i <= |s| && sub <= s[i..]
  }

  /** strings.Contains: `sub` occurs in `s` at some position. */
  function Contains(s: string, sub: string): (b: bool)
    ensures b <==> exists i: nat :: OccursAt(s, sub, i)
    decreases |s|
  {
    if sub <= s then
      assert OccursAt(s, sub, 0);
      true
    else if s == [] then
      false
    else
      var r := Contains(s[1..], sub);
      assert forall i: nat :: OccursAt(s[1..], sub, i) ==> OccursAt(s, sub, i + 1) by {
        forall i: nat | OccursAt(s[1..], sub, i) ensures OccursAt(s, sub, i + 1) {
          assert s[1..][i..] == s[i + 1..];
        }
      }
      assert forall i: nat :: OccursAt(s, sub, i) ==> i > 0 && OccursAt(s[1..], sub, i - 1) by {
        forall i: nat | OccursAt(s, sub, i) ensures i > 0 && OccursAt(s[1..], sub, i - 1) {
          assert s[1..][i - 1..] == s[i..];
        }
      }
      r
  }

  /**
   * strings.TrimLeft: `s` without its longest prefix of characters from
   * `cutset` (a set of characters, not a prefix string).
   */
  function TrimLeft(s: string, cutset: string): (r: string)
    ensures |r| <= |s| && r == s[|s| - |r|..]
    ensures forall k :: 0 <= k < |s| - |r| ==> s[k] in cutset
    ensures r != [] ==> r[0] !in cutset
  {
    if s != [] && s[0] in cutset then
      var r := TrimLeft(s[1..], cutset);
      assert s[1..][|s| - 1 - |r|..] == s[|s| - |r|..];
      assert forall k :: 1 <= k < |s| - |r| ==> s[k] == s[1..][k - 1];
      r
    else s
  }

  /** The end of the maximal run of characters in the class that starts at `i`. */
  function RunEnd(s: string, i: nat, inClass: char -> bool): (j: nat)
    requires i <= |s|
    ensures i <= j <= |s|
    ensures forall k :: i <= k < j ==> inClass(s[k])
    ensures j == |s| || !inClass(s[j])
    decreases |s| - i
  {
    if i == |s| || !inClass(s[i]) then i else RunEnd(s, i + 1, inClass)
  }

  /** The first position at or after `i` holding a character of the class, or |s|. */
  function Seek(s: string, i: nat, inClass: char -> bool): (j: nat)
    requires i <= |s|
    ensures i <= j <= |s|
    ensures forall k :: i <= k < j ==> !inClass(s[k])
    ensures j == |s| || inClass(s[j])
    decreases |s| - i
  {
    if i == |s| || inClass(s[i]) then i else Seek(s, i + 1, inClass)
  }

  /** A run is determined by where its characters stop. */
  lemma RunEndUnique(s: string, i: nat, j: nat, inClass: char -> bool)
    requires i <= j <= |s|
    requires forall k :: i <= k < j ==> inClass(s[k])
    requires j == |s| || !inClass(s[j])
    ensures RunEnd(s, i, inClass) == j
  {
  }

  /** The first character of a class is determined by the characters before it. */
  lemma SeekUnique(s: string, i: nat, j: nat, inClass: char -> bool)
    requires i <= j <= |s|
    requires forall k :: i <= k < j ==> !inClass(s[k])
    requires j == |s| || inClass(s[j])
    ensures Seek(s, i, inClass) == j
  {
  }

  /** Dropping the last element of a concatenation drops it from the second part. */
  lemma DropLastOfAppend<T>(x: seq<T>, y: seq<T>)
    requires y != []
    ensures (x + y)[..|x + y| - 1] == x + y[..|y| - 1]
    ensures (x + y)[|x + y| - 1] == y[|y| - 1]
  {
  }

  /** From position p on, s holds a, a dot, b, a dot, c, and then post up to its end. */
  ghost predicate Placed<T>(s: seq<T>, p: nat, a: seq<T>, b: seq<T>, c: seq<T>, post: seq<T>, dot: T)
  {
    var d1 := p + |a|;
    var d2 := d1 + 1 + |b|;
    var e := d2 + 1 + |c|;
    && |s| == e + |post|
    && s[p..d1] == a && s[d1] == dot
    && s[d1 + 1..d2] == b && s[d2] == dot
    && s[d2 + 1..e] == c && s[e..] == post
  }

  /** Where the parts of `pre a . b . c post` lie. */
  lemma DottedSlices<T>(pre: seq<T>, a: seq<T>, b: seq<T>, c: seq<T>, post: seq<T>, dot: T)
    ensures Placed(pre + a + [dot] + b + [dot] + c + post, |pre|, a, b, c, post, dot)
  {
    var s := pre + a + [dot] + b + [dot] + c + post;
    var d1 := |pre| + |a|;
    var d2 := d1 + 1 + |b|;
    var e := d2 + 1 + |c|;
    assert s[|pre|..d1] == a;
    assert s[d1 + 1..d2] == b;
    assert s[d2 + 1..e] == c;
    assert s[e..] == post;
  }

  /** Two words on consecutive lines read as the two words joined by a space once breaks become spaces. */
  lemma JoinedAcrossBreak(before: string, x: string, y: string, after: string)
    requires '\n' !in x && '\n' !in y
    ensures OccursAt(Replace(before + x + "\n" + y + after, '\n', ' '), x + " " + y, |before|)
  {
    var s := before + x + "\n" + y + after;
    var r := Replace(s, '\n', ' ');
    var w := x + " " + y;
    var p := |before|;
    forall i | 0 <= i < |w| ensures r[p + i] == w[i] {
      if i < |x| {
        assert s[p + i] == x[i];
      } else if i == |x| {
        assert s[p + i] == '\n';
      } else {
        assert s[p + i] == y[i - |x| - 1];
      }
    }
    assert r[p..][..|w|] == w;
  }

  /** Concatenation regrouped around a break `br` between two words `x` and `y`. */
  lemma RegroupBreak<T>(head: seq<T>, before: seq<T>, x: seq<T>, y: seq<T>, after: seq<T>, br: seq<T>)
    ensures before + x + br + y + after == before + (x + br + y) + after
    ensures head + br + (before + (x + br + y) + after) == head + br + before + (x + br + y) + after
  {
  }

  /** A slice of a slice is a slice of the whole. */
  lemma SliceOfSlice<T>(s: seq<T>, i: nat, j: nat, k: nat, l: nat)
    requires i <= j <= |s| && k <= l <= j - i
    ensures s[i..j][k..l] == s[i + k..i + l]
  {
    var u := s[i..j][k..l];
    forall x | 0 <= x < l - k
      ensures u[x] == s[i + k + x]
    {
      assert u[x] == s[i..j][k + x];
    }
  }

  /** Where the parts of `a . b . c` lie. */
  lemma ThreeSlices<T>(a: seq<T>, b: seq<T>, c: seq<T>, dot: T)
    ensures
      var t := a + [dot] + b + [dot] + c;
      t[..|a|] == a && t[|a| + 1..|a| + 1 + |b|] == b && t[|a| + 1 + |b| + 1..] == c
  {
  }
}
