/** String primitives of the JavaScript runtime that the extension relies on:
    prefix and substring tests, `String.prototype.indexOf`,
    `String.prototype.substring(start)` and `Array.prototype.join`. */
module Strings {

  /** `s` begins with `prefix`. */
  predicate StartsWith(s: string, prefix: string)
  {
    |prefix| <= |s| && s[..|prefix|] == prefix
  }

  /** `pat` occurs somewhere in `s` (an unanchored search, as a regular
      expression without anchors performs it). */
  predicate Contains(s: string, pat: string)
  {
    exists i | 0 <= i <= |s| :: StartsWith(s[i..], pat)
  }

  /** `String.prototype.indexOf`: the position of the first occurrence of
      `pat` in `s`, or -1 when there is none. */
  function IndexOf(s: string, pat: string): (r: int)
    ensures -1 <= r <= |s|
    ensures r == -1 <==> !Contains(s, pat)
    ensures r >= 0 ==> StartsWith(s[r..], pat)
    ensures r >= 0 ==> forall j :: 0 <= j < r ==> !StartsWith(s[j..], pat)
  {
    if StartsWith(s, pat) then
      assert s[0..] == s;
      0
    else if s == [] then
      -1
    else
      var k := IndexOf(s[1..], pat);
      assert forall j :: 1 <= j <= |s| ==> s[1..][j - 1..] == s[j..];
      if k == -1 then -1 else k + 1
  }

  /** `String.prototype.substring(start)` with one argument: a negative start
      counts as 0 and a start past the end as the length. */
  function Substring(s: string, start: int): (r: string)
    ensures start <= 0 ==> r == s
    ensures 0 <= start <= |s| ==> r == s[start..]
    ensures |s| <= start ==> r == []
  {
    if start < 0 then s
    else if start > |s| then []
    else s[start..]
  }

  /** `Array.prototype.join(sep)`. */
  function Join(xs: seq<string>, sep: string): (r: string)
    ensures xs == [] ==> r == []
    ensures xs != [] ==> |r| + |sep| == JoinOffset(xs, sep, |xs|)
  {
    if xs == [] then []
    else if |xs| == 1 then xs[0]
    else
      JoinOffsetShift(xs, sep, |xs| - 1);
      xs[0] + sep + Join(xs[1..], sep)
  }

  /** The elements one after the other, with nothing in between. */
  function Concat(xs: seq<string>): string
  {
    if xs == [] then [] else xs[0] + Concat(xs[1..])
  }

  /** Where the `i`-th element starts in `Join(xs, sep)`. */
  function JoinOffset(xs: seq<string>, sep: string, i: nat): nat
    requires i <= |xs|
  {
    if i == 0 then 0 else JoinOffset(xs, sep, i - 1) + |xs[i - 1]| + |sep|
  }

  /** The joined string is read back element by element: the `i`-th element
      sits at `JoinOffset(xs, sep, i)`, followed by `sep` when another
      element comes after it, and nothing else is in between. */
  lemma {:induction false} JoinLayout(xs: seq<string>, sep: string, i: nat)
    requires i < |xs|
    ensures JoinOffset(xs, sep, i) + |xs[i]| <= |Join(xs, sep)|
    ensures Join(xs, sep)[JoinOffset(xs, sep, i)..JoinOffset(xs, sep, i) + |xs[i]|] == xs[i]
    ensures i + 1 < |xs| ==>
      JoinOffset(xs, sep, i + 1) <= |Join(xs, sep)| &&
      Join(xs, sep)[JoinOffset(xs, sep, i) + |xs[i]|..JoinOffset(xs, sep, i + 1)] == sep
    ensures i + 1 == |xs| ==> JoinOffset(xs, sep, i) + |xs[i]| == |Join(xs, sep)|
  {
    JoinElementAt(xs, sep, i);
    if i + 1 < |xs| {
      JoinSeparatorAfter(xs, sep, i);
    }
  }

  lemma {:induction false} JoinElementAt(xs: seq<string>, sep: string, i: nat)
    requires i < |xs|
    ensures JoinOffset(xs, sep, i) + |xs[i]| <= |Join(xs, sep)|
    ensures Join(xs, sep)[JoinOffset(xs, sep, i)..JoinOffset(xs, sep, i) + |xs[i]|] == xs[i]
  {
    var joined := Join(xs, sep);
    if |xs| == 1 {
      assert joined == xs[0];
    } else {
      var rest := Join(xs[1..], sep);
      var head := xs[0] + sep;
      assert joined == head + rest;
      if i == 0 {
        assert joined[0..|xs[0]|] == head[0..|xs[0]|];
      } else {
        assert xs[1..][i - 1] == xs[i];
        JoinElementAt(xs[1..], sep, i - 1);
        JoinOffsetShift(xs, sep, i - 1);
        var off := JoinOffset(xs[1..], sep, i - 1);
        SliceAfter(head, rest, off, off + |xs[i]|);
      }
    }
  }

  lemma {:induction false} JoinSeparatorAfter(xs: seq<string>, sep: string, i: nat)
    requires i + 1 < |xs|
    ensures JoinOffset(xs, sep, i + 1) <= |Join(xs, sep)|
    ensures Join(xs, sep)[JoinOffset(xs, sep, i) + |xs[i]|..JoinOffset(xs, sep, i + 1)] == sep
  {
    var joined := Join(xs, sep);
    var rest := Join(xs[1..], sep);
    var head := xs[0] + sep;
    assert joined == head + rest;
    if i == 0 {
      assert JoinOffset(xs, sep, 1) == |head|;
      assert joined[|xs[0]|..|head|] == head[|xs[0]|..];
    } else {
      assert xs[1..][i - 1] == xs[i];
      JoinSeparatorAfter(xs[1..], sep, i - 1);
      JoinOffsetShift(xs, sep, i - 1);
      JoinOffsetShift(xs, sep, i);
      var off := JoinOffset(xs[1..], sep, i - 1);
      SliceAfter(head, rest, off + |xs[i]|, JoinOffset(xs[1..], sep, i));
    }
  }

  /** A slice of the part after `a` in `a + b`. */
  lemma SliceAfter(a: string, b: string, i: nat, j: nat)
    requires i <= j <= |b|
    ensures (a + b)[|a| + i..|a| + j] == b[i..j]
  {
  }

  /** `s` starts with `pre` and holds element `i` of the joined `xs` at its
      offset after `pre`, followed by `sep` or, after the last element, by
      exactly `suf`. */
  predicate JoinedAt(s: string, pre: string, xs: seq<string>, sep: string, suf: string, i: nat)
    requires i < |xs|
  {
    var start := |pre| + JoinOffset(xs, sep, i);
    var end := start + |xs[i]|;
    StartsWith(s, pre) &&
    end <= |s| && s[start..end] == xs[i] &&
    (i + 1 < |xs| ==> end + |sep| <= |s| && s[end..end + |sep|] == sep) &&
    (i + 1 == |xs| ==> s[end..] == suf)
  }

  /** The same layout seen inside a longer string that wraps the join. */
  lemma {:induction false} JoinLayoutWithin(pre: string, xs: seq<string>, sep: string, suf: string, i: nat)
    requires i < |xs|
    ensures JoinedAt(pre + Join(xs, sep) + suf, pre, xs, sep, suf, i)
  {
    var joined := Join(xs, sep);
    var s := pre + joined + suf;
    JoinLayout(xs, sep, i);
    var off := JoinOffset(xs, sep, i);
    var len := |xs[i]|;
    assert StartsWith(s, pre) && s[|pre| + off..|pre| + off + len] == xs[i] by {
      Wrapped(pre, joined, suf, off, off + len);
    }
    if i + 1 < |xs| {
      assert s[|pre| + off + len..|pre| + off + len + |sep|] == sep by {
        Wrapped(pre, joined, suf, off + len, off + len + |sep|);
      }
    } else {
      assert s[|pre| + off + len..] == suf by {
        Wrapped(pre, joined, suf, off + len, |joined|);
      }
    }
  }

  /** Inside `pre + mid + suf`, `pre` comes first, a slice of `mid` sits
      `|pre|` further on, and `suf` follows the end of `mid`. */
  lemma {:induction false} Wrapped(pre: string, mid: string, suf: string, a: nat, b: nat)
    requires a <= b <= |mid|
    ensures StartsWith(pre + mid + suf, pre)
    ensures (pre + mid + suf)[|pre| + a..|pre| + b] == mid[a..b]
    ensures b == |mid| ==> (pre + mid + suf)[|pre| + a..] == mid[a..] + suf
  {
    var s := pre + mid + suf;
    assert s[..|pre|] == pre;
  }

  /** Dropping the first element moves every offset back by it and one separator. */
  lemma {:induction false} JoinOffsetShift(xs: seq<string>, sep: string, i: nat)
    requires 0 < |xs| && i < |xs|
    ensures JoinOffset(xs, sep, i + 1) == |xs[0]| + |sep| + JoinOffset(xs[1..], sep, i)
  {
    if i > 0 {
      JoinOffsetShift(xs, sep, i - 1);
    }
  }
}
