/** The JavaScript string operations the modelled code relies on, on
    `string` (a sequence of characters): `slice`, `padStart`/`padEnd`, the
    `/0+$/` replacement, `split`/`join`, and the `<`/`>` comparison that both
    `a.id > b.id` and the default `Array.prototype.sort` use. */
module Strings {

  function Repeat(c: char, n: nat): (r: string)
    ensures |r| == n
    ensures forall i :: 0 <= i < n ==> r[i] == c
  {
    seq(n, _ => c)
  }

  /** The index a relative `slice` argument denotes: negative counts from the end. */
  function RelativeIndex(i: int, len: nat): (r: nat)
    ensures r <= len
    ensures 0 <= i <= len ==> r == i
    ensures -(len as int) <= i < 0 ==> r == len + i
  {
    if i < 0 then (if len + i < 0 then 0 else len + i)
    else if i > len then len
    else i
  }

  /** s.slice(start, end) */
  function Slice(s: string, start: int, end: int): (r: string)
    ensures var from, to := RelativeIndex(start, |s|), RelativeIndex(end, |s|);
      r == if from < to then s[from..to] else []
  {
    var from, to := RelativeIndex(start, |s|), RelativeIndex(end, |s|);
    if from < to then s[from..to] else []
  }

  /** s.padStart(n, c): a target length at or below |s| leaves s alone. */
  function PadStart(s: string, n: int, c: char): (r: string)
    ensures |r| == if |s| >= n then |s| else n
    ensures r[|r| - |s|..] == s
    ensures forall i :: 0 <= i < |r| - |s| ==> r[i] == c
  {
    if |s| >= n then s else Repeat(c, n - |s|) + s
  }

  /** s.padEnd(n, c) */
  function PadEnd(s: string, n: int, c: char): (r: string)
    ensures |r| == if |s| >= n then |s| else n
    ensures r[..|s|] == s
    ensures forall i :: |s| <= i < |r| ==> r[i] == c
  {
    if |s| >= n then s else s + Repeat(c, n - |s|)
  }

  /** s.replace(/c+$/, ""): the longest prefix of s that does not end in c. */
  function TrimTrailing(s: string, c: char): (r: string)
    ensures |r| <= |s| && s == r + Repeat(c, |s| - |r|)
    ensures r == [] || r[|r| - 1] != c
  {
    if |s| > 0 && s[|s| - 1] == c then
      var r := TrimTrailing(s[..|s| - 1], c);
      assert s == s[..|s| - 1] + [c];
      assert Repeat(c, |s| - 1 - |r|) + [c] == Repeat(c, |s| - |r|);
      r
    else s
  }

  /** s.split(c) for a one-character separator: the maximal runs between separators. */
  function Split(s: string, c: char): (parts: seq<string>)
    ensures |parts| >= 1
    ensures forall k :: 0 <= k < |parts| ==> c !in parts[k]
    decreases |s|
  {
    if c !in s then [s]
    else
      var i := IndexOf(s, c);
      [s[..i]] + Split(s[i + 1..], c)
  }

  /** The index of the first c in s. */
  function IndexOf(s: string, c: char): (i: nat)
    requires c in s
    ensures i < |s| && s[i] == c && c !in s[..i]
  {
    if s[0] == c then 0 else 1 + IndexOf(s[1..], c)
  }

  /** parts.join([c]) */
  function Join(parts: seq<string>, c: char): (s: string)
    ensures |parts| == 1 ==> s == parts[0]
  {
    if |parts| == 0 then []
    else if |parts| == 1 then parts[0]
    else parts[0] + [c] + Join(parts[1..], c)
  }

  /** parts.filter(Boolean).join([c]): the empty strings are dropped first. */
  function JoinNonEmpty(parts: seq<string>, c: char): string {
    Join(NonEmpty(parts), c)
  }

  function NonEmpty(parts: seq<string>): (r: seq<string>)
    ensures forall k :: 0 <= k < |r| ==> r[k] != []
  {
    if parts == [] then []
    else if parts[0] == [] then NonEmpty(parts[1..])
    else [parts[0]] + NonEmpty(parts[1..])
  }

  /** split undoes join when no part holds the separator. */
  lemma {:induction false} SplitJoin(s: string, c: char)
    ensures Join(Split(s, c), c) == s
    decreases |s|
  {
    if c in s {
      var i := IndexOf(s, c);
      SplitJoin(s[i + 1..], c);
      var rest := Split(s[i + 1..], c);
      assert Split(s, c) == [s[..i]] + rest;
      assert Join(Split(s, c), c) == s[..i] + [c] + Join(rest, c);
      assert s == s[..i] + [c] + s[i + 1..];
    }
  }

  /** Splitting x + [c] + y where x holds no c peels off x. */
  lemma SplitAfter(x: string, c: char, y: string)
    requires c !in x
    ensures Split(x + [c] + y, c) == [x] + Split(y, c)
  {
    var s := x + [c] + y;
    assert c in s by { assert s[|x|] == c; }
    var i := IndexOf(s, c);
    assert i >= |x| by {
      assert forall j :: 0 <= j < |x| ==> s[j] == x[j];
    }
    assert i <= |x| by {
      assert s[|x|] == c;
      assert forall j :: 0 <= j < i ==> s[..i][j] == s[j];
    }
    assert s[..i] == x;
    assert s[i + 1..] == y;
  }

  /** JavaScript's `x < y` on strings: lexicographic on characters, a proper
      prefix before its extensions. */
  predicate Less(x: string, y: string) {
    if y == [] then false
    else if x == [] then true
    else if x[0] != y[0] then x[0] < y[0]
    else Less(x[1..], y[1..])
  }

  lemma {:induction false} LessIrreflexive(x: string)
    ensures !Less(x, x)
  {
    if x != [] {
      LessIrreflexive(x[1..]);
    }
  }

  /** Of two strings, exactly one is smaller, or they are equal. */
  lemma {:induction false} LessTrichotomy(x: string, y: string)
    ensures Less(x, y) || x == y || Less(y, x)
    ensures !(Less(x, y) && Less(y, x))
  {
    if x != [] && y != [] && x[0] == y[0] {
      LessTrichotomy(x[1..], y[1..]);
      if x[1..] == y[1..] {
        assert x == [x[0]] + x[1..] && y == [y[0]] + y[1..];
      }
    }
  }

  lemma {:induction false} LessTransitive(x: string, y: string, z: string)
    requires Less(x, y) && Less(y, z)
    ensures Less(x, z)
  {
    if x != [] && x[0] == y[0] && y[0] == z[0] {
      LessTransitive(x[1..], y[1..], z[1..]);
    }
  }
}
