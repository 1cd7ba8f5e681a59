/** The handful of Python 2 `str` operations the converter relies on, on `seq<char>`:
    `rstrip()`, `strip(c)`, `split(c)`, `find(sub, start)` and slicing with possibly
    negative bounds. */
module PyStr {

  /** The characters Python 2's `str.isspace` accepts, which `rstrip()` removes. */
  predicate IsSpace(c: char)
  {
    c == ' ' || c == '\t' || c == '\n' || c == '\r' || c == '\U{000B}' || c == '\U{000C}'
  }

  /** `s.rstrip()`: the longest prefix of `s` that does not end in white space. */
  function RStrip(s: string): (r: string)
    ensures |r| <= |s| && r == s[..|r|]
    ensures r == [] || !IsSpace(r[|r| - 1])
  {
    if |s| > 0 && IsSpace(s[|s| - 1]) then RStrip(s[..|s| - 1]) else s
  }

  /** `c` repeated `n` times. */
  function Repeat(c: char, n: nat): (r: string)
    ensures |r| == n && forall i :: 0 <= i < n ==> r[i] == c
  {
    seq(n, _ => c)
  }

  /** `s.lstrip(c)`: drops every leading `c`. */
  function TrimLeft(s: string, c: char): (r: string)
    ensures |r| <= |s| && r == s[|s| - |r|..]
    ensures r == [] || r[0] != c
  {
    if |s| > 0 && s[0] == c then TrimLeft(s[1..], c) else s
  }

  /** `s.rstrip(c)`: drops every trailing `c`. */
  function TrimRight(s: string, c: char): (r: string)
    ensures |r| <= |s| && r == s[..|r|]
    ensures r == [] || r[|r| - 1] != c
  {
    if |s| > 0 && s[|s| - 1] == c then TrimRight(s[..|s| - 1], c) else s
  }

  /** `s.strip(c)` for a one-character argument: every leading and trailing `c` is removed,
      not only one surrounding pair. */
  function Strip(s: string, c: char): (r: string)
    ensures |r| <= |s|
    ensures r == [] || (r[0] != c && r[|r| - 1] != c)
  {
    TrimRight(TrimLeft(s, c), c)
  }

  lemma {:induction false} TrimLeftExact(c: char, k: nat, w: string)
    requires w == [] || w[0] != c
    ensures TrimLeft(Repeat(c, k) + w, c) == w
    decreases k
  {
    if k > 0 {
      assert (Repeat(c, k) + w)[1..] == Repeat(c, k - 1) + w;
      TrimLeftExact(c, k - 1, w);
    } else {
      assert Repeat(c, k) + w == w;
    }
  }

  lemma {:induction false} TrimRightExact(c: char, w: string, m: nat)
    requires w == [] || w[|w| - 1] != c
    ensures TrimRight(w + Repeat(c, m), c) == w
    decreases m
  {
    if m > 0 {
      assert (w + Repeat(c, m))[..|w| + m - 1] == w + Repeat(c, m - 1);
      TrimRightExact(c, w, m - 1);
    } else {
      assert w + Repeat(c, m) == w;
    }
  }

  /** `strip` recovers exactly the text between any runs of `c` that surround it,
      provided that text neither starts nor ends with `c`. */
  lemma StripExact(c: char, k: nat, w: string, m: nat)
    requires w == [] || (w[0] != c && w[|w| - 1] != c)
    ensures Strip(Repeat(c, k) + w + Repeat(c, m), c) == w
  {
    if w == [] {
      assert Repeat(c, k) + w + Repeat(c, m) == Repeat(c, k + m) + [];
      TrimLeftExact(c, k + m, []);
      TrimRightExact(c, [], 0);
    } else {
      assert Repeat(c, k) + w + Repeat(c, m) == Repeat(c, k) + (w + Repeat(c, m));
      TrimLeftExact(c, k, w + Repeat(c, m));
      TrimRightExact(c, w, m);
    }
  }

  /** `sep.join(parts)`. */
  function Join(parts: seq<string>, sep: char): string
    requires |parts| >= 1
  {
    if |parts| == 1 then parts[0] else parts[0] + [sep] + Join(parts[1..], sep)
  }

  /** `s.split(sep)` with an explicit one-character separator: never empty. */
  function Split(s: string, sep: char): (r: seq<string>)
    ensures |r| >= 1
  {
    if |s| == 0 then [[]]
    else
      var rest := Split(s[1..], sep);
      if s[0] == sep then [[]] + rest
      else [[s[0]] + rest[0]] + rest[1..]
  }

  /** Joining the pieces of a split with the separator gives the string back. */
  lemma {:induction false} JoinSplit(s: string, sep: char)
    ensures Join(Split(s, sep), sep) == s
    decreases |s|
  {
    if |s| > 0 {
      var rest := Split(s[1..], sep);
      JoinSplit(s[1..], sep);
      if s[0] != sep {
        var r := [[s[0]] + rest[0]] + rest[1..];
        if |rest| > 1 {
          assert r[1..] == rest[1..];
        }
      }
    }
  }

  /** Splitting a joined list gives the list back when no part holds the separator. */
  lemma {:induction false} SplitJoin(parts: seq<string>, sep: char)
    requires |parts| >= 1
    requires forall i :: 0 <= i < |parts| ==> sep !in parts[i]
    ensures Split(Join(parts, sep), sep) == parts
    decreases |Join(parts, sep)|
  {
    var head := parts[0];
    if head == [] {
      if |parts| > 1 {
        assert Join(parts, sep) == [sep] + Join(parts[1..], sep);
        assert Join(parts, sep)[1..] == Join(parts[1..], sep);
        SplitJoin(parts[1..], sep);
      }
    } else {
      var shorter := [head[1..]] + parts[1..];
      assert shorter[1..] == parts[1..];
      assert Join(parts, sep) == [head[0]] + Join(shorter, sep);
      assert Join(parts, sep)[1..] == Join(shorter, sep);
      SplitJoin(shorter, sep);
      assert [head[0]] + head[1..] == head;
    }
  }

  /** `m` occurs in `s` starting at position `k`. */
  predicate OccursAt(s: string, m: string, k: int)
  {
    0 <= k && k + |m| <= |s| && s[k..k + |m|] == m
  }

  /** `s.find(m, start)`: the first position at or after `start` where `m` occurs, or -1. */
  function Find(s: string, m: string, start: nat): (r: int)
    ensures -1 <= r
    ensures r >= 0 ==> start <= r && OccursAt(s, m, r)
    ensures forall k :: start <= k && (r < 0 || k < r) ==> !OccursAt(s, m, k)
    decreases |s| - start
  {
    if start + |m| > |s| then -1
    else if s[start..start + |m|] == m then start
    else Find(s, m, start + 1)
  }

  /** A one-character string occurs exactly where that character stands. */
  lemma OccursAtChar(s: string, c: char, k: int)
    requires 0 <= k < |s|
    ensures OccursAt(s, [c], k) <==> s[k] == c
  {
    assert s[k..k + 1] == [s[k]];
  }

  /** The position Python uses for slice bound `i` of a string of length `n`:
      a negative bound counts from the end, and the result is clamped to `0..n`. */
  function SliceBound(i: int, n: nat): (b: nat)
    ensures b <= n
    ensures 0 <= i <= n ==> b == i
    ensures i < 0 && 0 <= i + n ==> b == i + n
    ensures i + n < 0 ==> b == 0
    ensures n < i ==> b == n
  {
    if i < 0 then (if i + n < 0 then 0 else i + n) else if i > n then n else i
  }
}
