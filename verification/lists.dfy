/** Generic facts about sequences: mapping a function over a sequence, and positions in
    concatenations. */
module Lists {

  /** `f` applied to every element, in order. */
  function Map<A, B>(f: A -> B, s: seq<A>): seq<B>
  {
    seq(|s|, i requires 0 <= i < |s| => f(s[i]))
  }

  lemma MapAppend<A, B>(f: A -> B, s: seq<A>, t: seq<A>)
    ensures Map(f, s + t) == Map(f, s) + Map(f, t)
  {
  }

  /** Element `k` of the mapped sequence is `f` of element `k`. */
  lemma MapAt<A, B>(f: A -> B, s: seq<A>, k: nat, x: A)
    requires k < |s| && s[k] == x
    ensures |Map(f, s)| == |s| && Map(f, s)[k] == f(x)
  {
  }

  /** Position `|front| + k` of `front + mid + back` is position `k` of `mid`. */
  lemma Within<T>(front: seq<T>, mid: seq<T>, back: seq<T>, k: nat)
    requires k < |mid|
    ensures |front| + k < |front + mid + back| && (front + mid + back)[|front| + k] == mid[k]
  {
  }

  /** Mapping one more element adds its image at the end. */
  lemma MapSnoc<A, B>(f: A -> B, s: seq<A>, x: A, y: B)
    requires y == f(x)
    ensures Map(f, s) + [y] == Map(f, s + [x])
  {
  }

  lemma AppendAssoc<T>(a: seq<T>, b: seq<T>, c: seq<T>)
    ensures a + b + c == a + (b + c)
  {
  }

  /** A prefix of a concatenation that ends inside its first part. */
  lemma PrefixOfAppend<T>(a: seq<T>, b: seq<T>, p: nat)
    requires p <= |a|
    ensures (a + b)[..p] == a[..p]
  {
  }

  /** A prefix of `front + mid + back` that ends inside `mid`. */
  lemma PrefixWithin<T>(front: seq<T>, mid: seq<T>, back: seq<T>, m: nat)
    requires m <= |mid|
    ensures |front| + m <= |front + mid + back| && (front + mid + back)[..|front| + m] == front + mid[..m]
  {
  }

  /** When `a + b` opens `s`, so does `a` followed by the first `m` elements of `b`. */
  lemma PrefixThrough<T>(s: seq<T>, a: seq<T>, b: seq<T>, m: nat)
    requires |a + b| <= |s| && s[..|a + b|] == a + b && m <= |b|
    ensures |a| + m <= |s| && s[..|a| + m] == a + b[..m]
  {
    assert s[..|a| + m] == (a + b)[..|a| + m];
  }

  /** A prefix of a prefix. */
  lemma PrefixOfPrefix<T>(s: seq<T>, k: nat, m: nat)
    requires m <= k <= |s|
    ensures s[..k][..m] == s[..m]
  {
  }

  /** Mapping commutes with taking a prefix. */
  lemma MapPrefix<A, B>(f: A -> B, s: seq<A>, k: nat)
    requires k <= |s|
    ensures |Map(f, s)| == |s| && Map(f, s)[..k] == Map(f, s[..k])
  {
  }
}
