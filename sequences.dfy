/** Facts about sequences and multisets used by the search proofs. */
module Sequences {
  /** The sequence of `f`'s values on the elements of `s`, in order. */
  function Project<A, B>(s: seq<A>, f: A -> B): (r: seq<B>)
    ensures |r| == |s|
  {
    if s == [] then [] else [f(s[0])] + Project(s[1..], f)
  }
  /** Projection distributes over concatenation. */
  lemma {:induction false} ProjectConcat<A, B>(a: seq<A>, b: seq<A>, f: A -> B)
    ensures Project(a + b, f) == Project(a, f) + Project(b, f)
  {
    if a == [] {
      assert a + b == b;
    } else {
      assert (a + b)[0] == a[0];
      assert (a + b)[1..] == a[1..] + b;
      ProjectConcat(a[1..], b, f);
    }
  }

  /** Projecting one more element appends its image. */
  lemma ProjectAppend<A, B>(s: seq<A>, x: A, f: A -> B)
    ensures Project(s + [x], f) == Project(s, f) + [f(x)]
  {
    ProjectConcat(s, [x], f);
    assert Project([x], f) == [f(x)] + Project([x][1..], f);
  }

  /** The image at each position is `f` of the element at that position. */
  lemma {:induction false} ProjectIndex<A, B>(s: seq<A>, f: A -> B, i: nat)
    requires i < |s|
    ensures Project(s, f)[i] == f(s[i])
  {
    if i > 0 {
      ProjectIndex(s[1..], f, i - 1);
    }
  }

  /** Removing one element removes its image from the multiset of images. */
  lemma ProjectRemoveOne<A, B>(b: seq<A>, i: nat, f: A -> B)
    requires i < |b|
    ensures multiset(Project(b, f)) == multiset(Project(b[..i] + b[i + 1..], f)) + multiset{f(b[i])}
  {
    var front, back := b[..i], b[i + 1..];
    assert b == front + ([b[i]] + back);
    ProjectConcat(front, [b[i]] + back, f);
    ProjectConcat([b[i]], back, f);
    assert Project([b[i]], f) == [f(b[i])] + Project([b[i]][1..], f);
    ProjectConcat(front, back, f);
  }

  /** Cancelling a common element from both sides of a multiset inclusion. */
  lemma CancelOne<T>(m: multiset<T>, n: multiset<T>, x: T)
    requires multiset{x} + m <= n + multiset{x}
    ensures m <= n
  {
    forall y ensures m[y] <= n[y] {
      assert (multiset{x} + m)[y] <= (n + multiset{x})[y];
    }
  }
  /** Removing the element at `i` removes one copy of it from the multiset. */
  lemma RemoveOne<T>(s: seq<T>, i: nat)
    requires i < |s|
    ensures multiset(s) == multiset(s[..i] + s[i + 1..]) + multiset{s[i]}
  {
    assert s == s[..i] + [s[i]] + s[i + 1..];
  }
  /** Images of a sub-multiset form a sub-multiset of the images. */
  lemma {:induction false} ProjectMonotone<A, B>(a: seq<A>, b: seq<A>, f: A -> B)
    requires multiset(a) <= multiset(b)
    ensures multiset(Project(a, f)) <= multiset(Project(b, f))
    decreases |a|
  {
    if a != [] {
      var x := a[0];
      assert x in multiset(b);
      var i :| 0 <= i < |b| && b[i] == x;
      var b' := b[..i] + b[i + 1..];
      RemoveOne(b, i);
      assert a == [x] + a[1..];
      CancelOne(multiset(a[1..]), multiset(b'), x);
      ProjectMonotone(a[1..], b', f);
      ProjectRemoveOne(b, i, f);
      assert Project(a, f) == [f(x)] + Project(a[1..], f);
    }
  }
}
