// Sequences as arrangements of their members.
module Arrangements {

  lemma Associate<T>(a: seq<T>, b: seq<T>, c: seq<T>)
    ensures a + (b + c) == a + b + c && a + [] == a
  {
  }

  lemma AssociateFour<T>(a: seq<T>, b: seq<T>, c: seq<T>, d: seq<T>)
    ensures a + (b + c + d) == a + b + c + d == a + (b + (c + d))
  {
  }

  lemma SameLength<T>(a: seq<T>, b: seq<T>)
    requires multiset(a) == multiset(b)
    ensures |a| == |b|
  {
    assert |multiset(a)| == |a| && |multiset(b)| == |b|;
  }

  lemma MultisetOfTail<T>(a: seq<T>)
    requires a != []
    ensures multiset(a) == multiset{a[0]} + multiset(a[1..])
    ensures multiset(a[1..]) == multiset(a) - multiset{a[0]}
  {
    assert a == [a[0]] + a[1..];
  }

  lemma HeadOrTail<T>(s: seq<T>)
    requires s != []
    ensures s[0] in s
    ensures forall x :: x in s <==> x == s[0] || x in s[1..]
  {
    assert s == [s[0]] + s[1..];
  }

  /** A member taken out of a sequence. */
  lemma SplitAt<T>(s: seq<T>, x: T) returns (p: seq<T>, q: seq<T>)
    requires x in s
    ensures s == p + [x] + q
    ensures multiset(s) == multiset{x} + multiset(p + q)
    ensures forall y :: y in p + q ==> y in s
  {
    var j :| 0 <= j < |s| && s[j] == x;
    p, q := s[..j], s[j + 1..];
    assert s == p + [x] + q;
  }

  lemma Cancel<T>(x: T, m: multiset<T>, n: multiset<T>)
    requires multiset{x} + m == multiset{x} + n
    ensures m == n
  {
    assert m == multiset{x} + m - multiset{x};
    assert n == multiset{x} + n - multiset{x};
  }

  /** The head of one arrangement taken out of another. */
  lemma TakeOut<T>(a: seq<T>, b: seq<T>) returns (p: seq<T>, q: seq<T>)
    requires a != [] && multiset(a) == multiset(b)
    ensures b == p + [a[0]] + q
    ensures multiset(a[1..]) == multiset(p + q)
  {
    assert a[0] in multiset(b);
    p, q := SplitAt(b, a[0]);
    MultisetOfTail(a);
    Cancel(a[0], multiset(a[1..]), multiset(p + q));
  }

  // ---------- Images of sequences ----------

  function Map<A, B>(f: A -> B, s: seq<A>): (r: seq<B>)
    ensures |r| == |s| && forall i :: 0 <= i < |s| ==> r[i] == f(s[i])
  {
    seq(|s|, i requires 0 <= i < |s| => f(s[i]))
  }

  lemma MapMiddle<A, B>(f: A -> B, p: seq<A>, y: A, q: seq<A>)
    ensures multiset(Map(f, p + [y] + q)) == multiset{f(y)} + multiset(Map(f, p + q))
  {
    assert Map(f, p + [y] + q) == Map(f, p) + [f(y)] + Map(f, q);
    assert Map(f, p + q) == Map(f, p) + Map(f, q);
  }

  lemma MapTail<A, B>(f: A -> B, s: seq<A>)
    requires s != []
    ensures multiset(Map(f, s)) == multiset{f(s[0])} + multiset(Map(f, s[1..]))
  {
    MultisetOfTail(Map(f, s));
    assert Map(f, s)[1..] == Map(f, s[1..]);
  }

  /** Rearranging a sequence rearranges its image. */
  lemma {:induction false} MapPermute<A, B>(f: A -> B, a: seq<A>, b: seq<A>)
    requires multiset(a) == multiset(b)
    ensures multiset(Map(f, a)) == multiset(Map(f, b))
    decreases |a|
  {
    SameLength(a, b);
    if a != [] {
      var p, q := TakeOut(a, b);
      MapMiddle(f, p, a[0], q);
      MapTail(f, a);
      MapPermute(f, a[1..], p + q);
    }
  }

  /** No member of a has the image of a different member of b. */
  ghost predicate ToldApart<A, B>(f: A -> B, a: seq<A>, b: seq<A>) {
    forall x, y :: x in a && y in b && f(x) == f(y) ==> x == y
  }

  /** Sequences told apart by f are rearrangements of each other when their images are. */
  lemma {:induction false} MatchMembers<A, B>(f: A -> B, a: seq<A>, b: seq<A>)
    requires ToldApart(f, a, b) && multiset(Map(f, a)) == multiset(Map(f, b))
    ensures multiset(a) == multiset(b)
    decreases |a|
  {
    SameLength(Map(f, a), Map(f, b));
    if a != [] {
      HeadShared(f, a, b);
      var p, q := SplitAt(b, a[0]);
      ToldApartTail(f, a, b, p + q);
      MapMiddle(f, p, a[0], q);
      MapTail(f, a);
      Cancel(f(a[0]), multiset(Map(f, a[1..])), multiset(Map(f, p + q)));
      MatchMembers(f, a[1..], p + q);
      MultisetOfTail(a);
    }
  }

  lemma ToldApartTail<A, B>(f: A -> B, a: seq<A>, b: seq<A>, c: seq<A>)
    requires a != [] && ToldApart(f, a, b) && forall y :: y in c ==> y in b
    ensures ToldApart(f, a[1..], c)
  {
    HeadOrTail(a);
  }

  lemma HeadShared<A, B>(f: A -> B, a: seq<A>, b: seq<A>)
    requires a != [] && ToldApart(f, a, b) && multiset(Map(f, a)) == multiset(Map(f, b))
    ensures a[0] in b
  {
    assert Map(f, a)[0] in multiset(Map(f, b));
    var j :| 0 <= j < |b| && Map(f, b)[j] == f(a[0]);
    assert a[0] in a && b[j] in b;
  }

  // ---------- What the members contribute, in order ----------

  function Collect<A, B>(f: A -> seq<B>, s: seq<A>): seq<B> {
    if s == [] then [] else f(s[0]) + Collect(f, s[1..])
  }

  lemma {:induction false} CollectAppend<A, B>(f: A -> seq<B>, a: seq<A>, b: seq<A>)
    ensures Collect(f, a + b) == Collect(f, a) + Collect(f, b)
  {
    if a == [] {
      assert a + b == b;
    } else {
      assert (a + b)[1..] == a[1..] + b;
      CollectAppend(f, a[1..], b);
    }
  }

  lemma CollectOne<A, B>(f: A -> seq<B>, x: A)
    ensures Collect(f, [x]) == f(x)
  {
    assert [x][1..] == [];
  }

  lemma {:induction false} CollectMiddle<A, B>(f: A -> seq<B>, p: seq<A>, y: A, q: seq<A>)
    ensures multiset(Collect(f, p + [y] + q)) == multiset(f(y)) + multiset(Collect(f, p + q))
  {
    hide *;
    CollectAppend(f, p + [y], q);
    CollectAppend(f, p, [y]);
    CollectAppend(f, p, q);
    CollectOne(f, y);
  }

  /** Rearranged members contribute the same, rearranged. */
  lemma {:induction false} CollectPermute<A, B>(f: A -> seq<B>, a: seq<A>, b: seq<A>)
    requires multiset(a) == multiset(b)
    ensures multiset(Collect(f, a)) == multiset(Collect(f, b))
    decreases |a|
  {
    SameLength(a, b);
    if a != [] {
      var p, q := TakeOut(a, b);
      CollectMiddle(f, p, a[0], q);
      CollectPermute(f, a[1..], p + q);
    }
  }

  lemma {:induction false} CollectMembers<A, B>(f: A -> seq<B>, s: seq<A>, y: B)
    ensures y in Collect(f, s) <==> exists x :: x in s && y in f(x)
  {
    if s != [] {
      HeadOrTail(s);
      CollectMembers(f, s[1..], y);
    }
  }

  lemma CollectStep<A, B>(f: A -> seq<B>, s: seq<A>, i: nat)
    requires i < |s|
    ensures Collect(f, s[..i + 1]) == Collect(f, s[..i]) + f(s[i])
  {
    assert s[..i + 1] == s[..i] + [s[i]];
    CollectAppend(f, s[..i], [s[i]]);
    CollectOne(f, s[i]);
  }
}
