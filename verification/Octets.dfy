// Octets, the values that stand for Rust's Option and Result, and the order of Vec<u8>.
module Octets {
  import opened Arrangements

  newtype byte = b: int | 0 <= b < 0x100

  type Bytes = seq<byte>

  datatype Option<+T> = None | Some(value: T)

  datatype Result<+T, +E> = Ok(value: T) | Err(error: E) {
    predicate IsFailure() { Err? }

    function PropagateFailure<U>(): Result<U, E>
      requires Err?
    {
      Err(error)
    }

    function Extract(): T
      requires Ok?
    {
      value
    }
  }

  /** The concatenation of all parts, as `into_iter().flatten().collect()` builds it. */
  function Concat(parts: seq<Bytes>): Bytes {
    if parts == [] then [] else parts[0] + Concat(parts[1..])
  }

  lemma {:induction false} ConcatAppend(a: seq<Bytes>, b: seq<Bytes>)
    ensures Concat(a + b) == Concat(a) + Concat(b)
  {
    if a == [] {
      assert a + b == b;
    } else {
      assert (a + b)[1..] == a[1..] + b;
      ConcatAppend(a[1..], b);
    }
  }

  lemma {:induction false} ConcatSnoc(a: seq<Bytes>, x: Bytes)
    ensures Concat(a + [x]) == Concat(a) + x
  {
    ConcatAppend(a, [x]);
    assert Concat([x]) == x;
  }

  // ---------- The order of byte vectors ----------

  /** Lexicographic order on octets, a proper prefix being smaller: `Ord` of Vec<u8>. */
  predicate Lte(a: Bytes, b: Bytes) {
    a == [] || (b != [] && (a[0] < b[0] || (a[0] == b[0] && Lte(a[1..], b[1..]))))
  }

  lemma {:induction false} LteReflexive(a: Bytes)
    ensures Lte(a, a)
  {
    if a != [] {
      LteReflexive(a[1..]);
    }
  }

  lemma {:induction false} LteTotal(a: Bytes, b: Bytes)
    ensures Lte(a, b) || Lte(b, a)
  {
    if a != [] && b != [] {
      LteTotal(a[1..], b[1..]);
    }
  }

  lemma {:induction false} LteAntisymmetric(a: Bytes, b: Bytes)
    requires Lte(a, b) && Lte(b, a)
    ensures a == b
  {
    if a != [] {
      LteAntisymmetric(a[1..], b[1..]);
      assert a == [a[0]] + a[1..] && b == [b[0]] + b[1..];
    }
  }

  lemma {:induction false} LteTransitive(a: Bytes, b: Bytes, c: Bytes)
    requires Lte(a, b) && Lte(b, c)
    ensures Lte(a, c)
  {
    if a != [] && a[0] == b[0] == c[0] {
      LteTransitive(a[1..], b[1..], c[1..]);
    }
  }

  /** a starts b, or is smaller at the first octet in which they differ. */
  ghost predicate Precedes(a: Bytes, b: Bytes) {
    a <= b || exists k :: 0 <= k < |a| && k < |b| && a[..k] == b[..k] && a[k] < b[k]
  }

  lemma PrecedesBehind(c: byte, a: Bytes, b: Bytes)
    ensures Precedes([c] + a, [c] + b) <==> Precedes(a, b)
  {
    var x, y := [c] + a, [c] + b;
    assert x <= y <==> a <= b by {
      assert x[1..] == a && y[1..] == b;
      if x <= y { assert a == y[1..|x|] == b[..|a|]; }
    }
    if k :| 0 <= k < |a| && k < |b| && a[..k] == b[..k] && a[k] < b[k] {
      assert x[..k + 1] == [c] + a[..k] && y[..k + 1] == [c] + b[..k] && x[k + 1] < y[k + 1];
    }
    if k :| 0 <= k < |x| && k < |y| && x[..k] == y[..k] && x[k] < y[k] {
      assert a[..k - 1] == x[..k][1..] && b[..k - 1] == y[..k][1..] && a[k - 1] < b[k - 1];
    }
  }

  lemma PrecedesAtOnce(a: Bytes, b: Bytes)
    requires a != [] && b != [] && a[0] != b[0]
    ensures Precedes(a, b) <==> a[0] < b[0]
  {
    if a[0] < b[0] {
      assert a[..0] == b[..0];
    }
    forall k | 0 < k < |a| && k < |b| ensures a[..k] != b[..k] {
      assert a[..k][0] != b[..k][0];
    }
  }

  lemma {:induction false} LteExactly(a: Bytes, b: Bytes)
    ensures Lte(a, b) <==> Precedes(a, b)
  {
    if a != [] && b != [] {
      if a[0] == b[0] {
        LteExactly(a[1..], b[1..]);
        PrecedesBehind(a[0], a[1..], b[1..]);
        assert a == [a[0]] + a[1..] && b == [b[0]] + b[1..];
      } else {
        PrecedesAtOnce(a, b);
      }
    }
  }

  predicate Sorted(s: seq<Bytes>) {
    forall i, j :: 0 <= i < j < |s| ==> Lte(s[i], s[j])
  }

  function Insert(x: Bytes, s: seq<Bytes>): seq<Bytes> {
    if s == [] || Lte(x, s[0]) then [x] + s else [s[0]] + Insert(x, s[1..])
  }

  /** What `Vec<Vec<u8>>::sort` returns; SortedUnique says no other result is possible. */
  function Sort(s: seq<Bytes>): seq<Bytes> {
    if s == [] then [] else Insert(s[0], Sort(s[1..]))
  }

  lemma {:induction false} InsertSorts(x: Bytes, s: seq<Bytes>)
    requires Sorted(s)
    ensures Sorted(Insert(x, s))
    ensures multiset(Insert(x, s)) == multiset{x} + multiset(s)
  {
    if s == [] {
    } else if Lte(x, s[0]) {
      forall i | 0 <= i < |s| ensures Lte(x, s[i]) {
        if i > 0 { LteTransitive(x, s[0], s[i]); }
      }
      assert ([x] + s)[1..] == s;
    } else {
      LteTotal(x, s[0]);
      InsertSorts(x, s[1..]);
      var t := Insert(x, s[1..]);
      assert s == [s[0]] + s[1..];
      forall i | 0 <= i < |t| ensures Lte(s[0], t[i]) {
        assert t[i] in multiset(t);
        assert t[i] == x || t[i] in s[1..];
      }
    }
  }

  lemma {:induction false} SortSorts(s: seq<Bytes>)
    ensures Sorted(Sort(s))
    ensures multiset(Sort(s)) == multiset(s)
    ensures |Sort(s)| == |s|
  {
    if s != [] {
      SortSorts(s[1..]);
      InsertSorts(s[0], Sort(s[1..]));
      assert s == [s[0]] + s[1..];
    }
    SameLength(Sort(s), s);
  }

  /** The least element of a sorted sequence comes first. */
  lemma {:induction false} SortedHead(a: seq<Bytes>, x: Bytes)
    requires a != [] && Sorted(a) && x in a
    ensures Lte(a[0], x)
  {
    LteReflexive(x);
  }

  lemma SortedHeadsAgree(a: seq<Bytes>, b: seq<Bytes>)
    requires a != [] && b != [] && Sorted(a) && Sorted(b) && multiset(a) == multiset(b)
    ensures a[0] == b[0]
  {
    assert a[0] in multiset(b) && b[0] in multiset(a);
    SortedHead(a, b[0]);
    SortedHead(b, a[0]);
    LteAntisymmetric(a[0], b[0]);
  }

  lemma {:induction false} SortedUnique(a: seq<Bytes>, b: seq<Bytes>)
    requires Sorted(a) && Sorted(b) && multiset(a) == multiset(b)
    ensures a == b
  {
    SameLength(a, b);
    if a != [] {
      SortedHeadsAgree(a, b);
      MultisetOfTail(a);
      MultisetOfTail(b);
      SortedUnique(a[1..], b[1..]);
      assert a == [a[0]] + a[1..];
    }
  }

  lemma {:induction false} ConcatSameMultiset(a: seq<Bytes>, b: seq<Bytes>)
    requires multiset(a) == multiset(b)
    ensures multiset(Concat(a)) == multiset(Concat(b)) && |Concat(a)| == |Concat(b)|
  {
    SameLength(a, b);
    if a != [] {
      var p, q := TakeOut(a, b);
      ConcatSameMultiset(a[1..], p + q);
      hide *;
      ConcatTakenOut(a, p, q);
    }
    SameLength(Concat(a), Concat(b));
  }

  lemma {:induction false} ConcatTakenOut(a: seq<Bytes>, p: seq<Bytes>, q: seq<Bytes>)
    requires a != [] && multiset(Concat(a[1..])) == multiset(Concat(p + q))
    ensures multiset(Concat(a)) == multiset(Concat(p + [a[0]] + q))
  {
    assert Concat(a) == a[0] + Concat(a[1..]);
    hide *;
    ConcatAppend(p, q);
    ConcatAppend(p + [a[0]], q);
    ConcatSnoc(p, a[0]);
  }

  /** Every rearrangement of the same blobs sorts to the same sequence. */
  lemma {:induction false} SortCanonical(a: seq<Bytes>, b: seq<Bytes>)
    requires multiset(a) == multiset(b)
    ensures Sort(a) == Sort(b)
  {
    SortSorts(a);
    SortSorts(b);
    SortedUnique(Sort(a), Sort(b));
  }

  // ---------- Bits, powers of two and buffers ----------

  /** Bit i of an octet, counted from the least significant. */
  predicate Bit(x: byte, i: nat)
    requires i < 8
  {
    x as int / [1, 2, 4, 8, 16, 32, 64, 128][i] % 2 == 1
  }

  function Pow2(k: nat): (p: nat)
    ensures p > 0
  {
    if k == 0 then 1 else 2 * Pow2(k - 1)
  }

  lemma CopyStep(s: Bytes, pos: nat, part: Bytes, i: nat)
    requires pos + |part| <= |s| && i < |part|
    ensures (s[..pos] + part[..i] + s[pos + i..])[pos + i := part[i]] == s[..pos] + part[..i + 1] + s[pos + i + 1..]
  {
  }

  /** Octets written over those that stand at pos. */
  method CopyInto(data: array<byte>, pos: nat, part: Bytes)
    requires pos + |part| <= data.Length
    modifies data
    ensures data[..] == old(data[..pos]) + part + old(data[pos + |part|..])
  {
    ghost var s := data[..];
    assert s == s[..pos] + part[..0] + s[pos..];
    for i := 0 to |part|
      invariant data[..] == s[..pos] + part[..i] + s[pos + i..]
    {
      CopyStep(s, pos, part, i);
      ghost var before := data[..];
      data[pos + i] := part[i];
      assert data[..] == before[pos + i := part[i]];
    }
    assert part[..|part|] == part;
  }
}
