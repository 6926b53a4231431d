// What an element means, whatever its length forms, string segmentation and order of SET members, that the normal
// form keeps this meaning, and that the meaning determines the normal form.
module BerMeaning {
  import opened Arrangements
  import opened Octets
  import opened BerSyntax
  import opened BerCanon

  datatype Value =
    | Atom(tag: Bytes, content: Bytes)
    | Items(tag: Bytes, items: seq<Value>)
    | SetOf(members: multiset<Value>)

  /** The contents of the primitive elements below b, left to right. */
  function Leaves(b: Ber): seq<Bytes>
    decreases b, 1
  {
    if b.Primitive? then [b.content] else AllLeaves(b.kids)
  }

  function AllLeaves(bs: seq<Ber>): seq<Bytes>
    decreases bs, 0
  {
    if bs == [] then [] else Leaves(bs[0]) + AllLeaves(bs[1..])
  }

  function Meaning(b: Ber): Value
    decreases b, 1
  {
    if b.Primitive? then Atom(b.tag, b.content)
    else if b.tag == CONSTRUCTED_BITS then Atom([0x03], JoinBits(Leaves(b)))
    else if b.tag == CONSTRUCTED_OCTETS then Atom([0x04], Concat(Leaves(b)))
    else if b.tag == SET then SetOf(multiset(Meanings(b.kids)))
    else Items(b.tag, Meanings(b.kids))
  }

  function Meanings(bs: seq<Ber>): (r: seq<Value>)
    ensures |r| == |bs| && forall i :: 0 <= i < |bs| ==> r[i] == Meaning(bs[i])
    decreases bs, 0
  {
    if bs == [] then [] else [Meaning(bs[0])] + Meanings(bs[1..])
  }

  // ---------- Flattening keeps the leaf segments (src/utils.rs:26-62) ----------

  lemma {:induction false} JoinDataAppend(a: seq<Bytes>, b: seq<Bytes>)
    ensures JoinData(a + b) == JoinData(a) + JoinData(b)
  {
    if a == [] {
      assert a + b == b;
    } else {
      assert (a + b)[1..] == a[1..] + b;
      JoinDataAppend(a[1..], b);
    }
  }

  /** The content a constructed string of the given tag has when made of these segments. */
  function Joined(tag: Bytes, segs: seq<Bytes>): Bytes {
    if tag == CONSTRUCTED_BITS then JoinBits(segs) else Concat(segs)
  }

  predicate Joinable(tag: Bytes, segs: seq<Bytes>) {
    tag == CONSTRUCTED_BITS ==> SegmentsOk(segs)
  }

  /**
   * An accepted constructed string, however its segments are nested, becomes the primitive string
   * of all its leaf segments joined left to right, and unused bits occur in the last leaf only.
   */
  lemma {:induction false} FlattenLeaves(b: Ber)
    requires Wf(b) && IsConstructedString(b.tag) && Canon(b).Some?
    ensures Canon(b) == Some(PrimitiveOf(PrimitiveTag(b.tag), Joined(b.tag, Leaves(b))))
    ensures Joinable(b.tag, Leaves(b))
    decreases b, 1
  {
    var cs := CanonAll(b.kids).value;
    assert forall c :: c in cs ==> c.tag == PrimitiveTag(b.tag);
    FlattenAllLeaves(b.tag, b.kids);
  }

  lemma {:induction false} FlattenAllLeaves(tag: Bytes, kids: seq<Ber>)
    requires WfAll(kids) && IsConstructedString(tag) && CanonAll(kids).Some?
    requires forall c :: c in CanonAll(kids).value ==> c.tag == PrimitiveTag(tag)
    requires Joinable(tag, Contents(CanonAll(kids).value))
    ensures Joined(tag, Contents(CanonAll(kids).value)) == Joined(tag, AllLeaves(kids))
    ensures Joinable(tag, AllLeaves(kids))
    decreases kids, 0
  {
    if kids != [] {
      var cs := CanonAll(kids).value;
      var c, rest := cs[0], cs[1..];
      assert rest == CanonAll(kids[1..]).value && c == Canon(kids[0]).value;
      HeadOrTail(cs);
      SegmentLeaves(tag, kids[0]);
      var x, xs := ContentOf(c), Contents(rest);
      assert Contents(cs) == [x] + xs;
      JoinableTail(tag, x, xs);
      FlattenAllLeaves(tag, kids[1..]);
      JoinStep(tag, x, xs, Leaves(kids[0]), AllLeaves(kids[1..]));
    }
  }

  lemma JoinableTail(tag: Bytes, x: Bytes, xs: seq<Bytes>)
    requires Joinable(tag, [x] + xs)
    ensures Joinable(tag, xs)
    ensures tag == CONSTRUCTED_BITS ==> SegmentOk(x, xs == [])
  {
    assert forall i :: 0 <= i < |xs| ==> xs[i] == ([x] + xs)[i + 1];
    assert ([x] + xs)[0] == x;
  }

  lemma JoinStep(tag: Bytes, x: Bytes, xs: seq<Bytes>, l: seq<Bytes>, ls: seq<Bytes>)
    requires Joinable(tag, [x] + xs) && Joinable(tag, ls) && Joined(tag, xs) == Joined(tag, ls)
    requires l == [x] || (x == Joined(tag, l) && Joinable(tag, l))
    requires xs == [] ==> ls == []
    ensures Joined(tag, [x] + xs) == Joined(tag, l + ls) && Joinable(tag, l + ls)
  {
    if tag == CONSTRUCTED_BITS {
      JoinableTail(tag, x, xs);
      JoinSegments(x, xs, l, ls);
    } else {
      ConcatAppend([x], xs);
      ConcatAppend(l, ls);
    }
  }

  /** One segment: a primitive of the right type, or a nested constructed string. */
  lemma {:induction false} SegmentLeaves(tag: Bytes, kid: Ber)
    requires Wf(kid) && IsConstructedString(tag) && Canon(kid).Some? && Canon(kid).value.tag == PrimitiveTag(tag)
    ensures var c, l := ContentOf(Canon(kid).value), Leaves(kid);
      l == [c] || (c == Joined(tag, l) && Joinable(tag, l))
    decreases kid, 2
  {
    if !kid.Primitive? {
      assert Constructed(kid.tag[0]);
      assert kid.tag == tag;
      FlattenLeaves(kid);
    }
  }

  /** Joining segments of which the first is itself a join is joining all leaves. */
  lemma JoinSegments(x: Bytes, xs: seq<Bytes>, l: seq<Bytes>, ls: seq<Bytes>)
    requires x != [] && SegmentOk(x, xs == [])
    requires l == [x] || (x == JoinBits(l) && SegmentsOk(l))
    requires JoinBits(xs) == JoinBits(ls) && SegmentsOk(ls)
    requires xs == [] ==> ls == []
    ensures JoinBits([x] + xs) == JoinBits(l + ls)
    ensures SegmentsOk(l + ls)
  {
    hide *;
    BitsParts(xs, ls);
    HeadBits(x, l);
    JoinDataAppend(l, ls);
    FrontData(x, xs);
    FrontUnused(x, xs, l, ls);
    SameBits([x] + xs, l + ls);
    SegmentsOkTogether(x, xs, l, ls);
  }

  lemma {:induction false} HeadBits(x: Bytes, l: seq<Bytes>)
    requires x != [] && (l == [x] || x == JoinBits(l))
    ensures DataOctets(x) == JoinData(l) && (l != [] ==> LastUnused(l) == x[0]) && (l == [] ==> x[0] == 0)
  {
    if l == [x] {
      assert l[1..] == [];
    }
  }

  lemma {:induction false} FrontData(x: Bytes, xs: seq<Bytes>)
    ensures JoinData([x] + xs) == DataOctets(x) + JoinData(xs)
  {
    assert ([x] + xs)[1..] == xs;
  }

  lemma FrontUnused(x: Bytes, xs: seq<Bytes>, l: seq<Bytes>, ls: seq<Bytes>)
    requires SegmentOk(x, xs == []) && (xs == [] ==> ls == []) && LastUnused(xs) == LastUnused(ls)
    requires (l != [] ==> LastUnused(l) == x[0]) && (l == [] ==> x[0] == 0)
    ensures LastUnused([x] + xs) == LastUnused(l + ls)
  {
    if ls == [] {
      assert l + ls == l;
    }
  }

  lemma SegmentsOkTogether(x: Bytes, xs: seq<Bytes>, l: seq<Bytes>, ls: seq<Bytes>)
    requires SegmentOk(x, xs == []) && SegmentsOk(ls) && (xs == [] ==> ls == [])
    requires l == [x] || (SegmentsOk(l) && (l != [] ==> LastUnused(l) == x[0]))
    ensures SegmentsOk(l + ls)
  {
    if l != [] && ls != [] {
      assert x[0] == 0;
    }
  }

  lemma {:induction false} BitsParts(xs: seq<Bytes>, ls: seq<Bytes>)
    requires JoinBits(xs) == JoinBits(ls)
    ensures JoinData(xs) == JoinData(ls) && LastUnused(xs) == LastUnused(ls)
  {
    assert JoinBits(xs)[1..] == JoinData(xs) && JoinBits(ls)[1..] == JoinData(ls);
    assert JoinBits(xs)[0] == LastUnused(xs) && JoinBits(ls)[0] == LastUnused(ls);
  }

  lemma {:induction false} SameBits(xs: seq<Bytes>, ls: seq<Bytes>)
    requires JoinData(xs) == JoinData(ls) && LastUnused(xs) == LastUnused(ls)
    ensures JoinBits(xs) == JoinBits(ls)
  {
  }

  // ---------- Bit strings denote bits ----------

  /** The eight bits of an octet, most significant first. */
  function OctetBits(b: byte): (r: seq<bool>)
    ensures |r| == 8
  {
    [b / 0x80 % 2 == 1, b / 0x40 % 2 == 1, b / 0x20 % 2 == 1, b / 0x10 % 2 == 1,
     b / 8 % 2 == 1, b / 4 % 2 == 1, b / 2 % 2 == 1, b % 2 == 1]
  }

  function AllBits(s: Bytes): (r: seq<bool>)
    ensures |r| == 8 * |s|
  {
    if s == [] then [] else OctetBits(s[0]) + AllBits(s[1..])
  }

  /** The bits a BIT STRING content stands for: its data bits without the unused ones. */
  function BitsOf(seg: Bytes): seq<bool> {
    DropLast(AllBits(DataOctets(seg)), Unused(seg) as int)
  }

  function DropLast(bits: seq<bool>, n: nat): seq<bool> {
    if n <= |bits| then bits[..|bits| - n] else []
  }

  function BitsOfAll(segs: seq<Bytes>): seq<bool> {
    if segs == [] then [] else BitsOf(segs[0]) + BitsOfAll(segs[1..])
  }

  lemma {:induction false} AllBitsAppend(a: Bytes, b: Bytes)
    ensures AllBits(a + b) == AllBits(a) + AllBits(b)
  {
    if a == [] {
      assert a + b == b;
    } else {
      assert (a + b)[1..] == a[1..] + b;
      AllBitsAppend(a[1..], b);
    }
  }

  lemma {:induction false} JoinBitsParts(segs: seq<Bytes>)
    ensures DataOctets(JoinBits(segs)) == JoinData(segs) && Unused(JoinBits(segs)) == LastUnused(segs)
  {
  }

  lemma DropAfterAppend(a: seq<bool>, b: seq<bool>, n: nat)
    requires n <= |b|
    ensures DropLast(a + b, n) == a + DropLast(b, n)
    ensures DropLast(a, 0) == a
  {
  }

  lemma {:induction false} JoinDataCons(x: Bytes, xs: seq<Bytes>)
    ensures JoinData([x] + xs) == DataOctets(x) + JoinData(xs)
    ensures xs != [] ==> LastUnused([x] + xs) == LastUnused(xs)
  {
    assert ([x] + xs)[1..] == xs;
  }

  /** Segments after the first: the first has no unused bits, the rest decide how many there are. */
  lemma {:induction false} JoinBitsCons(x: Bytes, xs: seq<Bytes>)
    requires xs != [] && SegmentOk(x, false) && LastUnused(xs) as int <= 8 * |JoinData(xs)|
    ensures BitsOf(JoinBits([x] + xs)) == BitsOf(x) + BitsOf(JoinBits(xs))
    ensures JoinData([x] + xs) == DataOctets(x) + JoinData(xs) && LastUnused([x] + xs) == LastUnused(xs)
  {
    JoinDataCons(x, xs);
    AllBitsAppend(DataOctets(x), JoinData(xs));
    JoinBitsParts(xs);
    JoinBitsParts([x] + xs);
    DropAfterAppend(AllBits(DataOctets(x)), AllBits(JoinData(xs)), LastUnused(xs) as int);
  }

  /** The joined content denotes exactly the bits of its segments, in order. */
  lemma {:induction false} JoinBitsDenotes(segs: seq<Bytes>)
    requires SegmentsOk(segs)
    ensures BitsOf(JoinBits(segs)) == BitsOfAll(segs)
    ensures LastUnused(segs) as int <= 8 * |JoinData(segs)|
  {
    if |segs| == 1 {
      assert SegmentOk(segs[0], true);
      assert segs[1..] == [] && JoinData(segs) == segs[0][1..];
      assert JoinBits(segs) == segs[0];
    } else if |segs| > 1 {
      var x, xs := segs[0], segs[1..];
      assert segs == [x] + xs;
      JoinableTail(CONSTRUCTED_BITS, x, xs);
      JoinBitsDenotes(xs);
      JoinBitsCons(x, xs);
    }
  }

  /** A flattened string stands for its leaves: bits for a BIT STRING, octets for an OCTET STRING. */
  lemma {:induction false} FlattenDenotes(b: Ber)
    requires Wf(b) && IsConstructedString(b.tag) && Canon(b).Some?
    ensures b.tag == CONSTRUCTED_BITS ==> BitsOf(Canon(b).value.content) == BitsOfAll(Leaves(b))
    ensures b.tag == CONSTRUCTED_OCTETS ==> Canon(b).value.content == Concat(Leaves(b))
  {
    FlattenLeaves(b);
    if b.tag == CONSTRUCTED_BITS {
      JoinBitsDenotes(Leaves(b));
    }
  }

  // ---------- The normal form has the same meaning ----------

  lemma {:induction false} CanonMeaning(b: Ber)
    requires Wf(b) && Canon(b).Some?
    ensures Meaning(Canon(b).value) == Meaning(b)
    decreases b, 1
  {
    if !b.Primitive? {
      if IsConstructedString(b.tag) {
        FlattenLeaves(b);
      } else {
        CanonAllMeaning(b.kids);
        MeaningsOfSorted(CanonAll(b.kids).value);
      }
    }
  }

  lemma {:induction false} CanonAllMeaning(bs: seq<Ber>)
    requires WfAll(bs) && CanonAll(bs).Some?
    ensures Meanings(CanonAll(bs).value) == Meanings(bs)
    decreases bs, 0
  {
    if bs != [] {
      CanonMeaning(bs[0]);
      CanonAllMeaning(bs[1..]);
      assert CanonAll(bs).value[1..] == CanonAll(bs[1..]).value;
    }
  }

  lemma {:induction false} MeaningsOfSorted(bs: seq<Ber>)
    ensures multiset(Meanings(SortKids(bs))) == multiset(Meanings(bs))
  {
    SortKidsEncodings(bs);
    MapPermute(Meaning, SortKids(bs), bs);
    assert Map(Meaning, SortKids(bs)) == Meanings(SortKids(bs));
    assert Map(Meaning, bs) == Meanings(bs);
  }

  // ---------- The normal form is determined by the meaning ----------

  lemma {:induction false} EncodingsPermute(a: seq<Ber>, b: seq<Ber>)
    requires multiset(a) == multiset(b)
    ensures multiset(Encodings(a)) == multiset(Encodings(b))
  {
    MapPermute(Unparse, a, b);
    assert Map(Unparse, a) == Encodings(a) && Map(Unparse, b) == Encodings(b);
  }

  /** Sorted lists of well-formed elements are determined by their members. */
  lemma {:induction false} SortedKidsUnique(a: seq<Ber>, b: seq<Ber>, depth: nat)
    requires WfAll(a) && WfAll(b) && FitsAll(a, depth) && FitsAll(b, depth)
    requires SortedKids(a) && SortedKids(b) && multiset(a) == multiset(b)
    ensures a == b
  {
    hide Unparse, Wf, Fits, Lte;
    EncodingsPermute(a, b);
    SortedUnique(Encodings(a), Encodings(b));
    UnparseAllConcat(a);
    UnparseAllConcat(b);
    ReadAllComplete(a, depth);
    ReadAllComplete(b, depth);
  }

  lemma {:induction false} CanonDetermined(a: Ber, b: Ber, depth: nat)
    requires IsCanon(a) && IsCanon(b) && Wf(a) && Wf(b) && Fits(a, depth) && Fits(b, depth)
    requires Meaning(a) == Meaning(b)
    ensures a == b
    decreases a
  {
    hide SortedKids, Unparse, UnparseAll;
    if a.Definite? {
      if a.tag == SET {
        forall x, y | x in a.kids && y in b.kids && Meaning(x) == Meaning(y)
          ensures x == y
        {
          MembersOf(a.kids, x, depth + 1);
          MembersOf(b.kids, y, depth + 1);
          CanonDetermined(x, y, depth + 1);
        }
        assert Map(Meaning, a.kids) == Meanings(a.kids) && Map(Meaning, b.kids) == Meanings(b.kids);
        MatchMembers(Meaning, a.kids, b.kids);
        SortedKidsUnique(a.kids, b.kids, depth + 1);
      } else {
        assert |a.kids| == |Meanings(a.kids)| == |b.kids|;
        forall i | 0 <= i < |a.kids| ensures a.kids[i] == b.kids[i] {
          assert Meanings(a.kids)[i] == Meanings(b.kids)[i];
          MembersOf(a.kids, a.kids[i], depth + 1);
          MembersOf(b.kids, b.kids[i], depth + 1);
          CanonDetermined(a.kids[i], b.kids[i], depth + 1);
        }
        assert a.kids == b.kids;
      }
    }
  }

  lemma {:induction false} MembersOf(bs: seq<Ber>, b: Ber, depth: nat)
    requires b in bs && WfAll(bs) && IsCanonAll(bs) && FitsAll(bs, depth)
    ensures Wf(b) && IsCanon(b) && Fits(b, depth)
  {
    WfAllMembers(bs);
    IsCanonAllMembers(bs);
    FitsAllMembers(bs, depth);
  }
}
