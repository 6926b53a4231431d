// `ber_to_der` (src/utils.rs:9-181) as a function, and the theorems about it.
module Normalizer {
  import opened Octets
  import opened LengthCodec
  import opened BerSyntax
  import opened BerCanon
  import opened BerMeaning

  /** What one call of `ber_tlv_to_der` yields: the DER octets and the remaining input. */
  function Normalize(s: Bytes, depth: nat): Option<(Bytes, Bytes)> {
    match Read(s, depth)
    case None => None
    case Some((b, rest)) =>
      match Canon(b)
      case None => None
      case Some(c) => Some((Unparse(c), rest))
  }

  function BerToDer(s: Bytes): Option<Bytes> {
    match Normalize(s, 0)
    case None => None
    case Some((der, rest)) => if rest == [] then Some(der) else None
  }

  /** The element an accepted input encodes. */
  function Element(s: Bytes): Ber
    requires BerToDer(s).Some?
  {
    Read(s, 0).value.0
  }

  /** Accepted are exactly the well-formed elements within the depth limit whose constructed strings are sound. */
  lemma BerToDerExact(s: Bytes, der: Bytes)
    ensures BerToDer(s) == Some(der) <==>
      exists b :: s == Unparse(b) && Wf(b) && Fits(b, 0) && Canon(b).Some? && der == Unparse(Canon(b).value)
  {
    if BerToDer(s) == Some(der) {
      var b := Element(s);
      ReadExact(s, 0, b, []);
      assert Unparse(b) + [] == Unparse(b);
    }
    if b :| s == Unparse(b) && Wf(b) && Fits(b, 0) && Canon(b).Some? && der == Unparse(Canon(b).value) {
      assert Unparse(b) + [] == Unparse(b);
      ReadExact(s, 0, b, []);
    }
  }

  /** The output is read back as the normal form of the input's element. */
  lemma DerReadsBack(s: Bytes)
    requires BerToDer(s).Some? && |BerToDer(s).value| <= USIZE_MAX
    ensures var c := Canon(Element(s)).value;
      && Read(BerToDer(s).value, 0) == Some((c, []))
      && Wf(Element(s)) && Wf(c) && Fits(c, 0) && IsCanon(c) && BerToDer(s).value == Unparse(c)
  {
    var b := Element(s);
    ReadSound(s, 0);
    var c := Canon(b).value;
    CanonWf(b);
    CanonFits(b, 0);
    CanonIsCanon(b);
    ReadComplete(c, [], 0);
    assert Unparse(c) + [] == Unparse(c);
  }

  /** Normalising DER changes nothing, and the meaning is the input's. */
  lemma BerToDerIdempotent(s: Bytes)
    requires BerToDer(s).Some? && |BerToDer(s).value| <= USIZE_MAX
    ensures BerToDer(BerToDer(s).value) == BerToDer(s)
    ensures Meaning(Element(BerToDer(s).value)) == Meaning(Element(s))
  {
    DerReadsBack(s);
    CanonFixed(Canon(Element(s)).value);
    CanonMeaning(Element(s));
  }

  /** Two accepted inputs give the same octets exactly when they mean the same. */
  lemma BerToDerCanonical(x: Bytes, y: Bytes)
    requires BerToDer(x).Some? && |BerToDer(x).value| <= USIZE_MAX
    requires BerToDer(y).Some? && |BerToDer(y).value| <= USIZE_MAX
    ensures BerToDer(x) == BerToDer(y) <==> Meaning(Element(x)) == Meaning(Element(y))
  {
    DerReadsBack(x);
    DerReadsBack(y);
    CanonMeaning(Element(x));
    CanonMeaning(Element(y));
    if Meaning(Element(x)) == Meaning(Element(y)) {
      CanonDetermined(Canon(Element(x)).value, Canon(Element(y)).value, 0);
    }
  }

  // ---------- The order of clause 11.6 ----------

  function Zeros(n: nat): (r: Bytes)
    ensures |r| == n
  {
    seq(n, i => 0)
  }

  /** X.690 clause 11.6: the shorter encoding is padded with trailing zero octets for the comparison. */
  predicate PaddedLte(a: Bytes, b: Bytes) {
    if |a| <= |b| then Lte(a + Zeros(|b| - |a|), b) else Lte(a, b + Zeros(|a| - |b|))
  }

  lemma {:induction false} PaddingDecidesNothing(a: Bytes, b: Bytes, p: Bytes, q: Bytes)
    requires !(a <= b) && !(b <= a)
    ensures Lte(a + p, b + q) == Lte(a, b)
  {
    assert a != [] && b != [];
    assert (a + p)[1..] == a[1..] + p && (b + q)[1..] == b[1..] + q;
    if a[0] == b[0] {
      assert a == [a[0]] + a[1..] && b == [a[0]] + b[1..];
      PaddingDecidesNothing(a[1..], b[1..], p, q);
    }
  }

  /** On encodings of elements the order `sort()` uses is the order the standard asks for. */
  lemma {:induction false} SortOrderIsDerOrder(x: Ber, y: Ber, depth: nat)
    requires Wf(x) && Wf(y) && Fits(x, depth) && Fits(y, depth)
    ensures Lte(Unparse(x), Unparse(y)) <==> PaddedLte(Unparse(x), Unparse(y))
  {
    var a, b := Unparse(x), Unparse(y);
    if x == y {
      LteReflexive(a);
      assert a + Zeros(0) == a;
    } else {
      if a <= b { PrefixFree(x, y, depth); }
      if b <= a { PrefixFree(y, x, depth); }
      assert a + [] == a && b + [] == b;
      if |a| <= |b| {
        PaddingDecidesNothing(a, b, Zeros(|b| - |a|), []);
      } else {
        PaddingDecidesNothing(a, b, [], Zeros(|a| - |b|));
      }
    }
  }

  // ---------- Growth ----------

  lemma {:induction false} CanonGrowth(b: Ber)
    requires Wf(b) && Canon(b).Some? && 3 * |Unparse(b)| <= USIZE_MAX
    ensures |Unparse(Canon(b).value)| <= 3 * |Unparse(b)|
    decreases b, 1
  {
    if b.Primitive? {
      EncodeLengthShortest(|b.content|);
    } else {
      var kids := CanonAll(b.kids).value;
      CanonAllGrowth(b.kids);
      var size: nat;
      if IsConstructedString(b.tag) {
        StringContentSize(b);
        size := |Canon(b).value.content|;
      } else {
        SortKidsSize(kids);
        size := |UnparseAll(kids)|;
      }
      EncodeLengthShortest(size);
      if b.Definite? {
        LengthGrows(b.len, |UnparseAll(b.kids)|, size);
      }
    }
  }

  lemma {:induction false} CanonAllGrowth(bs: seq<Ber>)
    requires WfAll(bs) && CanonAll(bs).Some? && 3 * |UnparseAll(bs)| <= USIZE_MAX
    ensures |UnparseAll(CanonAll(bs).value)| <= 3 * |UnparseAll(bs)|
    decreases bs, 0
  {
    if bs != [] {
      CanonGrowth(bs[0]);
      CanonAllGrowth(bs[1..]);
      assert CanonAll(bs).value[1..] == CanonAll(bs[1..]).value;
    }
  }

  lemma {:induction false} ConcatCons(x: seq<Bytes>, y: seq<Bytes>)
    ensures |Concat(x + y)| == |Concat(x)| + |Concat(y)|
  {
    ConcatAppend(x, y);
  }

  lemma {:induction false} LeavesSize(b: Ber)
    ensures |Concat(Leaves(b))| <= |Unparse(b)| - |b.tag|
    ensures !b.Primitive? ==> |Concat(Leaves(b))| <= |UnparseAll(b.kids)|
    decreases b, 1
  {
    if b.Primitive? {
      assert Concat([b.content]) == b.content;
    } else {
      AllLeavesSize(b.kids);
    }
  }

  lemma {:induction false} AllLeavesSize(bs: seq<Ber>)
    ensures |Concat(AllLeaves(bs))| <= |UnparseAll(bs)|
    decreases bs, 0
  {
    if bs != [] {
      LeavesSize(bs[0]);
      AllLeavesSize(bs[1..]);
      ConcatCons(Leaves(bs[0]), AllLeaves(bs[1..]));
    }
  }

  lemma {:induction false} JoinDataSize(segs: seq<Bytes>)
    ensures |JoinData(segs)| <= |Concat(segs)|
  {
    if segs != [] {
      JoinDataSize(segs[1..]);
    }
  }

  /** A flattened string is never longer than what encoded it. */
  lemma {:induction false} StringContentSize(b: Ber)
    requires Wf(b) && IsConstructedString(b.tag) && Canon(b).Some?
    ensures |ContentOf(Canon(b).value)| <= 1 + |UnparseAll(b.kids)| < |Unparse(b)|
  {
    FlattenLeaves(b);
    LeavesSize(b);
    JoinDataSize(Leaves(b));
  }

  /** DER output is at most three times as long as the BER input. */
  lemma BerToDerGrowth(s: Bytes)
    requires BerToDer(s).Some? && 3 * |s| <= USIZE_MAX
    ensures |BerToDer(s).value| <= 3 * |s|
  {
    ReadSound(s, 0);
    CanonGrowth(Element(s));
  }

  lemma EmptyBits()
    ensures var b := Definite([0x23], [0x00], []);
      Canon(b) == Some(PrimitiveOf([0x03], [0x00])) && Unparse(PrimitiveOf([0x03], [0x00])) == [0x03, 0x01, 0x00]
  {
    assert CanonAll([]) == Some([]);
    assert Contents([]) == [] && JoinBits([]) == [0x00];
    assert FlattenString(CONSTRUCTED_BITS, []) == Some(PrimitiveOf([0x03], [0x00]));
  }

  /** The output can be longer than the input: an empty constructed BIT STRING gains its unused-bits octet. */
  lemma EmptyBitStringGrows()
    ensures BerToDer([0x23, 0x00]) == Some([0x03, 0x01, 0x00])
  {
    var b := Definite([0x23], [0x00], []);
    EmptyBitStringIsSound();
    EmptyBits();
    hide *;
    BerToDerExact([0x23, 0x00], [0x03, 0x01, 0x00]);
  }

  lemma EmptyBitStringIsSound()
    ensures var b := Definite([0x23], [0x00], []);
      Unparse(b) == [0x23, 0x00] && Wf(b) && Fits(b, 0)
  {
    assert IsLength([0x00], 0);
  }
}
