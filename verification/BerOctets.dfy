// The syntax and the normal form of BER elements in the octets and bits of X.690 (clauses 8.1, 8.6.2, 8.7.3, 10 and 11.6).
module BerOctets {
  import opened Octets
  import opened LengthCodec
  import opened BerSyntax
  import opened BerCanon
  import opened BerMeaning
  import Normalizer

  // ---------- Identifier, length and end-of-contents octets ----------

  /** Bit 6 marks a constructed encoding; five set low bits announce further identifier octets (clause 8.1.2). */
  lemma IdentifierBits(t: byte)
    ensures Constructed(t) <==> Bit(t, 5)
    ensures MultiByteTag(t) <==> Bit(t, 0) && Bit(t, 1) && Bit(t, 2) && Bit(t, 3) && Bit(t, 4)
  {
    var n := t as int;
    LowBits(n);
    assert t % 0x20 == 0x1F <==> n % 32 == 31;
    assert Bit(t, 0) <==> n % 2 == 1;
    assert Bit(t, 1) <==> n / 2 % 2 == 1;
    assert Bit(t, 2) <==> n / 4 % 2 == 1;
    assert Bit(t, 3) <==> n / 8 % 2 == 1;
    assert Bit(t, 4) <==> n / 16 % 2 == 1;
  }

  lemma LowBits(n: nat)
    ensures n % 32 == n % 2 + 2 * (n / 2 % 2) + 4 * (n / 4 % 2) + 8 * (n / 8 % 2) + 16 * (n / 16 % 2)
  {
    var h := n / 2;
    var q := h / 2;
    var o := q / 2;
    var x := o / 2;
    HalvesOf(n, h, q, o, x);
    Low32(n, x / 2, n % 2 + 2 * (h % 2) + 4 * (q % 2) + 8 * (o % 2) + 16 * (x % 2));
  }

  lemma HalvesOf(n: nat, h: nat, q: nat, o: nat, x: nat)
    requires h == n / 2 && q == h / 2 && o == q / 2 && x == o / 2
    ensures q == n / 4 && o == n / 8 && x == n / 16
  {
  }

  lemma Low32(n: nat, q: nat, low: nat)
    requires n == 32 * q + low && low < 32
    ensures n % 32 == low
  {
  }

  /** All identifier octets behind the first have bit 8 set, but for the last. */
  lemma TagOctets(tag: Bytes)
    requires tag != []
    ensures IsTag(tag) <==>
      if forall i :: 0 <= i < 5 ==> Bit(tag[0], i) then
        |tag| >= 2 && forall i :: 1 <= i < |tag| ==> (Bit(tag[i], 7) <==> i < |tag| - 1)
      else |tag| == 1
  {
    IdentifierBits(tag[0]);
    forall i | 1 <= i < |tag| ensures Bit(tag[i], 7) <==> tag[i] >= 0x80 {
    }
  }

  lemma {:induction false} ElementOctets(b: Ber)
    ensures b.Primitive? ==> Unparse(b) == b.tag + b.len + b.content
    ensures b.Definite? ==> Unparse(b) == b.tag + b.len + Concat(Encodings(b.kids))
    ensures b.Indefinite? ==> Unparse(b) == b.tag + [0x80] + Concat(Encodings(b.kids)) + [0x00, 0x00]
  {
    if !b.Primitive? {
      UnparseAllConcat(b.kids);
    }
  }

  // ---------- The nesting limit ----------

  /** The levels below an element. */
  function Levels(b: Ber): nat
    decreases b, 1
  {
    if b.Primitive? || b.kids == [] then 0 else 1 + LevelsOfAll(b.kids)
  }

  function LevelsOfAll(bs: seq<Ber>): nat
    decreases bs, 0
  {
    if bs == [] then 0
    else if Levels(bs[0]) > LevelsOfAll(bs[1..]) then Levels(bs[0])
    else LevelsOfAll(bs[1..])
  }

  lemma {:induction false} FitsExactly(b: Ber, depth: nat)
    ensures Fits(b, depth) <==> depth + Levels(b) <= 64
    decreases b, 1
  {
    if !b.Primitive? {
      FitsAllExactly(b.kids, depth + 1);
    }
  }

  lemma {:induction false} FitsAllExactly(bs: seq<Ber>, depth: nat)
    ensures FitsAll(bs, depth) <==> bs == [] || depth + LevelsOfAll(bs) <= 64
    decreases bs, 0
  {
    if bs != [] {
      FitsExactly(bs[0], depth);
      FitsAllExactly(bs[1..], depth);
    }
  }

  /** An element whose strings are sound is accepted exactly when it has at most 64 levels below it. */
  lemma {:induction false} DepthLimit(b: Ber)
    requires Wf(b) && Canon(b).Some?
    ensures Normalizer.BerToDer(Unparse(b)).Some? <==> Levels(b) <= 64
  {
    hide Unparse, Canon, Fits, Levels, Wf, Read;
    FitsExactly(b, 0);
    if Fits(b, 0) {
      Normalizer.BerToDerExact(Unparse(b), Unparse(Canon(b).value));
    }
    if Normalizer.BerToDer(Unparse(b)).Some? {
      var der := Normalizer.BerToDer(Unparse(b)).value;
      Normalizer.BerToDerExact(Unparse(b), der);
      var d :| Unparse(b) == Unparse(d) && Wf(d) && Fits(d, 0) && Canon(d).Some? && der == Unparse(Canon(d).value);
      FitsExactly(d, 0);
      FitsUpTo(b, d);
    }
  }

  /** The octets determine the element, however deep it is. */
  lemma {:induction false} FitsUpTo(b: Ber, d: Ber)
    requires Wf(b) && Wf(d) && Fits(d, 0) && Unparse(b) == Unparse(d)
    ensures b == d
  {
    SameOctets(b, d, [], []);
  }

  lemma {:induction false} SameOctets(b: Ber, d: Ber, p: Bytes, q: Bytes)
    requires Wf(b) && Wf(d) && Unparse(b) + p == Unparse(d) + q
    ensures b == d && p == q
    decreases b, 1
  {
    HeaderOfElement(b, p);
    HeaderOfElement(d, q);
    match b
    case Primitive(_, _, _) =>
    case Definite(_, _, kids) =>
      assert d.Definite?;
      assert UnparseAll(kids) + [] == UnparseAll(d.kids) + [];
      SameDefinite(kids, d.kids);
    case Indefinite(_, kids) =>
      assert d.Indefinite?;
      SameIndefinite(kids, d.kids, p, q);
  }

  /** What the header reader finds at an element. */
  lemma {:induction false} HeaderOfElement(b: Ber, p: Bytes)
    requires Wf(b)
    ensures b.Primitive? ==> ReadHeader(Unparse(b) + p) == Some(DefiniteHeader(b.tag, b.len, b.content, p))
    ensures b.Definite? ==> ReadHeader(Unparse(b) + p) == Some(DefiniteHeader(b.tag, b.len, UnparseAll(b.kids), p))
    ensures b.Indefinite? ==> ReadHeader(Unparse(b) + p) == Some(IndefiniteHeader(b.tag, UnparseAll(b.kids) + EOC + p))
    ensures b.tag != [] && (b.Primitive? <==> !Constructed(b.tag[0]))
    ensures !b.Primitive? ==> WfAll(b.kids)
    ensures b.Indefinite? ==> NoneIsEoc(b.kids)
  {
    hide ReadHeader, IsLength;
    match b
    case Primitive(tag, len, content) => ReadDefiniteHeader(tag, len, content, p);
    case Definite(tag, len, kids) => ReadDefiniteHeader(tag, len, UnparseAll(kids), p);
    case Indefinite(tag, kids) =>
      ReadIndefiniteHeader(tag, UnparseAll(kids) + EOC + p);
      assert Unparse(b) + p == tag + [INDEFINITE] + (UnparseAll(kids) + EOC + p);
  }

  lemma {:induction false} SameDefinite(a: seq<Ber>, b: seq<Ber>)
    requires WfAll(a) && WfAll(b) && UnparseAll(a) == UnparseAll(b)
    ensures a == b
    decreases a, 0
  {
    if a != [] && b != [] {
      SameOctets(a[0], b[0], UnparseAll(a[1..]), UnparseAll(b[1..]));
      SameDefinite(a[1..], b[1..]);
      assert a == [a[0]] + a[1..] && b == [b[0]] + b[1..];
    } else {
      if a != [] { WfSize(a[0]); }
      if b != [] { WfSize(b[0]); }
    }
  }

  lemma {:induction false} SameIndefinite(a: seq<Ber>, b: seq<Ber>, p: Bytes, q: Bytes)
    requires WfAll(a) && WfAll(b) && NoneIsEoc(a) && NoneIsEoc(b)
    requires UnparseAll(a) + EOC + p == UnparseAll(b) + EOC + q
    ensures a == b && p == q
    decreases a, 0
  {
    EocInFront(a, p);
    EocInFront(b, q);
    if a != [] {
      UntilEocStep(a, p);
    }
    if b != [] {
      UntilEocStep(b, q);
    }
    if a != [] && b != [] {
      SameOctets(a[0], b[0], UnparseAll(a[1..]) + EOC + p, UnparseAll(b[1..]) + EOC + q);
      SameIndefinite(a[1..], b[1..], p, q);
      assert a == [a[0]] + a[1..] && b == [b[0]] + b[1..];
    } else if a == [] && b == [] {
      assert UnparseAll(a) + EOC + p == EOC + p && UnparseAll(b) + EOC + q == EOC + q;
      assert (EOC + p)[2..] == p && (EOC + q)[2..] == q;
    }
  }

  lemma {:induction false} EocInFront(a: seq<Ber>, p: Bytes)
    ensures a == [] ==> EOC <= UnparseAll(a) + EOC + p
  {
    if a == [] {
      assert UnparseAll(a) + EOC + p == EOC + p;
    }
  }

  // ---------- The normal form ----------

  /** Members in the order of clause 11.6. */
  ghost predicate InOrder(kids: seq<Ber>) {
    forall i, j :: 0 <= i < j < |kids| ==> Precedes(Unparse(kids[i]), Unparse(kids[j]))
  }

  lemma InOrderExactly(kids: seq<Ber>)
    ensures SortedKids(kids) <==> InOrder(kids)
  {
    hide Unparse, Lte, Precedes;
    var e := Encodings(kids);
    forall i, j | 0 <= i < |kids| && 0 <= j < |kids| ensures Lte(e[i], e[j]) <==> Precedes(Unparse(kids[i]), Unparse(kids[j])) {
      LteExactly(e[i], e[j]);
    }
  }

  /** Definite and shortest lengths, BIT STRING and OCTET STRING primitive, sets in order. */
  ghost predicate DerForm(b: Ber)
    decreases b, 1
  {
    && !b.Indefinite?
    && (b.Primitive? ==> b.len == EncodeLength(|b.content|))
    && (b.Definite? ==>
          && b.len == EncodeLength(|Concat(Encodings(b.kids))|)
          && b.tag != [0x23] && b.tag != [0x24] && (b.tag == [0x31] ==> InOrder(b.kids)) && DerForms(b.kids))
  }

  ghost predicate DerForms(bs: seq<Ber>)
    decreases bs, 0
  {
    bs == [] || (DerForm(bs[0]) && DerForms(bs[1..]))
  }

  lemma {:induction false} DerFormExactly(b: Ber)
    ensures IsCanon(b) <==> DerForm(b)
    decreases b, 1
  {
    if b.Definite? {
      hide EncodeLength, SortedKids, InOrder, Unparse, UnparseAll, Concat, Encodings;
      UnparseAllConcat(b.kids);
      InOrderExactly(b.kids);
      DerFormsExactly(b.kids);
    }
  }

  lemma {:induction false} DerFormsExactly(bs: seq<Ber>)
    ensures IsCanonAll(bs) <==> DerForms(bs)
    decreases bs, 0
  {
    if bs != [] {
      DerFormExactly(bs[0]);
      DerFormsExactly(bs[1..]);
    }
  }

  /** Every output is the encoding of one element in this form. */
  lemma OutputIsDer(s: Bytes)
    requires Normalizer.BerToDer(s).Some? && |Normalizer.BerToDer(s).value| <= USIZE_MAX
    ensures exists c :: Normalizer.BerToDer(s).value == Unparse(c) && Wf(c) && DerForm(c)
  {
    hide Unparse, Wf, Canon, IsCanon, DerForm, Read;
    var c := Canon(Normalizer.Element(s)).value;
    Normalizer.DerReadsBack(s);
    DerFormExactly(c);
  }

  // ---------- String segments ----------

  /**
   * Which segments a constructed BIT STRING may have: primitive BIT STRINGs with an unused-bits octet of at most 7,
   * which is not zero in the last segment only and only with data octets behind it (clauses 8.6.2 and 8.6.4).
   */
  lemma BitSegmentsAccepted(cs: seq<Ber>)
    ensures Assemble([0x23], cs).Some? <==>
      forall i :: 0 <= i < |cs| ==>
        && cs[i].tag == [0x03] && |ContentOf(cs[i])| >= 1 && ContentOf(cs[i])[0] <= 7
        && (ContentOf(cs[i])[0] != 0 ==> i == |cs| - 1 && |ContentOf(cs[i])| >= 2)
  {
    hide ContentOf, JoinBits;
    var parts := Contents(cs);
    forall i | 0 <= i < |cs| && cs[i].tag != [0x03] ensures cs[i] in cs {
    }
    if forall i :: 0 <= i < |cs| ==> cs[i].tag == [0x03] {
      assert forall c :: c in cs ==> c.tag == [0x03];
    }
    assert forall i :: 0 <= i < |cs| ==> parts[i] == ContentOf(cs[i]);
  }

  /** A constructed OCTET STRING takes primitive OCTET STRINGs. */
  lemma OctetSegmentsAccepted(cs: seq<Ber>)
    ensures Assemble([0x24], cs).Some? <==> forall i :: 0 <= i < |cs| ==> cs[i].tag == [0x04]
  {
    hide Concat, Contents;
    if forall i :: 0 <= i < |cs| ==> cs[i].tag == [0x04] {
      assert forall c :: c in cs ==> c.tag == [0x04];
    }
    forall i | 0 <= i < |cs| && cs[i].tag != [0x04] ensures cs[i] in cs {
    }
  }

  /** The bits of a string are those of its octets, bit 8 first. */
  lemma BitsOfOctet(x: byte, i: nat)
    requires i < 8
    ensures OctetBits(x)[i] <==> Bit(x, 7 - i)
  {
    match i
    case 0 =>
    case 1 =>
    case 2 =>
    case 3 =>
    case 4 =>
    case 5 =>
    case 6 =>
    case _ =>
  }

  lemma {:induction false} BitsInOrder(s: Bytes, k: nat)
    requires k < 8 * |s|
    ensures AllBits(s)[k] <==> Bit(s[k / 8], 7 - k % 8)
  {
    hide Bit;
    if k < 8 {
      BitsOfOctet(s[0], k);
    } else {
      BitsInOrder(s[1..], k - 8);
      assert (k - 8) / 8 == k / 8 - 1 && (k - 8) % 8 == k % 8;
      assert s[1..][k / 8 - 1] == s[k / 8];
    }
  }

  /** A segment stands for its data bits but for as many of the last as its first octet says. */
  lemma {:induction false} SegmentBits(seg: Bytes)
    requires seg != [] && seg[0] <= 7 && (seg[0] != 0 ==> |seg| >= 2)
    ensures |BitsOf(seg)| == 8 * (|seg| - 1) - seg[0] as int
    ensures forall k :: 0 <= k < |BitsOf(seg)| ==> (BitsOf(seg)[k] <==> Bit(seg[1 + k / 8], 7 - k % 8))
  {
    hide Bit, AllBits;
    forall k | 0 <= k < |BitsOf(seg)| ensures BitsOf(seg)[k] <==> Bit(seg[1 + k / 8], 7 - k % 8) {
      BitsInOrder(DataOctets(seg), k);
    }
  }
}
