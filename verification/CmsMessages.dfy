// What `ber_to_der_cms` does with a message, by the octets and the object identifier it starts with.
module CmsMessages {
  import opened Octets
  import opened LengthCodec
  import opened BerSyntax
  import opened BerCanon
  import opened BerOctets
  import opened ObjectIdentifiers
  import opened CmsTree
  import opened CmsMeaning
  import Normalizer

  /** The arcs of id-signedData: {iso(1) member-body(2) us(840) rsadsi(113549) pkcs(1) pkcs-7(7) signedData(2)}. */
  lemma {:induction false} SignedDataContent()
    ensures OidContent([1, 2, 840, 113549, 1, 7, 2]) == ID_SIGNED_DATA
  {
    hide *;
    var n1: seq<nat> := [2] + [];
    var n2 := [7] + n1;
    var n3 := [1] + n2;
    var n4 := [113549] + n3;
    var n5 := [840] + n4;
    ArcsAreNumbers();
    SignedDataNumbers();
    SubidentifiersCons(2, []);
    SubidentifiersCons(7, n1);
    SubidentifiersCons(1, n2);
    SubidentifiersCons(113549, n3);
    SubidentifiersCons(840, n4);
    SubidentifiersCons(42, n5);
    SignedDataOctets();
  }

  lemma ArcsAreNumbers()
    ensures OidContent([1, 2, 840, 113549, 1, 7, 2]) == Subidentifiers([42] + ([840] + ([113549] + ([1] + ([7] + ([2] + []))))))
  {
    hide Subidentifiers;
    assert [40 * 1 + 2] + [1, 2, 840, 113549, 1, 7, 2][2..] == [42] + ([840] + ([113549] + ([1] + ([7] + ([2] + [])))));
  }

  lemma SignedDataNumbers()
    ensures Subidentifier(42) == [0x2A] && Subidentifier(1) == [1] && Subidentifier(7) == [7] && Subidentifier(2) == [2]
    ensures Subidentifier(840) == [0x86, 0x48] && Subidentifier(113549) == [0x86, 0xF7, 0x0D]
  {
    assert Leading(0) == [];
    assert Leading(6) == [0x86];
    assert Leading(887) == [0x86] + [0xF7];
  }

  lemma SignedDataOctets()
    ensures ID_SIGNED_DATA == [0x2A] + ([0x86, 0x48] + ([0x86, 0xF7, 0x0D] + ([1] + ([7] + ([2] + [])))))
  {
  }

  // ---------- The parts of a message ----------

  /** A constructed element with this identifier octet, in the definite or the indefinite form. */
  predicate IsNode(b: Ber, t: byte) { !b.Primitive? && b.tag == [t] }

  /** A SEQUENCE that starts with this object identifier. */
  predicate StartsWithOid(b: Ber, arcs: seq<nat>)
    requires |arcs| >= 2
  {
    IsNode(b, 0x30) && b.kids != [] && b.kids[0].tag == [0x06] && ContentOf(b.kids[0]) == OidContent(arcs)
  }

  predicate IsSignedData(b: Ber) { StartsWithOid(b, [1, 2, 840, 113549, 1, 7, 2]) }

  /** [0] holds a SEQUENCE first. */
  predicate HoldsSequence(b: Ber) {
    !b.Primitive? && |b.kids| >= 2 && IsNode(b.kids[1], 0xA0) && b.kids[1].kids != [] && IsNode(b.kids[1].kids[0], 0x30)
  }

  /** [0] is empty and a SEQUENCE stands behind it. */
  predicate SequenceBehind(b: Ber) {
    !b.Primitive? && |b.kids| >= 3 && IsNode(b.kids[1], 0xA0) && b.kids[1].kids == [] && IsNode(b.kids[2], 0x30)
  }

  ghost predicate ImplicitSetInOrder(f: Ber) {
    f.Definite? && (f.tag == [0xA0] || f.tag == [0xA1]) ==> InOrder(f.kids)
  }

  ghost predicate SignerInfoInOrder(si: Ber) {
    si.Definite? && si.tag == [0x30] ==> forall f :: f in si.kids ==> ImplicitSetInOrder(f)
  }

  /** Every [0], [1] and SET of a SignedData is in order, and so are [0] and [1] of each SEQUENCE in its SETs. */
  ghost predicate SignedDataInOrder(sd: Ber) {
    && sd.Definite? && sd.tag == [0x30]
    && (forall f :: f in sd.kids ==> ImplicitSetInOrder(f))
    && (forall f :: f in sd.kids && f.Definite? && f.tag == [0x31] ==>
          InOrder(f.kids) && forall si :: si in f.kids ==> SignerInfoInOrder(si))
  }

  lemma FieldInOrder(f: Ber)
    ensures FieldSorted(f) <==> ImplicitSetInOrder(f)
  {
    hide SortedKids, InOrder;
    if f.Definite? {
      InOrderExactly(f.kids);
    }
  }

  lemma SignerInfoOrder(si: Ber)
    ensures SignerInfoSorted(si) <==> SignerInfoInOrder(si)
  {
    hide FieldSorted, ImplicitSetInOrder;
    if si.Definite? {
      forall f | f in si.kids ensures FieldSorted(f) <==> ImplicitSetInOrder(f) {
        FieldInOrder(f);
      }
    }
  }

  lemma SdFieldOrder(f: Ber)
    ensures SdFieldSorted(f) <==> (
      && ImplicitSetInOrder(f)
      && (f.Definite? && f.tag == [0x31] ==> InOrder(f.kids) && forall si :: si in f.kids ==> SignerInfoInOrder(si)))
  {
    hide FieldSorted, ImplicitSetInOrder, SortedKids, InOrder, SignerInfoSorted, SignerInfoInOrder;
    FieldInOrder(f);
    if f.Definite? {
      InOrderExactly(f.kids);
      forall si | si in f.kids ensures SignerInfoSorted(si) <==> SignerInfoInOrder(si) {
        SignerInfoOrder(si);
      }
    }
  }

  lemma SignedDataOrder(sd: Ber)
    requires sd.Definite? && sd.tag == [0x30]
    ensures IsSequence(sd) && (SignedDataSorted(sd) <==> SignedDataInOrder(sd))
  {
    hide SdFieldSorted, ImplicitSetInOrder, InOrder, SignerInfoInOrder;
    forall f | f in sd.kids
      ensures SdFieldSorted(f) <==> (
        && ImplicitSetInOrder(f)
        && (f.Definite? && f.tag == [0x31] ==> InOrder(f.kids) && forall si :: si in f.kids ==> SignerInfoInOrder(si)))
    {
      SdFieldOrder(f);
    }
  }

  // ---------- The place of SignedData ----------

  lemma {:induction false} PlaceByParts(b: Ber)
    ensures IsSignedData(b) && HoldsSequence(b) <==> PlaceOf(b).InExplicit?
    ensures IsSignedData(b) && SequenceBehind(b) <==> PlaceOf(b).AfterExplicit?
    ensures IsNode(b, 0x30) && b.kids != [] && !IsSignedData(b) <==> PlaceOf(b).OtherContent?
  {
    SignedDataContent();
    hide ContentOf, OidContent;
  }

  /** In DER the walk finds the same place. */
  lemma {:induction false} LocateInDer(c: Ber)
    requires Good(c, 0)
    ensures Locate(c) == PlaceOf(c)
  {
    hide ContentOf;
    if Locate(c).Malformed? && c.Definite? {
      GoodKids(c, 0);
      if |c.kids| >= 2 {
        GoodMember(c.kids, 1, 1);
        if c.kids[1].Definite? && c.kids[1].kids != [] {
          GoodKids(c.kids[1], 1);
          GoodMember(c.kids[1].kids, 0, 2);
        }
        if |c.kids| >= 3 {
          GoodMember(c.kids, 2, 1);
        }
      }
    }
  }

  /**
   * What becomes of an input that the first pass accepts. A message with id-signedData and a SEQUENCE in [0] comes out
   * with that SEQUENCE in order; with an empty [0] it is the SEQUENCE behind it; other object identifiers leave the
   * result of the first pass as it is; and everything else is refused.
   */
  lemma {:induction false} MessageOutcome(s: Bytes)
    requires Normalizer.BerToDer(s).Some? && |Normalizer.BerToDer(s).value| <= USIZE_MAX
    ensures var b := Normalizer.Element(s);
      && (IsSignedData(b) && HoldsSequence(b) ==>
            exists c :: BerToDerCms(s) == Some(Unparse(c)) && Wf(c) && DerForm(c) && IsSignedData(c) && HoldsSequence(c)
              && SignedDataInOrder(c.kids[1].kids[0]))
      && (IsSignedData(b) && SequenceBehind(b) ==>
            exists c :: BerToDerCms(s) == Some(Unparse(c)) && Wf(c) && DerForm(c) && IsSignedData(c) && SequenceBehind(c)
              && SignedDataInOrder(c.kids[2]))
      && (IsNode(b, 0x30) && b.kids != [] && !IsSignedData(b) ==> BerToDerCms(s) == Normalizer.BerToDer(s))
      && (BerToDerCms(s).None? <==>
            !IsNode(b, 0x30) || b.kids == [] || (IsSignedData(b) && !HoldsSequence(b) && !SequenceBehind(b)))
  {
    var b := Normalizer.Element(s);
    var d := Canon(b).value;
    Normalizer.DerReadsBack(s);
    PlaceByParts(b);
    PlaceOfCanon(b);
    LocateInDer(d);
    OutcomeByPlace(s);
    hide *;
    if !Locate(d).Malformed? && !Locate(d).OtherContent? {
      var c := OutputElement(s);
      SortedOutcome(s);
      PlaceByParts(c);
    }
  }

  lemma {:induction false} OutcomeByPlace(s: Bytes)
    requires Normalizer.BerToDer(s).Some?
    ensures var d := Canon(Normalizer.Element(s)).value;
      && (BerToDerCms(s).None? <==> Locate(d).Malformed?)
      && (Locate(d).OtherContent? ==> BerToDerCms(s) == Normalizer.BerToDer(s))
  {
    hide Locate, Canon, Read, Unparse;
  }

  lemma {:induction false} SortedOutcome(s: Bytes)
    requires Normalizer.BerToDer(s).Some? && |Normalizer.BerToDer(s).value| <= USIZE_MAX
    requires var d := Canon(Normalizer.Element(s)).value; Locate(d).InExplicit? || Locate(d).AfterExplicit?
    ensures BerToDerCms(s).Some?
    ensures var c := OutputElement(s);
      && BerToDerCms(s) == Some(Unparse(c)) && Wf(c) && DerForm(c) && PlaceOf(c) == Locate(Canon(Normalizer.Element(s)).value)
      && (PlaceOf(c).InExplicit? ==> SignedDataInOrder(c.kids[1].kids[0]))
      && (PlaceOf(c).AfterExplicit? ==> SignedDataInOrder(c.kids[2]))
  {
    hide Canon, Read, Unparse, Wf, Fits, IsCanon, DerForm, SignedDataSorted, SignedDataInOrder, SortSignedData, ContentOf;
    OutcomeByPlace(s);
    BerToDerCmsSorted(s);
    var c := OutputElement(s);
    SortCmsMeaning(Canon(Normalizer.Element(s)).value);
    LocatedPlace(c);
    DerFormExactly(c);
    SignedDataOrder(SignedData(c));
  }
}
