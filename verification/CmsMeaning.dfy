// What a ContentInfo means when the implicitly tagged SET OF fields of SignedData (RFC 5652, sections 5.1 and 5.3)
// are read as sets, and that `ber_to_der_cms` is canonical for this meaning.
module CmsMeaning {
  import opened Arrangements
  import opened Octets
  import opened LengthCodec
  import opened BerSyntax
  import opened BerCanon
  import opened BerMeaning
  import opened CmsTree
  import Normalizer

  // ---------- The meaning, for any length forms ----------

  /** Constructed with this tag, in the definite or the indefinite form. */
  predicate Node(b: Ber, tag: Bytes) { !b.Primitive? && b.tag == tag }

  predicate ReadsAsSet(f: Ber) { Node(f, CONTEXT_0) || Node(f, CONTEXT_1) }

  function FieldMeaning(f: Ber): Value {
    if ReadsAsSet(f) then Items(f.tag, [SetOf(multiset(Meanings(f.kids)))]) else Meaning(f)
  }

  function SignerInfoMeaning(si: Ber): Value {
    if Node(si, SEQUENCE) then Items(SEQUENCE, Map(FieldMeaning, si.kids)) else Meaning(si)
  }

  function SdFieldMeaning(f: Ber): Value {
    if Node(f, SET) then SetOf(multiset(Map(SignerInfoMeaning, f.kids))) else FieldMeaning(f)
  }

  function SdMeaning(sd: Ber): Value
    requires Node(sd, SEQUENCE)
  {
    Items(SEQUENCE, Map(SdFieldMeaning, sd.kids))
  }

  /** Where SignedData stands in a ContentInfo that may use indefinite forms. */
  function PlaceOf(ci: Ber): Place {
    if !Node(ci, SEQUENCE) || ci.kids == [] then Malformed
    else if ci.kids[0].tag != OID || ContentOf(ci.kids[0]) != ID_SIGNED_DATA then OtherContent
    else if |ci.kids| == 1 || !Node(ci.kids[1], CONTEXT_0) then Malformed
    else if ci.kids[1].kids != [] then
      if Node(ci.kids[1].kids[0], SEQUENCE) then InExplicit else Malformed
    else if |ci.kids| >= 3 && Node(ci.kids[2], SEQUENCE) then AfterExplicit
    else Malformed
  }

  /** The meaning of a ContentInfo; only the located SignedData is read differently from Meaning. */
  function ContentMeaning(ci: Ber): Value {
    match PlaceOf(ci)
    case InExplicit =>
      var e := ci.kids[1];
      Items(SEQUENCE, [Meaning(ci.kids[0]), Items(CONTEXT_0, [SdMeaning(e.kids[0])] + Meanings(e.kids[1..]))]
                      + Meanings(ci.kids[2..]))
    case AfterExplicit =>
      Items(SEQUENCE, [Meaning(ci.kids[0]), Meaning(ci.kids[1]), SdMeaning(ci.kids[2])] + Meanings(ci.kids[3..]))
    case _ => Meaning(ci)
  }

  /** The walk finds what stands in definite form. */
  lemma LocatedPlace(ci: Ber)
    requires !Locate(ci).Malformed?
    ensures PlaceOf(ci) == Locate(ci)
  {
  }

  // ---------- The first pass keeps the meaning ----------

  lemma {:induction false} CanonAllAt(bs: seq<Ber>, i: nat)
    requires CanonAll(bs).Some? && WfAll(bs) && i < |bs|
    ensures Wf(bs[i]) && Canon(bs[i]).Some? && CanonAll(bs).value[i] == Canon(bs[i]).value
  {
    hide Canon, Wf;
    if i > 0 {
      CanonAllAt(bs[1..], i - 1);
    }
  }

  lemma {:induction false} CanonShape(b: Ber)
    requires Wf(b) && Canon(b).Some?
    ensures b.Primitive? ==> Canon(b).value == PrimitiveOf(b.tag, b.content) && !Constructed(b.tag[0])
    ensures !b.Primitive? ==> WfAll(b.kids) && CanonAll(b.kids).Some? && Constructed(b.tag[0])
    ensures !b.Primitive? && IsConstructedString(b.tag) ==> Canon(b).value.Primitive? && Canon(b).value.tag == PrimitiveTag(b.tag)
    ensures !b.Primitive? && !IsConstructedString(b.tag) ==>
      Canon(b).value == NodeOf(b.tag, if b.tag == SET then SortKids(CanonAll(b.kids).value) else CanonAll(b.kids).value)
  {
    hide JoinBits, Concat, SegmentsOk, SortKids;
  }

  /** Nodes stay nodes; only their set order changes. */
  lemma {:induction false} CanonNode(b: Ber, tag: Bytes)
    requires Wf(b) && Canon(b).Some? && !IsConstructedString(tag) && tag != [0x03] && tag != [0x04]
    ensures Node(Canon(b).value, tag) <==> Node(b, tag)
    ensures Node(b, tag) ==> WfAll(b.kids) && CanonAll(b.kids).Some?
    ensures Node(b, tag) && tag != SET ==> Canon(b).value.kids == CanonAll(b.kids).value
    ensures Node(b, tag) && tag == SET ==> Canon(b).value.kids == SortKids(CanonAll(b.kids).value)
  {
    CanonShape(b);
    hide Canon, Wf, WfAll, CanonAll, SortKids;
  }

  lemma {:induction false} FieldMeaningOfCanon(f: Ber)
    requires Wf(f) && Canon(f).Some?
    ensures FieldMeaning(Canon(f).value) == FieldMeaning(f)
  {
    hide Canon, CanonAll, Wf, WfAll, Meaning;
    CanonNode(f, CONTEXT_0);
    CanonNode(f, CONTEXT_1);
    if ReadsAsSet(f) {
      CanonAllMeaning(f.kids);
    } else {
      CanonMeaning(f);
    }
  }

  lemma {:induction false} SignerInfoMeaningOfCanon(si: Ber)
    requires Wf(si) && Canon(si).Some?
    ensures SignerInfoMeaning(Canon(si).value) == SignerInfoMeaning(si)
  {
    hide Canon, CanonAll, Wf, WfAll, Meaning, FieldMeaning;
    CanonNode(si, SEQUENCE);
    if Node(si, SEQUENCE) {
      var ks := CanonAll(si.kids).value;
      forall i | 0 <= i < |si.kids| ensures FieldMeaning(ks[i]) == FieldMeaning(si.kids[i]) {
        CanonAllAt(si.kids, i);
        FieldMeaningOfCanon(si.kids[i]);
      }
      assert Map(FieldMeaning, ks) == Map(FieldMeaning, si.kids);
    } else {
      CanonMeaning(si);
    }
  }

  lemma {:induction false} SdFieldMeaningOfCanon(f: Ber)
    requires Wf(f) && Canon(f).Some?
    ensures SdFieldMeaning(Canon(f).value) == SdFieldMeaning(f)
  {
    hide Canon, CanonAll, Wf, WfAll, Meaning, FieldMeaning, SignerInfoMeaning;
    CanonNode(f, SET);
    if Node(f, SET) {
      var ks := CanonAll(f.kids).value;
      forall i | 0 <= i < |f.kids| ensures SignerInfoMeaning(ks[i]) == SignerInfoMeaning(f.kids[i]) {
        CanonAllAt(f.kids, i);
        SignerInfoMeaningOfCanon(f.kids[i]);
      }
      assert Map(SignerInfoMeaning, ks) == Map(SignerInfoMeaning, f.kids);
      SortKidsEncodings(ks);
      MapPermute(SignerInfoMeaning, SortKids(ks), ks);
    } else {
      FieldMeaningOfCanon(f);
    }
  }

  lemma {:induction false} SdMeaningOfCanon(sd: Ber)
    requires Wf(sd) && Canon(sd).Some? && Node(sd, SEQUENCE)
    ensures Node(Canon(sd).value, SEQUENCE) && SdMeaning(Canon(sd).value) == SdMeaning(sd)
  {
    hide Canon, CanonAll, Wf, WfAll, SdFieldMeaning;
    CanonNode(sd, SEQUENCE);
    var ks := CanonAll(sd.kids).value;
    forall i | 0 <= i < |sd.kids| ensures SdFieldMeaning(ks[i]) == SdFieldMeaning(sd.kids[i]) {
      CanonAllAt(sd.kids, i);
      SdFieldMeaningOfCanon(sd.kids[i]);
    }
    assert Map(SdFieldMeaning, ks) == Map(SdFieldMeaning, sd.kids);
  }

  lemma {:induction false} OidOfCanon(b: Ber)
    requires Wf(b) && Canon(b).Some?
    ensures (Canon(b).value.tag == OID && ContentOf(Canon(b).value) == ID_SIGNED_DATA)
       <==> (b.tag == OID && ContentOf(b) == ID_SIGNED_DATA)
  {
    CanonShape(b);
    hide Canon, CanonAll, Wf, WfAll;
  }

  /** The parts of a ContentInfo that decide the place, in normal form. */
  lemma {:induction false} PartsOfCanon(ci: Ber)
    requires Wf(ci) && Canon(ci).Some? && Node(ci, SEQUENCE)
    ensures var c := Canon(ci).value;
      && c.Definite? && |c.kids| == |ci.kids|
      && (forall i :: 0 <= i < |ci.kids| ==> Wf(ci.kids[i]) && Canon(ci.kids[i]).Some? && c.kids[i] == Canon(ci.kids[i]).value)
      && Meanings(c.kids) == Meanings(ci.kids)
  {
    CanonShape(ci);
    hide Canon, CanonAll, Wf, WfAll, Meaning;
    forall i | 0 <= i < |ci.kids|
      ensures Wf(ci.kids[i]) && Canon(ci.kids[i]).Some? && CanonAll(ci.kids).value[i] == Canon(ci.kids[i]).value
    {
      CanonAllAt(ci.kids, i);
    }
    CanonAllMeaning(ci.kids);
  }

  lemma {:induction false} PartsOfExplicit(e: Ber)
    requires Wf(e) && Canon(e).Some? && Node(e, CONTEXT_0)
    ensures var c := Canon(e).value;
      && c.Definite? && |c.kids| == |e.kids|
      && (e.kids != [] ==> Wf(e.kids[0]) && Canon(e.kids[0]).Some? && c.kids[0] == Canon(e.kids[0]).value)
      && Meanings(c.kids) == Meanings(e.kids)
  {
    CanonShape(e);
    hide Canon, CanonAll, Wf, WfAll, Meaning;
    if e.kids != [] {
      CanonAllAt(e.kids, 0);
    }
    CanonAllMeaning(e.kids);
  }

  lemma {:induction false} PlaceOfCanon(ci: Ber)
    requires Wf(ci) && Canon(ci).Some?
    ensures PlaceOf(Canon(ci).value) == PlaceOf(ci)
  {
    hide Canon, CanonAll, Wf, WfAll, Meaning, Meanings, ContentOf;
    CanonNode(ci, SEQUENCE);
    if Node(ci, SEQUENCE) && ci.kids != [] {
      PartsOfCanon(ci);
      OidOfCanon(ci.kids[0]);
      if |ci.kids| > 1 {
        var e := ci.kids[1];
        CanonNode(e, CONTEXT_0);
        if Node(e, CONTEXT_0) {
          PartsOfExplicit(e);
          if e.kids != [] {
            CanonNode(e.kids[0], SEQUENCE);
          } else if |ci.kids| > 2 {
            CanonNode(ci.kids[2], SEQUENCE);
          }
        }
      }
    }
  }

  lemma {:induction false} TailMeanings(a: seq<Ber>, i: nat)
    requires i <= |a|
    ensures Meanings(a[i..]) == Meanings(a)[i..]
  {
    hide Meaning;
  }

  /** The normal form of a ContentInfo means what the ContentInfo means. */
  lemma {:induction false} ContentMeaningOfCanon(ci: Ber)
    requires Wf(ci) && Canon(ci).Some?
    ensures ContentMeaning(Canon(ci).value) == ContentMeaning(ci)
  {
    hide Canon, CanonAll, Wf, WfAll, Meaning, SdMeaning, ContentOf;
    PlaceOfCanon(ci);
    var c := Canon(ci).value;
    match PlaceOf(ci)
    case InExplicit =>
      PartsOfCanon(ci);
      TailMeanings(c.kids, 2);
      TailMeanings(ci.kids, 2);
      CanonMeaning(ci.kids[0]);
      PartsOfExplicit(ci.kids[1]);
      TailMeanings(c.kids[1].kids, 1);
      TailMeanings(ci.kids[1].kids, 1);
      SdMeaningOfCanon(ci.kids[1].kids[0]);
    case AfterExplicit =>
      PartsOfCanon(ci);
      TailMeanings(c.kids, 3);
      TailMeanings(ci.kids, 3);
      CanonMeaning(ci.kids[0]);
      CanonMeaning(ci.kids[1]);
      SdMeaningOfCanon(ci.kids[2]);
    case _ =>
      CanonMeaning(ci);
  }

  // ---------- The implicit-set pass keeps the meaning ----------

  lemma SortFieldMeaning(f: Ber)
    ensures FieldMeaning(SortField(f)) == FieldMeaning(f)
  {
    if IsImplicitSet(f) { MeaningsOfSorted(f.kids); }
  }

  lemma SortSignerInfoMeaning(si: Ber)
    ensures SignerInfoMeaning(SortSignerInfo(si)) == SignerInfoMeaning(si)
  {
    if IsSequence(si) {
      forall i | 0 <= i < |si.kids| ensures FieldMeaning(SortFields(si.kids)[i]) == FieldMeaning(si.kids[i]) {
        SortFieldMeaning(si.kids[i]);
      }
      assert Map(FieldMeaning, SortFields(si.kids)) == Map(FieldMeaning, si.kids);
    }
  }

  lemma SortSdFieldMeaning(f: Ber)
    ensures SdFieldMeaning(SortSdField(f)) == SdFieldMeaning(f)
  {
    if f.Definite? && f.tag == SET {
      var sis := SortSignerInfos(f.kids);
      SortKidsEncodings(sis);
      MapPermute(SignerInfoMeaning, SortKids(sis), sis);
      forall i | 0 <= i < |f.kids| ensures SignerInfoMeaning(sis[i]) == SignerInfoMeaning(f.kids[i]) {
        SortSignerInfoMeaning(f.kids[i]);
      }
      assert Map(SignerInfoMeaning, sis) == Map(SignerInfoMeaning, f.kids);
    } else {
      SortFieldMeaning(f);
    }
  }

  lemma SortSignedDataMeaning(sd: Ber)
    requires IsSequence(sd)
    ensures SdMeaning(SortSignedData(sd)) == SdMeaning(sd)
  {
    forall i | 0 <= i < |sd.kids| ensures SdFieldMeaning(SortSdFields(sd.kids)[i]) == SdFieldMeaning(sd.kids[i]) {
      SortSdFieldMeaning(sd.kids[i]);
    }
    assert Map(SdFieldMeaning, SortSdFields(sd.kids)) == Map(SdFieldMeaning, sd.kids);
  }

  lemma SortCmsMeaning(ci: Ber)
    requires SortCms(ci).Some?
    ensures ContentMeaning(SortCms(ci).value) == ContentMeaning(ci)
    ensures Locate(SortCms(ci).value) == Locate(ci)
  {
    hide ContentMeaning, SortSignedData, ReplaceSignedData;
    if !Locate(ci).OtherContent? {
      SortSignedDataMeaning(SignedData(ci));
      SortedIsSequence(SignedData(ci));
      ReplacedMeaning(ci, SortSignedData(SignedData(ci)));
    }
  }

  lemma SortedIsSequence(sd: Ber)
    requires IsSequence(sd)
    ensures IsSequence(SortSignedData(sd))
  {
  }

  lemma ReplacedMeaning(ci: Ber, sd: Ber)
    requires Locate(ci).InExplicit? || Locate(ci).AfterExplicit?
    requires IsSequence(sd) && SdMeaning(sd) == SdMeaning(SignedData(ci))
    ensures ContentMeaning(ReplaceSignedData(ci, sd)) == ContentMeaning(ci)
    ensures Locate(ReplaceSignedData(ci, sd)) == Locate(ci)
  {
    hide Meaning, Meanings, SdMeaning, ContentOf;
    var out := ReplaceSignedData(ci, sd);
    assert Locate(out) == Locate(ci);
    LocatedPlace(ci);
    LocatedPlace(out);
    if Locate(ci).InExplicit? {
      assert out.kids[2..] == ci.kids[2..] && out.kids[1].kids[1..] == ci.kids[1].kids[1..];
    } else {
      assert out.kids[3..] == ci.kids[3..];
    }
  }

  // ---------- The sorted form is determined by the meaning ----------

  lemma FieldDetermined(a: Ber, b: Ber, depth: nat)
    requires Good(a, depth) && Good(b, depth) && FieldSorted(a) && FieldSorted(b)
    requires FieldMeaning(a) == FieldMeaning(b)
    ensures a == b
  {
    FieldParts(a, depth);
    FieldParts(b, depth);
    hide Meaning, Good, GoodAll, SortedKids;
    SameKind(a, b);
    if IsImplicitSet(a) && IsImplicitSet(b) {
      SetDetermined(a.kids, b.kids, depth + 1);
    } else {
      CanonDetermined(a, b, depth);
    }
  }

  /** No other field has the meaning of an implicit set. */
  lemma SameKind(a: Ber, b: Ber)
    requires FieldMeaning(a) == FieldMeaning(b) && !a.Indefinite? && !b.Indefinite?
    ensures IsImplicitSet(a) <==> IsImplicitSet(b)
  {
  }

  lemma FieldParts(f: Ber, depth: nat)
    requires Good(f, depth) && FieldSorted(f)
    ensures !f.Indefinite? && (IsImplicitSet(f) ==> GoodAll(f.kids, depth + 1) && SortedKids(f.kids))
  {
  }

  lemma {:induction false} SetDetermined(a: seq<Ber>, b: seq<Ber>, depth: nat)
    requires GoodAll(a, depth) && GoodAll(b, depth) && SortedKids(a) && SortedKids(b)
    requires multiset(Meanings(a)) == multiset(Meanings(b))
    ensures a == b
  {
    hide Wf, Fits, IsCanon, Meaning, SortedKids;
    forall x, y | x in a && y in b && Meaning(x) == Meaning(y)
      ensures x == y
    {
      MembersOf(a, x, depth);
      MembersOf(b, y, depth);
      CanonDetermined(x, y, depth);
    }
    assert Map(Meaning, a) == Meanings(a) && Map(Meaning, b) == Meanings(b);
    MatchMembers(Meaning, a, b);
    SortedKidsUnique(a, b, depth);
  }

  lemma SignerInfoDetermined(a: Ber, b: Ber, depth: nat)
    requires Good(a, depth) && Good(b, depth) && SignerInfoSorted(a) && SignerInfoSorted(b)
    requires SignerInfoMeaning(a) == SignerInfoMeaning(b)
    ensures a == b
  {
    if IsSequence(a) && IsSequence(b) {
      var ma, mb := Map(FieldMeaning, a.kids), Map(FieldMeaning, b.kids);
      assert |a.kids| == |ma| == |mb| == |b.kids|;
      forall i | 0 <= i < |a.kids| ensures a.kids[i] == b.kids[i] {
        assert ma[i] == mb[i];
        GoodMember(a.kids, i, depth + 1);
        GoodMember(b.kids, i, depth + 1);
        FieldDetermined(a.kids[i], b.kids[i], depth + 1);
      }
      assert a.kids == b.kids;
    } else {
      CanonDetermined(a, b, depth);
    }
  }

  lemma SdFieldDetermined(a: Ber, b: Ber, depth: nat)
    requires Good(a, depth) && Good(b, depth) && SdFieldSorted(a) && SdFieldSorted(b)
    requires SdFieldMeaning(a) == SdFieldMeaning(b)
    ensures a == b
  {
    if a.Definite? && a.tag == SET {
      assert b.Definite? && b.tag == SET;
      forall x, y | x in a.kids && y in b.kids && SignerInfoMeaning(x) == SignerInfoMeaning(y)
        ensures x == y
      {
        var i :| 0 <= i < |a.kids| && a.kids[i] == x;
        var j :| 0 <= j < |b.kids| && b.kids[j] == y;
        GoodMember(a.kids, i, depth + 1);
        GoodMember(b.kids, j, depth + 1);
        SignerInfoDetermined(x, y, depth + 1);
      }
      MatchMembers(SignerInfoMeaning, a.kids, b.kids);
      SortedKidsUnique(a.kids, b.kids, depth + 1);
    } else {
      FieldDetermined(a, b, depth);
    }
  }

  lemma SignedDataDetermined(a: Ber, b: Ber, depth: nat)
    requires IsSequence(a) && IsSequence(b) && Good(a, depth) && Good(b, depth)
    requires SignedDataSorted(a) && SignedDataSorted(b) && SdMeaning(a) == SdMeaning(b)
    ensures a == b
  {
    var ma, mb := Map(SdFieldMeaning, a.kids), Map(SdFieldMeaning, b.kids);
    assert |a.kids| == |ma| == |mb| == |b.kids|;
    forall i | 0 <= i < |a.kids| ensures a.kids[i] == b.kids[i] {
      assert ma[i] == mb[i];
      GoodMember(a.kids, i, depth + 1);
      GoodMember(b.kids, i, depth + 1);
      SdFieldDetermined(a.kids[i], b.kids[i], depth + 1);
    }
    assert a.kids == b.kids;
  }

  lemma {:induction false} MeaningsDetermined(a: seq<Ber>, b: seq<Ber>, depth: nat)
    requires GoodAll(a, depth) && GoodAll(b, depth) && Meanings(a) == Meanings(b)
    ensures a == b
  {
    assert |a| == |Meanings(a)| == |b|;
    forall i | 0 <= i < |a| ensures a[i] == b[i] {
      assert Meanings(a)[i] == Meanings(b)[i];
      GoodMember(a, i, depth);
      GoodMember(b, i, depth);
      CanonDetermined(a[i], b[i], depth);
    }
  }

  /** A fully processed ContentInfo. */
  predicate Processed(ci: Ber) {
    Good(ci, 0) && !Locate(ci).Malformed? && LocatedSorted(ci)
  }

  lemma ExplicitDetermined(a: Ber, b: Ber)
    requires Processed(a) && Processed(b) && Locate(a).InExplicit? && Locate(b).InExplicit?
    requires ContentMeaning(a) == ContentMeaning(b)
    ensures a.kids[1] == b.kids[1] && a.kids[2..] == b.kids[2..]
  {
    hide Good, GoodAll, Meaning, SdMeaning, SignedDataSorted;
    var ia, ib := ContentMeaning(a).items, ContentMeaning(b).items;
    var ea, eb := a.kids[1], b.kids[1];
    GoodKids(a, 0);
    GoodKids(b, 0);
    GoodTail(a.kids, 2, 1);
    GoodTail(b.kids, 2, 1);
    assert ia[2..] == Meanings(a.kids[2..]) && ib[2..] == Meanings(b.kids[2..]);
    MeaningsDetermined(a.kids[2..], b.kids[2..], 1);
    GoodMember(a.kids, 1, 1);
    GoodMember(b.kids, 1, 1);
    GoodKids(ea, 1);
    GoodKids(eb, 1);
    GoodTail(ea.kids, 1, 2);
    GoodTail(eb.kids, 1, 2);
    assert ia[1] == ib[1];
    assert ia[1].items[0] == ib[1].items[0];
    assert ia[1].items[1..] == Meanings(ea.kids[1..]) && ib[1].items[1..] == Meanings(eb.kids[1..]);
    MeaningsDetermined(ea.kids[1..], eb.kids[1..], 2);
    GoodMember(ea.kids, 0, 2);
    GoodMember(eb.kids, 0, 2);
    SignedDataDetermined(ea.kids[0], eb.kids[0], 2);
    assert ea.kids == [ea.kids[0]] + ea.kids[1..] && eb.kids == [eb.kids[0]] + eb.kids[1..];
    SameKidsSameElement(ea, eb, 1);
  }

  lemma SameKidsSameElement(a: Ber, b: Ber, depth: nat)
    requires a.Definite? && b.Definite? && Good(a, depth) && Good(b, depth) && a.tag == b.tag && a.kids == b.kids
    ensures a == b
  {
  }

  lemma GoodTail(bs: seq<Ber>, i: nat, depth: nat)
    requires i <= |bs| && GoodAll(bs, depth)
    ensures GoodAll(bs[i..], depth)
  {
    assert bs == bs[..i] + bs[i..];
    GoodAppend(bs[..i], bs[i..], depth);
  }

  lemma AfterExplicitDetermined(a: Ber, b: Ber)
    requires Processed(a) && Processed(b) && Locate(a).AfterExplicit? && Locate(b).AfterExplicit?
    requires ContentMeaning(a) == ContentMeaning(b)
    ensures a.kids[1] == b.kids[1] && a.kids[2] == b.kids[2] && a.kids[3..] == b.kids[3..]
  {
    hide Good, GoodAll, Meaning, SdMeaning, SignedDataSorted;
    var ia, ib := ContentMeaning(a).items, ContentMeaning(b).items;
    GoodKids(a, 0);
    GoodKids(b, 0);
    GoodTail(a.kids, 3, 1);
    GoodTail(b.kids, 3, 1);
    assert ia[3..] == Meanings(a.kids[3..]) && ib[3..] == Meanings(b.kids[3..]);
    MeaningsDetermined(a.kids[3..], b.kids[3..], 1);
    GoodMember(a.kids, 1, 1);
    GoodMember(b.kids, 1, 1);
    assert ia[1] == ib[1] && ia[2] == ib[2];
    MeaningOfGood(a.kids[1], b.kids[1], 1);
    GoodMember(a.kids, 2, 1);
    GoodMember(b.kids, 2, 1);
    SignedDataDetermined(a.kids[2], b.kids[2], 1);
  }

  lemma {:induction false} MeaningOfGood(a: Ber, b: Ber, depth: nat)
    requires Good(a, depth) && Good(b, depth) && Meaning(a) == Meaning(b)
    ensures a == b
  {
    CanonDetermined(a, b, depth);
  }

  /** The first item of the meaning is the OID, so both walks end in the same kind of place. */
  lemma SamePlace(a: Ber, b: Ber)
    requires Processed(a) && Processed(b) && ContentMeaning(a) == ContentMeaning(b)
    ensures a.kids[0] == b.kids[0] && Locate(a) == Locate(b)
  {
    hide Good, GoodAll, SdMeaning, SignedDataSorted;
    GoodKids(a, 0);
    GoodKids(b, 0);
    GoodMember(a.kids, 0, 1);
    GoodMember(b.kids, 0, 1);
    FirstItem(a);
    FirstItem(b);
    MeaningOfGood(a.kids[0], b.kids[0], 1);
    if !Locate(a).OtherContent? {
      SecondItem(a);
      SecondItem(b);
    }
  }

  lemma FirstItem(a: Ber)
    requires !Locate(a).Malformed? && !a.Primitive?
    ensures ContentMeaning(a).Items? && |ContentMeaning(a).items| >= 1 && ContentMeaning(a).items[0] == Meaning(a.kids[0])
  {
  }

  lemma SecondItem(a: Ber)
    requires Locate(a).InExplicit? || Locate(a).AfterExplicit?
    ensures var m := ContentMeaning(a);
      && m.Items? && |m.items| >= 2 && m.items[1].Items?
      && (m.items[1].items != [] <==> Locate(a).InExplicit?)
  {
  }

  /** Fully processed ContentInfos that mean the same are the same. */
  lemma ProcessedDetermined(a: Ber, b: Ber)
    requires Processed(a) && Processed(b) && ContentMeaning(a) == ContentMeaning(b)
    ensures a == b
  {
    hide Good, GoodAll, Meaning, SdMeaning, SignedDataSorted;
    SamePlace(a, b);
    match Locate(a)
    case OtherContent =>
      MeaningOfGood(a, b, 0);
    case InExplicit =>
      ExplicitDetermined(a, b);
      assert a.kids == [a.kids[0], a.kids[1]] + a.kids[2..] && b.kids == [b.kids[0], b.kids[1]] + b.kids[2..];
      SameKidsSameElement(a, b, 0);
    case AfterExplicit =>
      AfterExplicitDetermined(a, b);
      assert a.kids == [a.kids[0], a.kids[1], a.kids[2]] + a.kids[3..];
      assert b.kids == [b.kids[0], b.kids[1], b.kids[2]] + b.kids[3..];
      SameKidsSameElement(a, b, 0);
  }

  /** The meaning of an accepted input, as it stands. */
  function InputMeaning(s: Bytes): Value
    requires BerToDerCms(s).Some?
  {
    ContentMeaning(Normalizer.Element(s))
  }

  lemma SortedIsProcessed(c0: Ber)
    requires Good(c0, 0) && SortCms(c0).Some? && Good(SortCms(c0).value, 0)
    ensures Processed(SortCms(c0).value)
  {
    hide Good, SortSignedData, SignedDataSorted;
    SortCmsMeaning(c0);
    if !Locate(c0).OtherContent? {
      SignedDataGetsSorted(SignedData(c0));
    }
  }

  lemma OutputProcessed(s: Bytes)
    requires BerToDerCms(s).Some? && |Normalizer.BerToDer(s).value| <= USIZE_MAX
    ensures var c := OutputElement(s);
      Processed(c) && BerToDerCms(s).value == Unparse(c) && ContentMeaning(c) == InputMeaning(s)
  {
    var c0 := Canon(Normalizer.Element(s)).value;
    Normalizer.DerReadsBack(s);
    SortCmsGood(c0);
    ContentMeaningOfCanon(Normalizer.Element(s));
    SortCmsMeaning(c0);
    SortedIsProcessed(c0);
  }

  /** Two accepted messages give the same octets exactly when they mean the same, implicit sets read as sets. */
  lemma BerToDerCmsCanonical(x: Bytes, y: Bytes)
    requires BerToDerCms(x).Some? && |Normalizer.BerToDer(x).value| <= USIZE_MAX
    requires BerToDerCms(y).Some? && |Normalizer.BerToDer(y).value| <= USIZE_MAX
    ensures BerToDerCms(x) == BerToDerCms(y) <==> InputMeaning(x) == InputMeaning(y)
  {
    hide BerToDerCms, InputMeaning, ContentMeaning, Unparse, OutputElement;
    OutputProcessed(x);
    OutputProcessed(y);
    var c, d := OutputElement(x), OutputElement(y);
    if Unparse(c) == Unparse(d) {
      PrefixFree(c, d, 0);
    }
    if InputMeaning(x) == InputMeaning(y) {
      ProcessedDetermined(c, d);
    }
  }

  /** Inputs that mean the same as plain BER are accepted alike and give the same octets. */
  lemma BerToDerCmsRespectsMeaning(x: Bytes, y: Bytes)
    requires Normalizer.BerToDer(x).Some? && |Normalizer.BerToDer(x).value| <= USIZE_MAX
    requires Normalizer.BerToDer(y).Some? && |Normalizer.BerToDer(y).value| <= USIZE_MAX
    requires Meaning(Normalizer.Element(x)) == Meaning(Normalizer.Element(y))
    ensures BerToDerCms(x) == BerToDerCms(y)
  {
    hide Meaning, Canon, IsCanon, SortCms;
    Normalizer.DerReadsBack(x);
    Normalizer.DerReadsBack(y);
    CanonMeaning(Normalizer.Element(x));
    CanonMeaning(Normalizer.Element(y));
    CanonDetermined(Canon(Normalizer.Element(x)).value, Canon(Normalizer.Element(y)).value, 0);
  }
}
