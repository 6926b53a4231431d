// The implicit-set pass on element trees: SignedData's implicitly tagged SET OF fields, sorted.
module CmsTree {
  import opened Octets
  import opened LengthCodec
  import opened BerSyntax
  import opened BerCanon
  import Normalizer

  const SEQUENCE: Bytes := [0x30]
  const OID: Bytes := [0x06]
  const CONTEXT_0: Bytes := [0xA0]
  const CONTEXT_1: Bytes := [0xA1]

  /** 1.2.840.113549.1.7.2 */
  const ID_SIGNED_DATA: Bytes := [0x2A, 0x86, 0x48, 0x86, 0xF7, 0x0D, 0x01, 0x07, 0x02]

  /** certificates, crls, signedAttrs and unsignedAttrs: [0] and [1] IMPLICIT SET OF. */
  predicate IsImplicitSet(f: Ber) {
    f.Definite? && (f.tag == CONTEXT_0 || f.tag == CONTEXT_1)
  }

  /** A field of a SignerInfo (src/utils.rs:354-360). */
  function SortField(f: Ber): Ber {
    if IsImplicitSet(f) then f.(kids := SortKids(f.kids)) else f
  }

  function SortFields(fs: seq<Ber>): (r: seq<Ber>)
    ensures |r| == |fs| && forall i :: 0 <= i < |r| ==> r[i] == SortField(fs[i])
  {
    if fs == [] then [] else [SortField(fs[0])] + SortFields(fs[1..])
  }

  /** A member of a SET inside SignedData (src/utils.rs:350-361). */
  function SortSignerInfo(si: Ber): Ber {
    if si.Definite? && si.tag == SEQUENCE then si.(kids := SortFields(si.kids)) else si
  }

  function SortSignerInfos(sis: seq<Ber>): (r: seq<Ber>)
    ensures |r| == |sis| && forall i :: 0 <= i < |r| ==> r[i] == SortSignerInfo(sis[i])
  {
    if sis == [] then [] else [SortSignerInfo(sis[0])] + SortSignerInfos(sis[1..])
  }

  /** A field of SignedData (src/utils.rs:321-335); a SET is sorted again after its members changed. */
  function SortSdField(f: Ber): Ber {
    if f.Definite? && f.tag == SET then f.(kids := SortKids(SortSignerInfos(f.kids))) else SortField(f)
  }

  function SortSdFields(fs: seq<Ber>): (r: seq<Ber>)
    ensures |r| == |fs| && forall i :: 0 <= i < |r| ==> r[i] == SortSdField(fs[i])
  {
    if fs == [] then [] else [SortSdField(fs[0])] + SortSdFields(fs[1..])
  }

  predicate IsSequence(b: Ber) { b.Definite? && b.tag == SEQUENCE }

  // ---------- Locating SignedData in a ContentInfo (src/utils.rs:283-313) ----------

  /** Where the walk ends up: nothing to sort, a malformed ContentInfo, or a SEQUENCE and its place. */
  datatype Place =
    | Malformed
    | OtherContent
    | InExplicit     // first element inside [0]
    | AfterExplicit  // [0] is empty and the element behind it is taken

  function Locate(ci: Ber): Place {
    if !IsSequence(ci) || ci.kids == [] then Malformed
    else if ci.kids[0].tag != OID || ContentOf(ci.kids[0]) != ID_SIGNED_DATA then OtherContent
    else if |ci.kids| == 1 || !ci.kids[1].Definite? || ci.kids[1].tag != CONTEXT_0 then Malformed
    else if ci.kids[1].kids != [] then
      if IsSequence(ci.kids[1].kids[0]) then InExplicit else Malformed
    else if |ci.kids| >= 3 && IsSequence(ci.kids[2]) then AfterExplicit
    else Malformed
  }

  /** The SEQUENCE the walk sorts in. */
  function SignedData(ci: Ber): Ber
    requires Locate(ci).InExplicit? || Locate(ci).AfterExplicit?
  {
    if Locate(ci).InExplicit? then ci.kids[1].kids[0] else ci.kids[2]
  }

  function SortSignedData(sd: Ber): Ber
    requires IsSequence(sd)
  {
    sd.(kids := SortSdFields(sd.kids))
  }

  /** The ContentInfo with another SEQUENCE in the located place. */
  function ReplaceSignedData(ci: Ber, sd: Ber): Ber
    requires Locate(ci).InExplicit? || Locate(ci).AfterExplicit?
  {
    if Locate(ci).InExplicit? then
      ci.(kids := ci.kids[1 := ci.kids[1].(kids := ci.kids[1].kids[0 := sd])])
    else ci.(kids := ci.kids[2 := sd])
  }

  /** `sort_cms_implicit_sets` on the element tree; None where it reports an error. */
  function SortCms(ci: Ber): Option<Ber> {
    match Locate(ci)
    case Malformed => None
    case OtherContent => Some(ci)
    case _ => Some(ReplaceSignedData(ci, SortSignedData(SignedData(ci))))
  }

  // ---------- What the pass establishes ----------

  predicate FieldSorted(f: Ber) { IsImplicitSet(f) ==> SortedKids(f.kids) }

  predicate SignerInfoSorted(si: Ber) {
    IsSequence(si) ==> forall i :: 0 <= i < |si.kids| ==> FieldSorted(si.kids[i])
  }

  /** Every implicit set and every SET of SignedData is sorted, and so is every implicit set of every SignerInfo. */
  predicate SdFieldSorted(f: Ber) {
    && FieldSorted(f)
    && (f.Definite? && f.tag == SET ==> SortedKids(f.kids) && SignerInfosSorted(f.kids))
  }

  predicate SignerInfosSorted(sis: seq<Ber>) {
    forall i :: 0 <= i < |sis| ==> SignerInfoSorted(sis[i])
  }

  predicate SignedDataSorted(sd: Ber)
    requires IsSequence(sd)
  {
    forall i :: 0 <= i < |sd.kids| ==> SdFieldSorted(sd.kids[i])
  }

  /** What SortSdField does to each field, told without a sorting algorithm. */
  lemma SortSdFieldSpec(f: Ber)
    ensures SdFieldSorted(SortSdField(f))
    ensures IsImplicitSet(f) ==> multiset(SortSdField(f).kids) == multiset(f.kids)
    ensures f.Definite? && f.tag == SET ==> multiset(SortSdField(f).kids) == multiset(SortSignerInfos(f.kids))
    ensures !IsImplicitSet(f) && !(f.Definite? && f.tag == SET) ==> SortSdField(f) == f
  {
    hide SortedKids, SignerInfosSorted, SortSignerInfo;
    if f.Definite? && f.tag == SET {
      SortKidsEncodings(SortSignerInfos(f.kids));
      MembersGetSorted(f.kids);
    } else if IsImplicitSet(f) {
      SortKidsEncodings(f.kids);
    }
  }

  lemma {:induction false} MembersGetSorted(sis: seq<Ber>)
    ensures SignerInfosSorted(SortKids(SortSignerInfos(sis)))
  {
    hide SignerInfoSorted, SortSignerInfo;
    var r := SortKids(SortSignerInfos(sis));
    forall i | 0 <= i < |r| ensures SignerInfoSorted(r[i]) {
      var j := SortKidsOrigin(SortSignerInfos(sis), i);
      SignerInfoGetsSorted(sis[j]);
    }
  }

  /** Where a member of the sorted list stood before. */
  lemma SortKidsOrigin(bs: seq<Ber>, i: nat) returns (j: nat)
    requires i < |SortKids(bs)|
    ensures j < |bs| && bs[j] == SortKids(bs)[i]
  {
    SortKidsEncodings(bs);
    assert SortKids(bs)[i] in multiset(SortKids(bs));
    assert SortKids(bs)[i] in bs;
    j :| 0 <= j < |bs| && bs[j] == SortKids(bs)[i];
  }

  lemma SignerInfoGetsSorted(si: Ber)
    ensures SignerInfoSorted(SortSignerInfo(si))
    ensures IsSequence(si) ==> forall i :: 0 <= i < |si.kids| && IsImplicitSet(si.kids[i]) ==>
      multiset(SortSignerInfo(si).kids[i].kids) == multiset(si.kids[i].kids)
  {
    if IsSequence(si) {
      forall i | 0 <= i < |si.kids|
        ensures FieldSorted(SortFields(si.kids)[i])
        ensures IsImplicitSet(si.kids[i]) ==>
          multiset(SortSignerInfo(si).kids[i].kids) == multiset(si.kids[i].kids)
      {
        if IsImplicitSet(si.kids[i]) { SortKidsEncodings(si.kids[i].kids); }
      }
    }
  }

  lemma SignedDataGetsSorted(sd: Ber)
    requires IsSequence(sd)
    ensures SignedDataSorted(SortSignedData(sd))
  {
    forall i | 0 <= i < |sd.kids| ensures SdFieldSorted(SortSdFields(sd.kids)[i]) {
      SortSdFieldSpec(sd.kids[i]);
    }
  }

  // ---------- Sorted data is left alone ----------

  lemma SortedFieldFixed(f: Ber)
    requires FieldSorted(f)
    ensures SortField(f) == f
  {
    if IsImplicitSet(f) { SortKidsOfSorted(f.kids); }
  }

  lemma SortedSignerInfoFixed(si: Ber)
    requires SignerInfoSorted(si)
    ensures SortSignerInfo(si) == si
  {
    if IsSequence(si) {
      forall i | 0 <= i < |si.kids| ensures SortFields(si.kids)[i] == si.kids[i] {
        SortedFieldFixed(si.kids[i]);
      }
      assert SortFields(si.kids) == si.kids;
    }
  }

  lemma SortedSdFieldFixed(f: Ber)
    requires SdFieldSorted(f)
    ensures SortSdField(f) == f
  {
    if f.Definite? && f.tag == SET {
      forall i | 0 <= i < |f.kids| ensures SortSignerInfos(f.kids)[i] == f.kids[i] {
        SortedSignerInfoFixed(f.kids[i]);
      }
      assert SortSignerInfos(f.kids) == f.kids;
      SortKidsOfSorted(f.kids);
    } else {
      SortedFieldFixed(f);
    }
  }

  lemma SortedSignedDataFixed(sd: Ber)
    requires IsSequence(sd) && SignedDataSorted(sd)
    ensures SortSignedData(sd) == sd
  {
    forall i | 0 <= i < |sd.kids| ensures SortSdFields(sd.kids)[i] == sd.kids[i] {
      SortedSdFieldFixed(sd.kids[i]);
    }
    assert SortSdFields(sd.kids) == sd.kids;
  }

  /** A second pass finds the same SEQUENCE and changes nothing. */
  lemma SortCmsIdempotent(ci: Ber)
    requires SortCms(ci).Some?
    ensures SortCms(SortCms(ci).value) == SortCms(ci)
  {
    if !Locate(ci).OtherContent? {
      var sd := SortSignedData(SignedData(ci));
      var out := ReplaceSignedData(ci, sd);
      assert Locate(out) == Locate(ci) && SignedData(out) == sd;
      SignedDataGetsSorted(SignedData(ci));
      SortedSignedDataFixed(sd);
      if Locate(ci).InExplicit? {
        assert out.kids[1].kids[0 := sd] == out.kids[1].kids;
        assert out.kids[1 := out.kids[1]] == out.kids;
      } else {
        assert out.kids[2 := sd] == out.kids;
      }
    }
  }

  // ---------- Sorting keeps every element well-formed, in normal form and of the same size ----------

  predicate Good(b: Ber, depth: nat) { Wf(b) && Fits(b, depth) && IsCanon(b) }

  predicate GoodAll(bs: seq<Ber>, depth: nat) { WfAll(bs) && FitsAll(bs, depth) && IsCanonAll(bs) }

  lemma {:induction false} GoodCons(b: Ber, bs: seq<Ber>, depth: nat)
    ensures GoodAll([b] + bs, depth) <==> Good(b, depth) && GoodAll(bs, depth)
    ensures |UnparseAll([b] + bs)| == |Unparse(b)| + |UnparseAll(bs)|
  {
    assert ([b] + bs)[1..] == bs;
  }

  /** Children may be exchanged for others of the same total size. */
  lemma {:induction false} ExchangeKids(b: Ber, kids: seq<Ber>, depth: nat)
    requires b.Definite? && Good(b, depth) && GoodAll(kids, depth + 1)
    requires |UnparseAll(kids)| == |UnparseAll(b.kids)| && (b.tag == SET ==> SortedKids(kids))
    ensures Good(b.(kids := kids), depth)
    ensures |Unparse(b.(kids := kids))| == |Unparse(b)|
  {
  }

  lemma {:induction false} SortFieldGood(f: Ber, depth: nat)
    requires Good(f, depth)
    ensures Good(SortField(f), depth) && |Unparse(SortField(f))| == |Unparse(f)|
  {
    if IsImplicitSet(f) {
      SortKidsKeeps(f.kids, depth + 1);
      SortKidsSize(f.kids);
      ExchangeKids(f, SortKids(f.kids), depth);
    }
  }

  lemma {:induction false} SortFieldsGood(fs: seq<Ber>, depth: nat)
    requires GoodAll(fs, depth)
    ensures GoodAll(SortFields(fs), depth) && |UnparseAll(SortFields(fs))| == |UnparseAll(fs)|
  {
    if fs != [] {
      SortFieldGood(fs[0], depth);
      SortFieldsGood(fs[1..], depth);
      GoodCons(SortField(fs[0]), SortFields(fs[1..]), depth);
    }
  }

  lemma {:induction false} SortSignerInfoGood(si: Ber, depth: nat)
    requires Good(si, depth)
    ensures Good(SortSignerInfo(si), depth) && |Unparse(SortSignerInfo(si))| == |Unparse(si)|
  {
    if IsSequence(si) {
      SortFieldsGood(si.kids, depth + 1);
      ExchangeKids(si, SortFields(si.kids), depth);
    }
  }

  lemma {:induction false} SortSignerInfosGood(sis: seq<Ber>, depth: nat)
    requires GoodAll(sis, depth)
    ensures GoodAll(SortSignerInfos(sis), depth) && |UnparseAll(SortSignerInfos(sis))| == |UnparseAll(sis)|
  {
    if sis != [] {
      SortSignerInfoGood(sis[0], depth);
      SortSignerInfosGood(sis[1..], depth);
      GoodCons(SortSignerInfo(sis[0]), SortSignerInfos(sis[1..]), depth);
    }
  }

  lemma {:induction false} SortSdFieldGood(f: Ber, depth: nat)
    requires Good(f, depth)
    ensures Good(SortSdField(f), depth) && |Unparse(SortSdField(f))| == |Unparse(f)|
  {
    if f.Definite? && f.tag == SET {
      var sis := SortSignerInfos(f.kids);
      SortSignerInfosGood(f.kids, depth + 1);
      SortKidsKeeps(sis, depth + 1);
      SortKidsSize(sis);
      SortKidsEncodings(sis);
      ExchangeKids(f, SortKids(sis), depth);
    } else {
      SortFieldGood(f, depth);
    }
  }

  lemma {:induction false} SortSdFieldsGood(fs: seq<Ber>, depth: nat)
    requires GoodAll(fs, depth)
    ensures GoodAll(SortSdFields(fs), depth) && |UnparseAll(SortSdFields(fs))| == |UnparseAll(fs)|
  {
    if fs != [] {
      SortSdFieldGood(fs[0], depth);
      SortSdFieldsGood(fs[1..], depth);
      GoodCons(SortSdField(fs[0]), SortSdFields(fs[1..]), depth);
    }
  }

  lemma {:induction false} SortSignedDataGood(sd: Ber, depth: nat)
    requires IsSequence(sd) && Good(sd, depth)
    ensures Good(SortSignedData(sd), depth) && |Unparse(SortSignedData(sd))| == |Unparse(sd)|
  {
    SortSdFieldsGood(sd.kids, depth + 1);
    ExchangeKids(sd, SortSdFields(sd.kids), depth);
  }

  lemma GoodUpdate(bs: seq<Ber>, i: nat, b: Ber, depth: nat)
    requires i < |bs| && GoodAll(bs, depth) && Good(b, depth) && |Unparse(b)| == |Unparse(bs[i])|
    ensures GoodAll(bs[i := b], depth) && |UnparseAll(bs[i := b])| == |UnparseAll(bs)|
  {
    hide *;
    var p, q := bs[..i], bs[i + 1..];
    assert bs == p + ([bs[i]] + q) && bs[i := b] == p + ([b] + q);
    GoodAppend(p, [bs[i]] + q, depth);
    GoodAppend(p, [b] + q, depth);
    GoodCons(bs[i], q, depth);
    GoodCons(b, q, depth);
  }

  lemma {:induction false} GoodAppend(a: seq<Ber>, b: seq<Ber>, depth: nat)
    ensures GoodAll(a + b, depth) <==> GoodAll(a, depth) && GoodAll(b, depth)
    ensures UnparseAll(a + b) == UnparseAll(a) + UnparseAll(b)
  {
    if a == [] {
      assert a + b == b;
    } else {
      assert (a + b)[1..] == a[1..] + b;
      GoodAppend(a[1..], b, depth);
    }
  }

  lemma GoodMember(bs: seq<Ber>, i: nat, depth: nat)
    requires i < |bs| && GoodAll(bs, depth)
    ensures Good(bs[i], depth)
  {
    WfAllMembers(bs);
    FitsAllMembers(bs, depth);
    IsCanonAllMembers(bs);
  }

  lemma GoodKids(b: Ber, depth: nat)
    requires b.Definite? && Good(b, depth)
    ensures GoodAll(b.kids, depth + 1)
  {
  }

  /** The pass turns a normal form into a normal form of the same size. */
  lemma {:induction false} SortCmsGood(ci: Ber)
    requires Good(ci, 0) && SortCms(ci).Some?
    ensures Good(SortCms(ci).value, 0) && |Unparse(SortCms(ci).value)| == |Unparse(ci)|
  {
    hide Good, GoodAll, SortSignedData, Unparse, UnparseAll;
    match Locate(ci)
    case OtherContent =>
    case InExplicit =>
      var e := ci.kids[1];
      GoodKids(ci, 0);
      GoodMember(ci.kids, 1, 1);
      GoodKids(e, 1);
      GoodMember(e.kids, 0, 2);
      var sd := SortSignedData(e.kids[0]);
      SortSignedDataGood(e.kids[0], 2);
      GoodUpdate(e.kids, 0, sd, 2);
      ExchangeKids(e, e.kids[0 := sd], 1);
      GoodUpdate(ci.kids, 1, e.(kids := e.kids[0 := sd]), 1);
      ExchangeKids(ci, ci.kids[1 := e.(kids := e.kids[0 := sd])], 0);
    case AfterExplicit =>
      GoodKids(ci, 0);
      GoodMember(ci.kids, 2, 1);
      var sd := SortSignedData(ci.kids[2]);
      SortSignedDataGood(ci.kids[2], 1);
      GoodUpdate(ci.kids, 2, sd, 1);
      ExchangeKids(ci, ci.kids[2 := sd], 0);
  }

  // ---------- ber_to_der_cms (src/utils.rs:368-372) as a function ----------

  function BerToDerCms(s: Bytes): Option<Bytes> {
    match Normalizer.BerToDer(s)
    case None => None
    case Some(_) =>
      match SortCms(Canon(Normalizer.Element(s)).value)
      case None => None
      case Some(c) => Some(Unparse(c))
  }

  /** The SignedData that the walk finds, if any, is fully sorted. */
  predicate LocatedSorted(ci: Ber) {
    Locate(ci).InExplicit? || Locate(ci).AfterExplicit? ==> SignedDataSorted(SignedData(ci))
  }

  /** The element that the output of an accepted input encodes. */
  function OutputElement(s: Bytes): Ber
    requires BerToDerCms(s).Some?
  {
    SortCms(Canon(Normalizer.Element(s)).value).value
  }

  /** Every accepted input yields the encoding of a normal form whose located SignedData is fully sorted. */
  lemma BerToDerCmsSorted(s: Bytes)
    requires BerToDerCms(s).Some? && |Normalizer.BerToDer(s).value| <= USIZE_MAX
    ensures var c := OutputElement(s);
      && Good(c, 0) && BerToDerCms(s).value == Unparse(c)
      && LocatedSorted(c) && SortCms(c) == Some(c)
    ensures |BerToDerCms(s).value| == |Normalizer.BerToDer(s).value|
  {
    hide Unparse, Read, Canon, Wf, Fits, IsCanon, SignedDataSorted, SortSignedData;
    var c0 := Canon(Normalizer.Element(s)).value;
    Normalizer.DerReadsBack(s);
    SortCmsGood(c0);
    SortCmsIdempotent(c0);
    if !Locate(c0).OtherContent? {
      SignedDataGetsSorted(SignedData(c0));
    }
  }

  /** `ber_to_der_cms` accepts its own output and leaves it unchanged. */
  lemma BerToDerCmsIdempotent(s: Bytes)
    requires BerToDerCms(s).Some? && |Normalizer.BerToDer(s).value| <= USIZE_MAX
    ensures BerToDerCms(BerToDerCms(s).value) == BerToDerCms(s)
  {
    hide SortCms, Unparse, Read, Canon, Wf, Fits, IsCanon;
    BerToDerCmsSorted(s);
    var c := OutputElement(s);
    ReadComplete(c, [], 0);
    assert Unparse(c) + [] == Unparse(c);
    CanonFixed(c);
  }

  // ---------- A message of another content type ----------

  const SAMPLE_OID: Ber := Primitive(OID, [1], [0])
  const SAMPLE: Ber := Indefinite(SEQUENCE, [SAMPLE_OID])

  /** The indefinite form is rewritten, and content other than SignedData is left to the first pass. */
  lemma OtherContentIsAccepted()
    ensures BerToDerCms([0x30, 0x80, 0x06, 0x01, 0x00, 0x00, 0x00]) == Some([0x30, 0x03, 0x06, 0x01, 0x00])
  {
    hide *;
    SampleIsSound();
    SampleCanon();
    SampleIsOther();
    assert Unparse(SAMPLE) + [] == Unparse(SAMPLE);
    ReadExact([0x30, 0x80, 0x06, 0x01, 0x00, 0x00, 0x00], 0, SAMPLE, []);
    ReadAndSorted([0x30, 0x80, 0x06, 0x01, 0x00, 0x00, 0x00], SAMPLE, NodeOf(SEQUENCE, [SAMPLE_OID]));
  }

  lemma SampleIsOther()
    ensures SortCms(NodeOf(SEQUENCE, [SAMPLE_OID])) == Some(NodeOf(SEQUENCE, [SAMPLE_OID]))
  {
  }

  lemma {:induction false} ReadAndSorted(s: Bytes, b: Ber, c: Ber)
    requires Read(s, 0) == Some((b, [])) && Canon(b) == Some(c) && SortCms(c) == Some(c)
    ensures BerToDerCms(s) == Some(Unparse(c))
  {
    hide Read, Canon, SortCms;
  }

  lemma SampleIsSound()
    ensures Unparse(SAMPLE) == [0x30, 0x80, 0x06, 0x01, 0x00, 0x00, 0x00] && Wf(SAMPLE) && Fits(SAMPLE, 0)
  {
    var kids := [SAMPLE_OID];
    assert kids[1..] == [];
    assert Unparse(SAMPLE_OID) == [0x06, 0x01, 0x00];
    assert IsLength([1], 1) && Wf(SAMPLE_OID);
    assert UnparseAll(kids) == [0x06, 0x01, 0x00];
    assert Unparse(kids[0])[0] != EOC[0];
    assert Fits(SAMPLE_OID, 1) && FitsAll(kids[1..], 1);
    assert WfAll(kids) && FitsAll(kids, 1) && NoneIsEoc(kids);
  }

  lemma SampleCanon()
    ensures Canon(SAMPLE) == Some(NodeOf(SEQUENCE, [SAMPLE_OID]))
    ensures Unparse(NodeOf(SEQUENCE, [SAMPLE_OID])) == [0x30, 0x03, 0x06, 0x01, 0x00]
  {
    var kids := [SAMPLE_OID];
    assert kids[1..] == [];
    assert Canon(SAMPLE_OID) == Some(SAMPLE_OID);
    assert CanonAll(kids[1..]) == Some([]);
    assert CanonAll(kids) == Some([SAMPLE_OID] + []);
    assert SAMPLE.kids == kids == [SAMPLE_OID] + [] && SEQUENCE != SET;
    assert Assemble(SEQUENCE, kids) == Some(NodeOf(SEQUENCE, kids));
    assert Unparse(SAMPLE_OID) == [0x06, 0x01, 0x00];
    assert UnparseAll(kids) == [0x06, 0x01, 0x00];
  }
}
