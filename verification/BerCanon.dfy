// The normal form that `ber_tlv_to_der` re-emits.
module BerCanon {
  import opened Arrangements
  import opened Octets
  import opened LengthCodec
  import opened BerSyntax

  const SET: Bytes := [0x31]
  const CONSTRUCTED_BITS: Bytes := [0x23]
  const CONSTRUCTED_OCTETS: Bytes := [0x24]

  /** `needs_flatten`: a constructed BIT STRING or OCTET STRING. */
  predicate IsConstructedString(tag: Bytes) {
    tag == CONSTRUCTED_BITS || tag == CONSTRUCTED_OCTETS
  }

  /** `tag_byte & !0x20` of a constructed string tag. */
  function PrimitiveTag(tag: Bytes): Bytes {
    if tag == CONSTRUCTED_BITS then [0x03] else [0x04]
  }

  // ---------- Sets in DER order ----------

  function Encodings(bs: seq<Ber>): (r: seq<Bytes>)
    ensures |r| == |bs| && forall i :: 0 <= i < |bs| ==> r[i] == Unparse(bs[i])
  {
    if bs == [] then [] else [Unparse(bs[0])] + Encodings(bs[1..])
  }

  function InsertKid(b: Ber, bs: seq<Ber>): seq<Ber> {
    if bs == [] || Lte(Unparse(b), Unparse(bs[0])) then [b] + bs else [bs[0]] + InsertKid(b, bs[1..])
  }

  function SortKids(bs: seq<Ber>): seq<Ber> {
    if bs == [] then [] else InsertKid(bs[0], SortKids(bs[1..]))
  }

  predicate SortedKids(bs: seq<Ber>) { Sorted(Encodings(bs)) }

  lemma {:induction false} EncodingsCons(b: Ber, bs: seq<Ber>)
    ensures Encodings([b] + bs) == [Unparse(b)] + Encodings(bs)
  {
    assert ([b] + bs)[1..] == bs;
  }

  lemma {:induction false} InsertKidEncodings(b: Ber, bs: seq<Ber>)
    ensures Encodings(InsertKid(b, bs)) == Insert(Unparse(b), Encodings(bs))
    ensures multiset(InsertKid(b, bs)) == multiset{b} + multiset(bs)
  {
    if bs == [] || Lte(Unparse(b), Unparse(bs[0])) {
      EncodingsCons(b, bs);
    } else {
      InsertKidEncodings(b, bs[1..]);
      EncodingsCons(bs[0], InsertKid(b, bs[1..]));
      MultisetOfTail(bs);
    }
  }

  /** Sorting elements is sorting their encodings. */
  lemma {:induction false} SortKidsEncodings(bs: seq<Ber>)
    ensures Encodings(SortKids(bs)) == Sort(Encodings(bs))
    ensures multiset(SortKids(bs)) == multiset(bs)
    ensures SortedKids(SortKids(bs))
  {
    if bs != [] {
      SortKidsEncodings(bs[1..]);
      InsertKidEncodings(bs[0], SortKids(bs[1..]));
      MultisetOfTail(bs);
    }
    SortSorts(Encodings(bs));
  }

  lemma {:induction false} UnparseAllConcat(bs: seq<Ber>)
    ensures UnparseAll(bs) == Concat(Encodings(bs))
  {
    if bs != [] {
      UnparseAllConcat(bs[1..]);
    }
  }

  lemma {:induction false} InsertKidHead(b: Ber, bs: seq<Ber>)
    requires SortedKids([b] + bs)
    ensures InsertKid(b, bs) == [b] + bs
  {
    EncodingsCons(b, bs);
    if bs != [] {
      assert Lte(Encodings([b] + bs)[0], Encodings([b] + bs)[1]);
    }
  }

  lemma {:induction false} SortKidsOfSorted(bs: seq<Ber>)
    requires SortedKids(bs)
    ensures SortKids(bs) == bs
  {
    if bs != [] {
      assert bs == [bs[0]] + bs[1..];
      EncodingsCons(bs[0], bs[1..]);
      assert Encodings(bs)[1..] == Encodings(bs[1..]);
      SortKidsOfSorted(bs[1..]);
      InsertKidHead(bs[0], bs[1..]);
    }
  }

  lemma {:induction false} SortKidsSize(bs: seq<Ber>)
    ensures |UnparseAll(SortKids(bs))| == |UnparseAll(bs)|
  {
    SortKidsEncodings(bs);
    SortSorts(Encodings(bs));
    UnparseAllConcat(bs);
    UnparseAllConcat(SortKids(bs));
    ConcatSameMultiset(Sort(Encodings(bs)), Encodings(bs));
  }

  // ---------- Constructed strings ----------

  /** X.690 clause 8.6.2: at most 7 unused bits, none without data bits, and only in the last segment. */
  predicate SegmentOk(seg: Bytes, last: bool) {
    seg != [] && seg[0] <= 7 && (seg[0] != 0 ==> |seg| > 1 && last)
  }

  predicate SegmentsOk(segs: seq<Bytes>) {
    forall i :: 0 <= i < |segs| ==> SegmentOk(segs[i], i == |segs| - 1)
  }

  /** A segment's unused-bits octet; 0 when there is none. */
  function Unused(seg: Bytes): byte { if seg == [] then 0 else seg[0] }

  function DataOctets(seg: Bytes): Bytes { if seg == [] then [] else seg[1..] }

  function LastUnused(segs: seq<Bytes>): byte {
    if segs == [] then 0 else Unused(segs[|segs| - 1])
  }

  function JoinData(segs: seq<Bytes>): Bytes {
    if segs == [] then [] else DataOctets(segs[0]) + JoinData(segs[1..])
  }

  /** Content of a BIT STRING made of segments (X.690 clause 8.6.4). */
  function JoinBits(segs: seq<Bytes>): Bytes {
    [LastUnused(segs)] + JoinData(segs)
  }

  /** `der_content`: the content octets of an element. */
  function ContentOf(b: Ber): Bytes {
    if b.Primitive? then b.content else UnparseAll(b.kids)
  }

  function Contents(bs: seq<Ber>): (r: seq<Bytes>)
    ensures |r| == |bs| && forall i :: 0 <= i < |bs| ==> r[i] == ContentOf(bs[i])
  {
    if bs == [] then [] else [ContentOf(bs[0])] + Contents(bs[1..])
  }

  function PrimitiveOf(tag: Bytes, content: Bytes): Ber {
    Primitive(tag, EncodeLength(|content|), content)
  }

  function NodeOf(tag: Bytes, kids: seq<Ber>): Ber {
    Definite(tag, EncodeLength(|UnparseAll(kids)|), kids)
  }

  /** `flatten_constructed_string` on normalised segments (src/utils.rs:27-62). */
  function FlattenString(tag: Bytes, segs: seq<Ber>): Option<Ber> {
    if exists b :: b in segs && b.tag != PrimitiveTag(tag) then None
    else if tag == CONSTRUCTED_BITS then
      if SegmentsOk(Contents(segs)) then Some(PrimitiveOf([0x03], JoinBits(Contents(segs)))) else None
    else Some(PrimitiveOf([0x04], Concat(Contents(segs))))
  }

  // ---------- Normal form ----------

  /** The element re-emitted for normalised children. */
  function Assemble(tag: Bytes, kids: seq<Ber>): Option<Ber> {
    if IsConstructedString(tag) then FlattenString(tag, kids)
    else if tag == SET then Some(NodeOf(tag, SortKids(kids)))
    else Some(NodeOf(tag, kids))
  }

  function Canon(b: Ber): Option<Ber>
    decreases b, 1
  {
    if b.Primitive? then Some(PrimitiveOf(b.tag, b.content))
    else match CanonAll(b.kids)
      case None => None
      case Some(kids) => Assemble(b.tag, kids)
  }

  function CanonAll(bs: seq<Ber>): (r: Option<seq<Ber>>)
    ensures r.Some? ==> |r.value| == |bs|
    decreases bs, 0
  {
    if bs == [] then Some([])
    else match Canon(bs[0])
      case None => None
      case Some(c) =>
        match CanonAll(bs[1..])
        case None => None
        case Some(cs) => Some([c] + cs)
  }

  predicate IsCanon(b: Ber)
    decreases b, 1
  {
    match b
    case Primitive(tag, len, content) => len == EncodeLength(|content|)
    case Definite(tag, len, kids) =>
      && len == EncodeLength(|UnparseAll(kids)|) && !IsConstructedString(tag)
      && (tag == SET ==> SortedKids(kids)) && IsCanonAll(kids)
    case Indefinite(_, _) => false
  }

  predicate IsCanonAll(bs: seq<Ber>)
    decreases bs, 0
  {
    bs == [] || (IsCanon(bs[0]) && IsCanonAll(bs[1..]))
  }

  // ---------- The three list predicates as statements about members ----------

  lemma {:induction false} WfAllMembers(bs: seq<Ber>)
    ensures WfAll(bs) <==> forall b :: b in bs ==> Wf(b)
  {
    if bs != [] {
      WfAllMembers(bs[1..]);
      HeadOrTail(bs);
    }
  }

  lemma {:induction false} FitsAllMembers(bs: seq<Ber>, depth: nat)
    ensures FitsAll(bs, depth) <==> forall b :: b in bs ==> Fits(b, depth)
  {
    if bs != [] {
      FitsAllMembers(bs[1..], depth);
      HeadOrTail(bs);
    }
  }

  lemma {:induction false} IsCanonAllMembers(bs: seq<Ber>)
    ensures IsCanonAll(bs) <==> forall b :: b in bs ==> IsCanon(b)
  {
    if bs != [] {
      IsCanonAllMembers(bs[1..]);
      HeadOrTail(bs);
    }
  }

  /** What holds of every child holds after sorting. */
  lemma {:induction false} SortKidsKeeps(bs: seq<Ber>, depth: nat)
    ensures WfAll(bs) <==> WfAll(SortKids(bs))
    ensures FitsAll(bs, depth) <==> FitsAll(SortKids(bs), depth)
    ensures IsCanonAll(bs) <==> IsCanonAll(SortKids(bs))
  {
    SortKidsEncodings(bs);
    assert forall b :: b in bs <==> b in multiset(bs);
    assert forall b :: b in SortKids(bs) <==> b in multiset(SortKids(bs));
    WfAllMembers(bs);
    WfAllMembers(SortKids(bs));
    FitsAllMembers(bs, depth);
    FitsAllMembers(SortKids(bs), depth);
    IsCanonAllMembers(bs);
    IsCanonAllMembers(SortKids(bs));
  }

  // ---------- Canon produces normal forms and leaves them alone ----------

  lemma {:induction false} AssembleIsCanon(tag: Bytes, kids: seq<Ber>)
    requires IsCanonAll(kids) && Assemble(tag, kids).Some?
    ensures IsCanon(Assemble(tag, kids).value)
  {
    if !IsConstructedString(tag) {
      if tag == SET {
        SortKidsKeeps(kids, 0);
        SortKidsEncodings(kids);
        NodeOfIsCanon(tag, SortKids(kids));
      } else {
        NodeOfIsCanon(tag, kids);
      }
    }
  }

  lemma {:induction false} NodeOfIsCanon(tag: Bytes, kids: seq<Ber>)
    requires IsCanonAll(kids) && !IsConstructedString(tag) && (tag == SET ==> SortedKids(kids))
    ensures IsCanon(NodeOf(tag, kids))
  {
  }

  lemma {:induction false} CanonIsCanon(b: Ber)
    requires Canon(b).Some?
    ensures IsCanon(Canon(b).value)
    decreases b, 1
  {
    if !b.Primitive? {
      CanonAllIsCanon(b.kids);
      AssembleIsCanon(b.tag, CanonAll(b.kids).value);
    }
  }

  lemma {:induction false} CanonAllIsCanon(bs: seq<Ber>)
    requires CanonAll(bs).Some?
    ensures IsCanonAll(CanonAll(bs).value)
    decreases bs, 0
  {
    if bs != [] {
      CanonIsCanon(bs[0]);
      CanonAllIsCanon(bs[1..]);
      assert CanonAll(bs).value[1..] == CanonAll(bs[1..]).value;
    }
  }

  lemma {:induction false} CanonFixed(c: Ber)
    requires IsCanon(c)
    ensures Canon(c) == Some(c)
    decreases c, 1
  {
    if c.Definite? {
      CanonAllFixed(c.kids);
      if c.tag == SET {
        SortKidsOfSorted(c.kids);
      }
    }
  }

  lemma {:induction false} CanonAllFixed(cs: seq<Ber>)
    requires IsCanonAll(cs)
    ensures CanonAll(cs) == Some(cs)
    decreases cs, 0
  {
    if cs != [] {
      CanonFixed(cs[0]);
      CanonAllFixed(cs[1..]);
      assert [cs[0]] + cs[1..] == cs;
    }
  }

  // ---------- Well-formedness and depth survive ----------

  lemma {:induction false} AssembleFits(tag: Bytes, kids: seq<Ber>, depth: nat)
    requires depth <= MAX_BER_DEPTH && FitsAll(kids, depth + 1) && Assemble(tag, kids).Some?
    ensures Fits(Assemble(tag, kids).value, depth)
  {
    SortKidsKeeps(kids, depth + 1);
  }

  lemma {:induction false} CanonFits(b: Ber, depth: nat)
    requires Fits(b, depth) && Canon(b).Some?
    ensures Fits(Canon(b).value, depth)
    decreases b, 1
  {
    if !b.Primitive? {
      CanonAllFits(b.kids, depth + 1);
      AssembleFits(b.tag, CanonAll(b.kids).value, depth);
    }
  }

  lemma {:induction false} CanonAllFits(bs: seq<Ber>, depth: nat)
    requires FitsAll(bs, depth) && CanonAll(bs).Some?
    ensures FitsAll(CanonAll(bs).value, depth)
    decreases bs, 0
  {
    if bs != [] {
      CanonFits(bs[0], depth);
      CanonAllFits(bs[1..], depth);
      assert CanonAll(bs).value[1..] == CanonAll(bs[1..]).value;
    }
  }

  lemma PrimitiveOfWf(tag: Bytes, content: Bytes)
    requires IsTag(tag) && !Constructed(tag[0]) && |content| <= USIZE_MAX
    ensures Wf(PrimitiveOf(tag, content))
  {
    EncodeLengthShortest(|content|);
  }

  lemma {:induction false} NodeOfWf(tag: Bytes, kids: seq<Ber>)
    requires IsTag(tag) && Constructed(tag[0]) && WfAll(kids) && |UnparseAll(kids)| <= USIZE_MAX
    ensures Wf(NodeOf(tag, kids))
  {
    EncodeLengthShortest(|UnparseAll(kids)|);
  }

  lemma {:induction false} AssembleWf(tag: Bytes, kids: seq<Ber>)
    requires IsTag(tag) && Constructed(tag[0])
    requires !IsConstructedString(tag) ==> WfAll(kids)
    requires Assemble(tag, kids).Some? && |Unparse(Assemble(tag, kids).value)| <= USIZE_MAX
    ensures Wf(Assemble(tag, kids).value)
  {
    hide FlattenString, SortKids, Unparse, UnparseAll, Wf, WfAll, PrimitiveOf, NodeOf, PrimitiveTag;
    if IsConstructedString(tag) {
      FlatParts(tag, kids);
      PrimitiveOfWf(PrimitiveTag(tag), FlattenString(tag, kids).value.content);
    } else {
      SortKidsKeeps(kids, 0);
      var ordered := if tag == SET then SortKids(kids) else kids;
      NodeParts(tag, ordered);
      NodeOfWf(tag, ordered);
    }
  }

  lemma FlatParts(tag: Bytes, kids: seq<Ber>)
    requires IsConstructedString(tag) && FlattenString(tag, kids).Some?
    ensures var c := FlattenString(tag, kids).value;
      && c.Primitive? && c == PrimitiveOf(PrimitiveTag(tag), c.content) && |c.content| <= |Unparse(c)|
      && IsTag(PrimitiveTag(tag)) && !Constructed(PrimitiveTag(tag)[0])
  {
    hide JoinBits, Concat, Contents, SegmentsOk, Unparse, LengthCodec.EncodeLength;
    PrimitiveSize(PrimitiveTag(tag), FlattenString(tag, kids).value.content);
  }

  lemma PrimitiveSize(tag: Bytes, content: Bytes)
    ensures |content| <= |Unparse(PrimitiveOf(tag, content))|
  {
  }

  lemma {:induction false} NodeParts(tag: Bytes, kids: seq<Ber>)
    ensures |UnparseAll(kids)| <= |Unparse(NodeOf(tag, kids))|
  {
  }

  /** A result that fits in memory is well-formed. */
  lemma {:induction false} CanonWf(b: Ber)
    requires Wf(b) && Canon(b).Some? && |Unparse(Canon(b).value)| <= USIZE_MAX
    ensures Wf(Canon(b).value)
    decreases b, 1
  {
    if b.Primitive? {
      PrimitiveOfWf(b.tag, b.content);
    } else {
      if !IsConstructedString(b.tag) {
        SortKidsSize(CanonAll(b.kids).value);
        CanonAllWf(b.kids);
      }
      AssembleWf(b.tag, CanonAll(b.kids).value);
    }
  }

  lemma {:induction false} CanonAllWf(bs: seq<Ber>)
    requires WfAll(bs) && CanonAll(bs).Some? && |UnparseAll(CanonAll(bs).value)| <= USIZE_MAX
    ensures WfAll(CanonAll(bs).value)
    decreases bs, 0
  {
    if bs != [] {
      assert CanonAll(bs).value[1..] == CanonAll(bs[1..]).value;
      CanonWf(bs[0]);
      CanonAllWf(bs[1..]);
    }
  }
}
