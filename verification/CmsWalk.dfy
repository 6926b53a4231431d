// The implicit-set pass on octets (src/utils.rs:249-365): what it computes on any buffer, and that on the encoding
// of a normal form this is CmsTree.SortCms.
module CmsWalk {
  import opened Arrangements
  import opened Octets
  import opened LengthCodec
  import opened BerSyntax
  import opened BerCanon
  import opened CmsTree
  import opened BerToDer

  // ---------- The pass as a function of the buffer ----------

  /** The elements between pos and end; None when a header is bad or they do not fill the range. */
  function ChildBlobs(s: Bytes, pos: nat, end: nat): (r: Option<seq<Bytes>>)
    requires pos <= |s|
    ensures r.Some? ==> pos <= end <= |s| && |Concat(r.value)| == end - pos
    decreases |s| - pos
  {
    if pos >= end then
      if pos == end then Some([]) else None
    else match TlvAt(s[pos..])
      case None => None
      case Some(t) =>
        var next := pos + t.headerLen + t.contentLen;
        match ChildBlobs(s, next, end)
        case None => None
        case Some(bs) => Some([s[pos..next]] + bs)
  }

  lemma {:induction false} SortedSize(bs: seq<Bytes>)
    ensures |Concat(Sort(bs))| == |Concat(bs)|
  {
    SortSorts(bs);
    ConcatSameMultiset(Sort(bs), bs);
  }

  /** `sort_children_in_place` on the content that starts at `start`. Nothing outside it changes. */
  function SortRegion(s: Bytes, start: nat, len: nat): (r: Option<Bytes>)
    requires start <= |s|
    ensures r.Some? ==> start + len <= |s| == |r.value|
    ensures r.Some? ==> r.value[..start] == s[..start] && r.value[start + len..] == s[start + len..]
  {
    if start + len > |s| then None
    else match ChildBlobs(s, start, start + len)
      case None => None
      case Some(bs) =>
        SortedSize(bs);
        Some(s[..start] + Concat(Sort(bs)) + s[start + len..])
  }

  lemma {:induction false} BlobsFill(s: Bytes, pos: nat, end: nat)
    requires pos <= |s| && ChildBlobs(s, pos, end).Some?
    ensures Concat(ChildBlobs(s, pos, end).value) == s[pos..end]
    decreases |s| - pos
  {
    hide TlvAt;
    if pos < end {
      var t := TlvAt(s[pos..]).value;
      var next := pos + t.headerLen + t.contentLen;
      BlobsFill(s, next, end);
      var bs := ChildBlobs(s, next, end).value;
      assert ([s[pos..next]] + bs)[1..] == bs;
      assert s[pos..end] == s[pos..next] + s[next..end];
    }
  }

  /** Sorting a region moves octets and changes none. */
  lemma RegionRearranged(s: Bytes, start: nat, len: nat)
    requires start <= |s| && SortRegion(s, start, len).Some?
    ensures multiset(SortRegion(s, start, len).value) == multiset(s)
  {
    hide ChildBlobs, Concat, Sort;
    var end := start + len;
    var bs := ChildBlobs(s, start, end).value;
    BlobsFill(s, start, end);
    SortSorts(bs);
    ConcatSameMultiset(Sort(bs), bs);
    assert s == s[..start] + s[start..end] + s[end..];
  }

  predicate IsContext(t: DerTlv) { (t.tagByte == 0xA0 || t.tagByte == 0xA1) && t.isConstructed }

  function SortIfContext(s: Bytes, pos: nat, t: DerTlv): (r: Option<Bytes>)
    requires pos + t.headerLen <= |s|
    ensures r.Some? ==> |r.value| == |s|
  {
    if IsContext(t) then SortRegion(s, pos + t.headerLen, t.contentLen) else Some(s)
  }

  /** The inner loop of `sort_signer_infos_implicit_sets`. */
  function WalkFields(s: Bytes, pos: nat, end: nat): (r: Option<Bytes>)
    requires pos <= |s|
    ensures r.Some? ==> |r.value| == |s|
    decreases |s| - pos
  {
    if pos >= end then Some(s)
    else match TlvAt(s[pos..])
      case None => None
      case Some(t) =>
        match SortIfContext(s, pos, t)
        case None => None
        case Some(s') => WalkFields(s', pos + t.headerLen + t.contentLen, end)
  }

  predicate IsSequenceTlv(t: DerTlv) { t.tagByte == 0x30 && t.isConstructed }

  function WalkIfSignerInfo(s: Bytes, pos: nat, t: DerTlv): (r: Option<Bytes>)
    requires pos + t.headerLen <= |s|
    ensures r.Some? ==> |r.value| == |s|
  {
    if IsSequenceTlv(t) then WalkFields(s, pos + t.headerLen, pos + t.headerLen + t.contentLen) else Some(s)
  }

  /** `sort_signer_infos_implicit_sets` */
  function WalkSignerInfos(s: Bytes, pos: nat, end: nat): (r: Option<Bytes>)
    requires pos <= |s|
    ensures r.Some? ==> |r.value| == |s|
    decreases |s| - pos
  {
    if pos >= end then Some(s)
    else match TlvAt(s[pos..])
      case None => None
      case Some(t) =>
        match WalkIfSignerInfo(s, pos, t)
        case None => None
        case Some(s') => WalkSignerInfos(s', pos + t.headerLen + t.contentLen, end)
  }

  /** One field of SignedData. */
  function WalkField(s: Bytes, pos: nat, t: DerTlv): (r: Option<Bytes>)
    requires pos + t.headerLen <= |s|
    ensures r.Some? ==> |r.value| == |s|
  {
    if t.tagByte == 0x31 && t.isConstructed then
      match WalkSignerInfos(s, pos + t.headerLen, pos + t.headerLen + t.contentLen)
      case None => None
      case Some(s') => SortRegion(s', pos + t.headerLen, t.contentLen)
    else SortIfContext(s, pos, t)
  }

  function WalkSignedData(s: Bytes, pos: nat, end: nat): (r: Option<Bytes>)
    requires pos <= |s|
    ensures r.Some? ==> |r.value| == |s|
    decreases |s| - pos
  {
    if pos >= end then Some(s)
    else match TlvAt(s[pos..])
      case None => None
      case Some(t) =>
        match WalkField(s, pos, t)
        case None => None
        case Some(s') => WalkSignedData(s', pos + t.headerLen + t.contentLen, end)
  }

  /** `sort_cms_implicit_sets` on any buffer; whatever happens, the length stays. */
  function SortCmsOctets(s: Bytes): (r: Option<Bytes>)
    ensures r.Some? ==> |r.value| == |s|
  {
    match TlvAt(s)
    case None => None
    case Some(ci) =>
      if !IsSequenceTlv(ci) then None
      else match TlvAt(s[ci.headerLen..])
        case None => None
        case Some(oid) =>
          var oidContent := ci.headerLen + oid.headerLen;
          var afterOid := oidContent + oid.contentLen;
          if oid.tagByte != 0x06 || s[oidContent..afterOid] != ID_SIGNED_DATA then Some(s)
          else SortAfterOid(s, afterOid)
  }

  function SortAfterOid(s: Bytes, afterOid: nat): (r: Option<Bytes>)
    requires afterOid <= |s|
    ensures r.Some? ==> |r.value| == |s|
  {
    match TlvAt(s[afterOid..])
    case None => None
    case Some(explicit) =>
      if explicit.tagByte != 0xA0 then None
      else
        var sdStart := afterOid + explicit.headerLen;
        match TlvAt(s[sdStart..])
        case None => None
        case Some(sd) =>
          if !IsSequenceTlv(sd) then None
          else WalkSignedData(s, sdStart + sd.headerLen, sdStart + sd.headerLen + sd.contentLen)
  }

  // ---------- On encodings of normal forms the pass sorts the element tree ----------

  function HeaderOf(b: Ber): DerTlv
    requires !b.Indefinite? && b.tag != []
  {
    DerTlv(|b.tag| + |b.len|, |ContentOf(b)|, Constructed(b.tag[0]), b.tag[0])
  }

  lemma {:induction false} TlvAtBer(b: Ber, rest: Bytes, depth: nat)
    requires Good(b, depth)
    ensures !b.Indefinite? && b.tag != []
    ensures TlvAt(Unparse(b) + rest) == Some(HeaderOf(b))
    ensures |Unparse(b)| == HeaderOf(b).headerLen + HeaderOf(b).contentLen
    ensures Unparse(b) == b.tag + b.len + ContentOf(b)
    ensures |Unparse(b)| >= 2
  {
    hide TlvAt, IsLength;
    WfSize(b);
    TlvAtElement(b.tag, b.len, ContentOf(b), rest);
  }

  /** The elements bs stand in s from pos on, with `pre` before and `post` behind them. */
  predicate Stands(s: Bytes, pre: Bytes, bs: seq<Ber>, post: Bytes) {
    s == pre + UnparseAll(bs) + post
  }

  lemma {:induction false} StandsCons(s: Bytes, pre: Bytes, bs: seq<Ber>, post: Bytes, depth: nat)
    requires Stands(s, pre, bs, post) && bs != [] && GoodAll(bs, depth)
    ensures var b := bs[0];
      && !b.Indefinite? && b.tag != [] && Good(b, depth) && GoodAll(bs[1..], depth)
      && TlvAt(s[|pre|..]) == Some(HeaderOf(b))
      && 2 <= |Unparse(b)| == HeaderOf(b).headerLen + HeaderOf(b).contentLen
      && |pre| + |Unparse(b)| <= |s|
      && s[|pre|..|pre| + |Unparse(b)|] == Unparse(b)
      && s == pre + Unparse(b) + (UnparseAll(bs[1..]) + post)
      && Stands(s, pre + Unparse(b), bs[1..], post)
      && |UnparseAll(bs)| == |Unparse(b)| + |UnparseAll(bs[1..])|
  {
    hide *;
    var b, tail := bs[0], UnparseAll(bs[1..]) + post;
    assert bs == [b] + bs[1..];
    GoodCons(b, bs[1..], depth);
    StandsSplit(s, pre, bs, post);
    StandsNext(pre, b, bs[1..], post);
    Regroup(pre, Unparse(b), UnparseAll(bs[1..]), post);
    TlvAtBer(b, tail, depth);
  }

  lemma Regroup(a: Bytes, b: Bytes, c: Bytes, d: Bytes)
    ensures a + (b + c) + d == a + b + (c + d) == a + b + c + d
    ensures (a + b + (c + d))[|a|..] == b + (c + d)
    ensures (a + b + (c + d))[|a|..|a| + |b|] == b
  {
  }

  // One turn of each loop. The inductive proofs below use these instead of the definitions.

  lemma ChildBlobsStep(s: Bytes, pos: nat, end: nat, t: DerTlv, more: seq<Bytes>)
    requires pos < end && pos <= |s| && TlvAt(s[pos..]) == Some(t)
    requires ChildBlobs(s, pos + t.headerLen + t.contentLen, end) == Some(more)
    ensures ChildBlobs(s, pos, end) == Some([s[pos..pos + t.headerLen + t.contentLen]] + more)
  {
    hide TlvAt, Concat;
  }

  lemma WalkFieldsStep(s: Bytes, pos: nat, end: nat, t: DerTlv, s': Bytes)
    requires pos < end && pos <= |s| && TlvAt(s[pos..]) == Some(t) && SortIfContext(s, pos, t) == Some(s')
    ensures WalkFields(s, pos, end) == WalkFields(s', pos + t.headerLen + t.contentLen, end)
  {
    hide TlvAt, SortIfContext;
  }

  lemma WalkSignerInfosStep(s: Bytes, pos: nat, end: nat, t: DerTlv, s': Bytes)
    requires pos < end && pos <= |s| && TlvAt(s[pos..]) == Some(t) && WalkIfSignerInfo(s, pos, t) == Some(s')
    ensures WalkSignerInfos(s, pos, end) == WalkSignerInfos(s', pos + t.headerLen + t.contentLen, end)
  {
    hide TlvAt, WalkIfSignerInfo;
  }

  lemma WalkSignedDataStep(s: Bytes, pos: nat, end: nat, t: DerTlv, s': Bytes)
    requires pos < end && pos <= |s| && TlvAt(s[pos..]) == Some(t) && WalkField(s, pos, t) == Some(s')
    ensures WalkSignedData(s, pos, end) == WalkSignedData(s', pos + t.headerLen + t.contentLen, end)
  {
    hide TlvAt, WalkField;
  }

  /** Nothing left to walk. */
  lemma {:induction false} WalkDone(s: Bytes, pre: Bytes, post: Bytes)
    requires s == pre + UnparseAll([]) + post
    ensures var end := |pre| + |UnparseAll([])|;
      && ChildBlobs(s, |pre|, end) == Some(Encodings([]))
      && WalkFields(s, |pre|, end) == Some(s)
      && WalkSignerInfos(s, |pre|, end) == Some(s)
      && WalkSignedData(s, |pre|, end) == Some(s)
  {
    hide TlvAt, SortIfContext, WalkIfSignerInfo, WalkField;
  }

  lemma {:induction false} SortListsCons(bs: seq<Ber>)
    ensures bs == [] ==> SortFields(bs) == SortSignerInfos(bs) == SortSdFields(bs) == []
    ensures bs != [] ==> SortFields(bs) == [SortField(bs[0])] + SortFields(bs[1..])
    ensures bs != [] ==> SortSignerInfos(bs) == [SortSignerInfo(bs[0])] + SortSignerInfos(bs[1..])
    ensures bs != [] ==> SortSdFields(bs) == [SortSdField(bs[0])] + SortSdFields(bs[1..])
  {
  }

  /** The children of an element are found as they are. */
  lemma {:induction false} ChildBlobsOfKids(s: Bytes, pre: Bytes, bs: seq<Ber>, post: Bytes, depth: nat)
    requires Stands(s, pre, bs, post) && GoodAll(bs, depth)
    ensures ChildBlobs(s, |pre|, |pre| + |UnparseAll(bs)|) == Some(Encodings(bs))
    decreases |bs|
  {
    hide *;
    if bs == [] {
      StandsSplit(s, pre, bs, post);
      WalkDone(s, pre, post);
    } else {
      StandsCons(s, pre, bs, post, depth);
      var b, end := bs[0], |pre| + |UnparseAll(bs)|;
      ChildBlobsOfKids(s, pre + Unparse(b), bs[1..], post, depth);
      ChildBlobsStep(s, |pre|, end, HeaderOf(b), Encodings(bs[1..]));
      EncodingsCons(b, bs[1..]);
      assert [b] + bs[1..] == bs;
    }
  }

  lemma {:induction false} StandsSplit(s: Bytes, pre: Bytes, bs: seq<Ber>, post: Bytes)
    ensures Stands(s, pre, bs, post) <==> s == pre + UnparseAll(bs) + post
  {
  }

  lemma {:induction false} SortRegionStep(s: Bytes, pre: Bytes, mid: Bytes, post: Bytes, bs: seq<Bytes>)
    requires s == pre + mid + post && ChildBlobs(s, |pre|, |pre| + |mid|) == Some(bs)
    ensures SortRegion(s, |pre|, |mid|) == Some(pre + Concat(Sort(bs)) + post)
  {
    hide ChildBlobs, Concat, Sort;
    SliceParts(pre, mid, post);
  }

  /** Sorting a region sorts the elements in it. */
  lemma {:induction false} SortRegionOfKids(s: Bytes, pre: Bytes, bs: seq<Ber>, post: Bytes, depth: nat)
    requires Stands(s, pre, bs, post) && GoodAll(bs, depth)
    ensures SortRegion(s, |pre|, |UnparseAll(bs)|) == Some(pre + UnparseAll(SortKids(bs)) + post)
  {
    hide *;
    StandsSplit(s, pre, bs, post);
    ChildBlobsOfKids(s, pre, bs, post, depth);
    SortRegionStep(s, pre, UnparseAll(bs), post, Encodings(bs));
    SortKidsEncodings(bs);
    UnparseAllConcat(SortKids(bs));
  }

  /** The children of the element at pos stand behind its header. */
  lemma StandsInside(s: Bytes, pre: Bytes, b: Ber, post: Bytes, depth: nat)
    requires s == pre + Unparse(b) + post && b.Definite? && Good(b, depth)
    ensures Stands(s, pre + b.tag + b.len, b.kids, post) && GoodAll(b.kids, depth + 1)
    ensures |pre + b.tag + b.len| == |pre| + HeaderOf(b).headerLen
    ensures |UnparseAll(b.kids)| == HeaderOf(b).contentLen
    ensures forall kids :: pre + b.tag + b.len + UnparseAll(kids) + post == pre + Unparse(b.(kids := kids)) + post
  {
    forall kids ensures pre + b.tag + b.len + UnparseAll(kids) + post == pre + Unparse(b.(kids := kids)) + post {
      AssociateFour(pre, b.tag, b.len, UnparseAll(kids));
    }
    assert b.(kids := b.kids) == b;
  }

  lemma {:induction false} SortIfContextOfField(s: Bytes, pre: Bytes, f: Ber, post: Bytes, depth: nat)
    requires s == pre + Unparse(f) + post && Good(f, depth)
    ensures f.tag != [] && !f.Indefinite? && |pre| + HeaderOf(f).headerLen <= |s|
    ensures SortIfContext(s, |pre|, HeaderOf(f)) == Some(pre + Unparse(SortField(f)) + post)
  {
    hide Good, Unparse, SortRegion, IsImplicitSet, HeaderOf, IsContext, TlvAt, UnparseAll, SortKids;
    TlvAtBer(f, post, depth);
    ContextTags(f, depth);
    if IsImplicitSet(f) {
      StandsInside(s, pre, f, post, depth);
      SortRegionOfKids(s, pre + f.tag + f.len, f.kids, post, depth + 1);
    }
  }

  /** The tag octet the code looks at says what the tree says. */
  lemma ContextTags(f: Ber, depth: nat)
    requires Good(f, depth)
    ensures f.tag != [] && !f.Indefinite?
    ensures IsContext(HeaderOf(f)) <==> IsImplicitSet(f)
    ensures IsImplicitSet(f) ==> f.Definite?
    ensures IsSequenceTlv(HeaderOf(f)) <==> IsSequence(f)
    ensures HeaderOf(f).tagByte == 0x31 && HeaderOf(f).isConstructed <==> f.Definite? && f.tag == SET
  {
  }

  /** Behind an element that was replaced by one of the same size the rest still stands. */
  lemma {:induction false} StandsNext(pre: Bytes, b: Ber, bs: seq<Ber>, post: Bytes)
    ensures Stands(pre + Unparse(b) + (UnparseAll(bs) + post), pre + Unparse(b), bs, post)
    ensures pre + UnparseAll([b] + bs) + post == pre + Unparse(b) + UnparseAll(bs) + post
  {
    assert ([b] + bs)[1..] == bs;
    Regroup(pre, Unparse(b), UnparseAll(bs), post);
  }

  lemma {:induction false} WalkFieldsOfKids(s: Bytes, pre: Bytes, fs: seq<Ber>, post: Bytes, depth: nat)
    requires Stands(s, pre, fs, post) && GoodAll(fs, depth)
    ensures WalkFields(s, |pre|, |pre| + |UnparseAll(fs)|) == Some(pre + UnparseAll(SortFields(fs)) + post)
    decreases |fs|
  {
    hide *;
    SortListsCons(fs);
    if fs == [] {
      StandsSplit(s, pre, fs, post);
      WalkDone(s, pre, post);
    } else {
      StandsCons(s, pre, fs, post, depth);
      var f, f', rest := fs[0], SortField(fs[0]), UnparseAll(fs[1..]) + post;
      SortIfContextOfField(s, pre, f, rest, depth);
      SortFieldGood(f, depth);
      WalkFieldsStep(s, |pre|, |pre| + |UnparseAll(fs)|, HeaderOf(f), pre + Unparse(f') + rest);
      StandsNext(pre, f', fs[1..], post);
      WalkFieldsOfKids(pre + Unparse(f') + rest, pre + Unparse(f'), fs[1..], post, depth);
      StandsNext(pre, f', SortFields(fs[1..]), post);
    }
  }

  lemma {:induction false} WalkIfSignerInfoOfKid(s: Bytes, pre: Bytes, si: Ber, post: Bytes, depth: nat)
    requires s == pre + Unparse(si) + post && Good(si, depth)
    ensures si.tag != [] && !si.Indefinite? && |pre| + HeaderOf(si).headerLen <= |s|
    ensures WalkIfSignerInfo(s, |pre|, HeaderOf(si)) == Some(pre + Unparse(SortSignerInfo(si)) + post)
  {
    hide Good, Unparse, WalkFields, HeaderOf, IsSequenceTlv, TlvAt, UnparseAll, SortFields;
    TlvAtBer(si, post, depth);
    ContextTags(si, depth);
    if IsSequence(si) {
      StandsInside(s, pre, si, post, depth);
      WalkFieldsOfKids(s, pre + si.tag + si.len, si.kids, post, depth + 1);
    }
  }

  lemma {:induction false} WalkSignerInfosOfKids(s: Bytes, pre: Bytes, sis: seq<Ber>, post: Bytes, depth: nat)
    requires Stands(s, pre, sis, post) && GoodAll(sis, depth)
    ensures WalkSignerInfos(s, |pre|, |pre| + |UnparseAll(sis)|) == Some(pre + UnparseAll(SortSignerInfos(sis)) + post)
    decreases |sis|
  {
    hide *;
    SortListsCons(sis);
    if sis == [] {
      StandsSplit(s, pre, sis, post);
      WalkDone(s, pre, post);
    } else {
      StandsCons(s, pre, sis, post, depth);
      var b, b', rest := sis[0], SortSignerInfo(sis[0]), UnparseAll(sis[1..]) + post;
      WalkIfSignerInfoOfKid(s, pre, b, rest, depth);
      SortSignerInfoGood(b, depth);
      WalkSignerInfosStep(s, |pre|, |pre| + |UnparseAll(sis)|, HeaderOf(b), pre + Unparse(b') + rest);
      StandsNext(pre, b', sis[1..], post);
      WalkSignerInfosOfKids(pre + Unparse(b') + rest, pre + Unparse(b'), sis[1..], post, depth);
      StandsNext(pre, b', SortSignerInfos(sis[1..]), post);
    }
  }

  lemma {:induction false} WalkFieldStep(s: Bytes, pos: nat, t: DerTlv, s': Bytes)
    requires pos + t.headerLen <= |s| == |s'|
    ensures t.tagByte == 0x31 && t.isConstructed
      && WalkSignerInfos(s, pos + t.headerLen, pos + t.headerLen + t.contentLen) == Some(s')
      ==> WalkField(s, pos, t) == SortRegion(s', pos + t.headerLen, t.contentLen)
    ensures !(t.tagByte == 0x31 && t.isConstructed) ==> WalkField(s, pos, t) == SortIfContext(s, pos, t)
  {
    hide WalkSignerInfos, SortRegion, SortIfContext;
  }

  lemma WalkSetOfSd(s: Bytes, pre: Bytes, f: Ber, post: Bytes, depth: nat)
    requires s == pre + Unparse(f) + post && Good(f, depth) && f.Definite? && f.tag == SET
    ensures f.tag != [] && |pre| + HeaderOf(f).headerLen <= |s|
    ensures WalkField(s, |pre|, HeaderOf(f)) ==
      Some(pre + Unparse(f.(kids := SortKids(SortSignerInfos(f.kids)))) + post)
  {
    hide *;
    var head, sis := pre + f.tag + f.len, SortSignerInfos(f.kids);
    TlvAtBer(f, post, depth);
    ContextTags(f, depth);
    StandsInside(s, pre, f, post, depth);
    WalkSignerInfosOfKids(s, head, f.kids, post, depth + 1);
    SortSignerInfosGood(f.kids, depth + 1);
    StandsSplit(s, head, f.kids, post);
    StandsSplit(head + UnparseAll(sis) + post, head, sis, post);
    SortRegionOfKids(head + UnparseAll(sis) + post, head, sis, post, depth + 1);
    WalkFieldStep(s, |pre|, HeaderOf(f), head + UnparseAll(sis) + post);
  }

  lemma {:induction false} WalkFieldOfSd(s: Bytes, pre: Bytes, f: Ber, post: Bytes, depth: nat)
    requires s == pre + Unparse(f) + post && Good(f, depth)
    ensures f.tag != [] && !f.Indefinite? && |pre| + HeaderOf(f).headerLen <= |s|
    ensures WalkField(s, |pre|, HeaderOf(f)) == Some(pre + Unparse(SortSdField(f)) + post)
  {
    hide Good, Unparse, WalkField, SortIfContext, SortField, HeaderOf, TlvAt, SortKids, SortSignerInfos;
    TlvAtBer(f, post, depth);
    ContextTags(f, depth);
    if f.Definite? && f.tag == SET {
      WalkSetOfSd(s, pre, f, post, depth);
    } else {
      SortIfContextOfField(s, pre, f, post, depth);
      WalkFieldStep(s, |pre|, HeaderOf(f), s);
    }
  }

  lemma {:induction false} WalkSignedDataOfKids(s: Bytes, pre: Bytes, fs: seq<Ber>, post: Bytes, depth: nat)
    requires Stands(s, pre, fs, post) && GoodAll(fs, depth)
    ensures WalkSignedData(s, |pre|, |pre| + |UnparseAll(fs)|) == Some(pre + UnparseAll(SortSdFields(fs)) + post)
    decreases |fs|
  {
    hide *;
    SortListsCons(fs);
    if fs == [] {
      StandsSplit(s, pre, fs, post);
      WalkDone(s, pre, post);
    } else {
      StandsCons(s, pre, fs, post, depth);
      var b, b', rest := fs[0], SortSdField(fs[0]), UnparseAll(fs[1..]) + post;
      WalkFieldOfSd(s, pre, b, rest, depth);
      SortSdFieldGood(b, depth);
      WalkSignedDataStep(s, |pre|, |pre| + |UnparseAll(fs)|, HeaderOf(b), pre + Unparse(b') + rest);
      StandsNext(pre, b', fs[1..], post);
      WalkSignedDataOfKids(pre + Unparse(b') + rest, pre + Unparse(b'), fs[1..], post, depth);
      StandsNext(pre, b', SortSdFields(fs[1..]), post);
    }
  }

  // ---------- The whole pass, and what it leaves untouched ----------

  predicate Found(ci: Ber) { Locate(ci).InExplicit? || Locate(ci).AfterExplicit? }

  /** The octets before the SEQUENCE the walk sorts in. */
  function Before(ci: Ber): Bytes
    requires Found(ci)
  {
    var e := ci.kids[1];
    ci.tag + ci.len + Unparse(ci.kids[0]) + (if Locate(ci).InExplicit? then e.tag + e.len else Unparse(e))
  }

  /** The octets behind it. */
  function Behind(ci: Ber): Bytes
    requires Found(ci)
  {
    if Locate(ci).InExplicit? then UnparseAll(ci.kids[1].kids[1..]) + UnparseAll(ci.kids[2..])
    else UnparseAll(ci.kids[3..])
  }

  lemma {:induction false} UnparseUpdate(bs: seq<Ber>, i: nat, b: Ber)
    requires i < |bs|
    ensures UnparseAll(bs[i := b]) == UnparseAll(bs[..i]) + (Unparse(b) + UnparseAll(bs[i + 1..]))
  {
    assert bs[i := b] == bs[..i] + ([b] + bs[i + 1..]);
    GoodAppend(bs[..i], [b] + bs[i + 1..], 0);
    StandsNext([], b, bs[i + 1..], []);
    assert ([b] + bs[i + 1..])[1..] == bs[i + 1..];
  }

  lemma UnparseTwo(bs: seq<Ber>)
    ensures |bs| >= 1 ==> UnparseAll(bs[..1]) == Unparse(bs[0])
    ensures |bs| >= 2 ==> UnparseAll(bs[..2]) == Unparse(bs[0]) + Unparse(bs[1])
  {
    if |bs| >= 1 {
      assert bs[..1] == [bs[0]] + [];
      assert UnparseAll([bs[0]]) == Unparse(bs[0]) + [];
    }
    if |bs| >= 2 {
      assert bs[..2] == [bs[0]] + [bs[1]];
      assert bs[..2][1..] == [bs[1]];
      assert UnparseAll([bs[1]]) == Unparse(bs[1]) + [];
    }
  }

  /** Exchanging the located SEQUENCE changes no octet outside it. */
  lemma {:induction false} ReplaceFrame(ci: Ber, sd: Ber)
    requires Found(ci)
    ensures Unparse(ReplaceSignedData(ci, sd)) == Before(ci) + Unparse(sd) + Behind(ci)
  {
    var head, k0, rest := ci.tag + ci.len, Unparse(ci.kids[0]), UnparseAll(ci.kids[2..]);
    if Locate(ci).InExplicit? {
      var e := ci.kids[1];
      var e' := e.(kids := e.kids[0 := sd]);
      UnparseUpdate(ci.kids, 1, e');
      UnparseTwo(ci.kids);
      UnparseUpdate(e.kids, 0, sd);
      FlattenParts(head, k0, e.tag + e.len, Unparse(sd), UnparseAll(e.kids[1..]), rest);
    } else {
      UnparseUpdate(ci.kids, 2, sd);
      UnparseTwo(ci.kids);
      FlattenParts(head, k0, Unparse(ci.kids[1]), Unparse(sd), [], UnparseAll(ci.kids[3..]));
    }
  }

  lemma FlattenParts(a: Bytes, b: Bytes, c: Bytes, d: Bytes, e: Bytes, f: Bytes)
    ensures a + (b + ((c + ([] + (d + e))) + f)) == a + b + c + d + (e + f)
    ensures a + (b + c + (d + f)) == a + b + c + d + f
  {
  }

  lemma OidTags(b: Ber, depth: nat)
    requires Good(b, depth)
    ensures b.tag != [] && !b.Indefinite?
    ensures HeaderOf(b).tagByte == 0x06 <==> b.tag == OID
    ensures HeaderOf(b).tagByte == 0xA0 <==> b.Definite? && b.tag == CONTEXT_0
  {
  }

  /** The content octets of an element that stands at pos. */
  lemma {:induction false} ContentAt(s: Bytes, pos: nat, b: Ber, depth: nat)
    requires Good(b, depth) && b.tag != [] && !b.Indefinite?
    requires pos + |Unparse(b)| <= |s| && s[pos..pos + |Unparse(b)|] == Unparse(b)
    ensures |Unparse(b)| == HeaderOf(b).headerLen + HeaderOf(b).contentLen
    ensures s[pos + HeaderOf(b).headerLen..pos + |Unparse(b)|] == ContentOf(b)
  {
    hide Good, TlvAt;
    TlvAtBer(b, [], depth);
    var u := Unparse(b);
    assert u[|b.tag + b.len|..] == ContentOf(b);
    assert s[pos + |b.tag + b.len|..pos + |u|] == s[pos..pos + |u|][|b.tag + b.len|..];
  }

  lemma StandsEnd(s: Bytes, pre: Bytes)
    requires Stands(s, pre, [], [])
    ensures |pre| == |s| && TlvAt(s[|pre|..]) == None
  {
  }

  /** The walk through the located SEQUENCE. */
  lemma {:induction false} WalkLocated(ci: Ber)
    requires Good(ci, 0) && Found(ci)
    ensures var s, sd := Unparse(ci), SignedData(ci);
      && sd.tag != [] && |Before(ci)| + HeaderOf(sd).headerLen <= |s|
      && |Before(ci)| <= |s| && TlvAt(s[|Before(ci)|..]) == Some(HeaderOf(sd))
      && var start := |Before(ci)| + HeaderOf(sd).headerLen;
      WalkSignedData(s, start, start + HeaderOf(sd).contentLen) ==
        Some(Unparse(ReplaceSignedData(ci, SortSignedData(sd))))
  {
    hide Good, GoodAll, WalkSignedData, TlvAt, Unparse, UnparseAll, Before, Behind, ReplaceSignedData, SortSdFields;
    var s, sd, pre, post := Unparse(ci), SignedData(ci), Before(ci), Behind(ci);
    var depth := LocatedGood(ci);
    ReplaceFrame(ci, sd);
    ReplaceFrame(ci, SortSignedData(sd));
    ReplaceWithItself(ci);
    TlvAtBer(sd, post, depth);
    assert s[|pre|..] == Unparse(sd) + post;
    StandsInside(s, pre, sd, post, depth);
    WalkSignedDataOfKids(s, pre + sd.tag + sd.len, sd.kids, post, depth + 1);
  }

  lemma ReplaceWithItself(ci: Ber)
    requires Found(ci)
    ensures ReplaceSignedData(ci, SignedData(ci)) == ci
  {
    if Locate(ci).InExplicit? {
      var e := ci.kids[1];
      assert e.kids[0 := e.kids[0]] == e.kids && e.(kids := e.kids) == e;
      assert ci.kids[1 := e] == ci.kids;
    } else {
      assert ci.kids[2 := ci.kids[2]] == ci.kids;
    }
  }

  lemma LocatedGood(ci: Ber) returns (depth: nat)
    requires Good(ci, 0) && Found(ci)
    ensures Good(SignedData(ci), depth)
  {
    hide Good, GoodAll;
    GoodKids(ci, 0);
    if Locate(ci).InExplicit? {
      GoodMember(ci.kids, 1, 1);
      GoodKids(ci.kids[1], 1);
      GoodMember(ci.kids[1].kids, 0, 2);
      depth := 2;
    } else {
      GoodMember(ci.kids, 2, 1);
      depth := 1;
    }
  }

  /** The element the walk takes for SignedData: the first inside [0], or the one behind an empty [0]. */
  function Candidate(ci: Ber): Option<Ber>
    requires ci.Definite? && |ci.kids| >= 2 && ci.kids[1].Definite?
  {
    var e := ci.kids[1];
    if e.kids != [] then Some(e.kids[0]) else if |ci.kids| >= 3 then Some(ci.kids[2]) else None
  }

  lemma CandidateStands(ci: Ber, s: Bytes, pre: Bytes)
    requires ci.Definite? && |ci.kids| >= 2 && ci.kids[1].Definite? && GoodAll(ci.kids[1..], 1)
    requires Stands(s, pre, ci.kids[1..], [])
    ensures var e := ci.kids[1];
      var start := |pre| + |e.tag + e.len|;
      && start <= |s|
      && (Candidate(ci).None? ==> TlvAt(s[start..]) == None)
      && (Candidate(ci).Some? ==>
            var b := Candidate(ci).value;
            && b.tag != [] && !b.Indefinite? && TlvAt(s[start..]) == Some(HeaderOf(b))
            && (IsSequenceTlv(HeaderOf(b)) <==> IsSequence(b)))
      && (pre == ci.tag + ci.len + Unparse(ci.kids[0]) && Found(ci) ==> start == |Before(ci)|)
  {
    hide Good, GoodAll, Stands, TlvAt, Unparse, HeaderOf, IsSequenceTlv, IsSequence;
    var e, rest, later := ci.kids[1], UnparseAll(ci.kids[1..][1..]) + [], ci.kids[1..][1..];
    StandsCons(s, pre, ci.kids[1..], [], 1);
    StandsInside(s, pre, e, rest, 1);
    TlvAtBer(e, rest, 1);
    if e.kids != [] {
      StandsCons(s, pre + e.tag + e.len, e.kids, rest, 2);
      ContextTags(e.kids[0], 2);
    } else {
      assert pre + e.tag + e.len == pre + Unparse(e);
      if later == [] {
        StandsEnd(s, pre + Unparse(e));
      } else {
        assert later[0] == ci.kids[2];
        StandsCons(s, pre + Unparse(e), later, [], 1);
        ContextTags(later[0], 1);
      }
    }
  }

  predicate IsSignedDataOid(b: Ber) { b.tag == OID && ContentOf(b) == ID_SIGNED_DATA }

  /** What SortCms makes of a ContentInfo whose OID is id-signedData. */
  lemma SortCmsCases(ci: Ber)
    requires ci.Definite? && IsSequence(ci) && ci.kids != [] && IsSignedDataOid(ci.kids[0])
    ensures |ci.kids| == 1 || !ci.kids[1].Definite? || ci.kids[1].tag != CONTEXT_0 ==> SortCms(ci) == None
    ensures |ci.kids| >= 2 && ci.kids[1].Definite? && ci.kids[1].tag == CONTEXT_0 ==>
      if Candidate(ci).Some? && IsSequence(Candidate(ci).value) then
        && Found(ci) && SignedData(ci) == Candidate(ci).value
        && SortCms(ci) == Some(ReplaceSignedData(ci, SortSignedData(SignedData(ci))))
      else SortCms(ci) == None
  {
  }

  function Encoded(c: Option<Ber>): Option<Bytes> {
    match c case None => None case Some(b) => Some(Unparse(b))
  }

  /** The explicit tag, and the element taken for SignedData. */
  lemma {:induction false} ExplicitOfTree(ci: Ber, s: Bytes, pre: Bytes)
    requires Good(ci, 0) && ci.Definite? && IsSequence(ci) && ci.kids != [] && IsSignedDataOid(ci.kids[0])
    requires |ci.kids| >= 2 && ci.kids[1].Definite? && ci.kids[1].tag == CONTEXT_0 && GoodAll(ci.kids[1..], 1)
    requires s == Unparse(ci) && pre == ci.tag + ci.len + Unparse(ci.kids[0]) && Stands(s, pre, ci.kids[1..], [])
    ensures |pre| <= |s| && SortAfterOid(s, |pre|) == Encoded(SortCms(ci))
  {
    hide *;
    var e := ci.kids[1];
    StandsCons(s, pre, ci.kids[1..], [], 1);
    OidTags(e, 1);
    CandidateStands(ci, s, pre);
    SortCmsCases(ci);
    AfterOidStep(s, |pre|, HeaderOf(e));
    HeaderLength(e);
    EncodedCases(SortCms(ci));
    if Candidate(ci).Some? && IsSequence(Candidate(ci).value) {
      WalkLocated(ci);
    }
  }

  lemma EncodedCases(c: Option<Ber>)
    ensures Encoded(c) == if c.Some? then Some(Unparse(c.value)) else None
  {
  }

  lemma HeaderLength(b: Ber)
    requires b.Definite? && b.tag != []
    ensures HeaderOf(b).headerLen == |b.tag + b.len|
  {
  }

  lemma {:induction false} AfterOidStep(s: Bytes, pos: nat, e: DerTlv)
    requires pos <= |s| && TlvAt(s[pos..]) == Some(e)
    ensures var start := pos + e.headerLen;
      && start <= |s|
      && SortAfterOid(s, pos) ==
        if e.tagByte != 0xA0 || TlvAt(s[start..]) == None || !IsSequenceTlv(TlvAt(s[start..]).value) then None
        else
          var sd := TlvAt(s[start..]).value;
          WalkSignedData(s, start + sd.headerLen, start + sd.headerLen + sd.contentLen)
  {
    hide TlvAt, WalkSignedData, IsSequenceTlv;
  }

  lemma {:induction false} SortAfterOidOfTree(ci: Ber, s: Bytes, pre: Bytes)
    requires Good(ci, 0) && ci.Definite? && IsSequence(ci) && ci.kids != [] && IsSignedDataOid(ci.kids[0])
    requires s == Unparse(ci) && pre == ci.tag + ci.len + Unparse(ci.kids[0])
    requires Stands(s, pre, ci.kids[1..], []) && GoodAll(ci.kids[1..], 1)
    ensures |pre| <= |s| && SortAfterOid(s, |pre|) == Encoded(SortCms(ci))
  {
    hide *;
    var more := ci.kids[1..];
    SortCmsCases(ci);
    EncodedCases(SortCms(ci));
    if more == [] {
      StandsEnd(s, pre);
      AfterOidEnd(s, |pre|);
    } else {
      StandsCons(s, pre, more, [], 1);
      var e := more[0];
      OidTags(e, 1);
      if e.Definite? && e.tag == CONTEXT_0 {
        ExplicitOfTree(ci, s, pre);
      } else {
        AfterOidStep(s, |pre|, HeaderOf(e));
      }
    }
  }

  lemma AfterOidEnd(s: Bytes, pos: nat)
    requires pos <= |s| && TlvAt(s[pos..]) == None
    ensures SortAfterOid(s, pos) == None
  {
    hide TlvAt;
  }

  /** On the encoding of a normal form the walk computes SortCms, errors included. */
  lemma {:induction false} SortCmsOctetsOfTree(ci: Ber)
    requires Good(ci, 0)
    ensures SortCmsOctets(Unparse(ci)) == Encoded(SortCms(ci))
  {
    hide Good, GoodAll, TlvAt, Unparse, UnparseAll, ReplaceSignedData, SortSignedData, Stands, SortAfterOid, IsSequenceTlv;
    var s := Unparse(ci);
    assert s + [] == s;
    TlvAtBer(ci, [], 0);
    ContextTags(ci, 0);
    if IsSequence(ci) {
      SequenceOfTree(ci);
    }
  }

  lemma {:induction false} SequenceOfTree(ci: Ber)
    requires Good(ci, 0) && ci.Definite? && IsSequence(ci) && ci.tag != []
    ensures SortCmsOctets(Unparse(ci)) == Encoded(SortCms(ci))
  {
    hide Good, GoodAll, TlvAt, Unparse, UnparseAll, ReplaceSignedData, SortSignedData, Stands, SortAfterOid, IsSequenceTlv;
    var s, pre := Unparse(ci), ci.tag + ci.len;
    TlvAtBer(ci, [], 0);
    ContextTags(ci, 0);
    StandsInside(s, [], ci, [], 0);
    assert s + [] == s && [] + ci.tag + ci.len == pre && [] + s + [] == s;
    if ci.kids == [] {
      StandsEnd(s, pre);
    } else {
      var oid := ci.kids[0];
      StandsCons(s, pre, ci.kids, [], 1);
      OidTags(oid, 1);
      ContentAt(s, |pre|, oid, 1);
      if oid.tag == OID && ContentOf(oid) == ID_SIGNED_DATA {
        SortAfterOidOfTree(ci, s, pre + Unparse(oid));
      }
    }
  }
}
