// The in-place code of the implicit-set pass (src/utils.rs:249-372), proved against the functions of CmsWalk.
module CmsInPlace {
  import opened Octets
  import opened LengthCodec
  import opened BerCanon
  import opened BerToDer
  import opened CmsTree
  import opened CmsWalk
  import Normalizer

  function PrependBlobs(done: seq<Bytes>, r: Option<seq<Bytes>>): Option<seq<Bytes>> {
    match r case None => None case Some(bs) => Some(done + bs)
  }

  lemma CollectStep(s: Bytes, pos: nat, end: nat, done: seq<Bytes>)
    requires pos < end && pos <= |s|
    ensures TlvAt(s[pos..]).None? ==> ChildBlobs(s, pos, end) == None
    ensures TlvAt(s[pos..]).Some? ==>
      var t := TlvAt(s[pos..]).value;
      var next := pos + t.headerLen + t.contentLen;
      next <= |s| && PrependBlobs(done, ChildBlobs(s, pos, end))
                     == PrependBlobs(done + [s[pos..next]], ChildBlobs(s, next, end))
  {
    hide TlvAt, Concat;
    if TlvAt(s[pos..]).Some? {
      var t := TlvAt(s[pos..]).value;
      var next := pos + t.headerLen + t.contentLen;
      var rest := ChildBlobs(s, next, end);
      if rest.Some? {
        assert done + ([s[pos..next]] + rest.value) == done + [s[pos..next]] + rest.value;
      }
    }
  }

  lemma {:induction false} CollectEnd(s: Bytes, pos: nat, end: nat, done: seq<Bytes>)
    requires pos <= |s| && pos >= end
    ensures PrependBlobs(done, ChildBlobs(s, pos, end)) == if pos == end then Some(done) else None
  {
    hide TlvAt;
    assert done + [] == done;
  }

  /** The first bad header decides; behind the last one the elements must end where the region ends. */
  function BlobsFault(s: Bytes, pos: nat, end: nat): Option<BerError>
    requires pos <= |s|
    decreases |s| - pos
  {
    if pos == end then None
    else if pos > end then Some(ChildrenMisfit)
    else match TlvAt(s[pos..])
      case None => TlvFault(s[pos..])
      case Some(t) => BlobsFault(s, pos + t.headerLen + t.contentLen, end)
  }

  /** Collect the child slices. */
  method CollectChildren(data: array<byte>, start: nat, end: nat) returns (r: Result<seq<Bytes>, BerError>)
    requires start <= end <= data.Length
    ensures r.Ok? <==> ChildBlobs(data[..], start, end).Some?
    ensures r.Ok? ==> ChildBlobs(data[..], start, end) == Some(r.value)
    ensures r.Err? ==> BlobsFault(data[..], start, end) == Some(r.error)
  {
    hide TlvAt, TlvFault, ChildBlobs, Concat;
    ghost var s := data[..];
    var children: seq<Bytes> := [];
    var pos := start;
    PrependNothing(ChildBlobs(s, start, end));
    while pos < end
      invariant start <= pos <= data.Length
      invariant ChildBlobs(s, start, end) == PrependBlobs(children, ChildBlobs(s, pos, end))
      invariant BlobsFault(s, start, end) == BlobsFault(s, pos, end)
      decreases data.Length - pos
    {
      CollectStep(s, pos, end, children);
      TlvFaultExactly(s[pos..]);
      var tlv :- ParseDerTlv(data[..], pos);
      var childLen := tlv.headerLen + tlv.contentLen;
      children := children + [data[pos..pos + childLen]];
      pos := pos + childLen;
    }
    CollectEnd(s, pos, end, children);
    if pos != end {
      return Err(ChildrenMisfit);
    }
    return Ok(children);
  }

  lemma PrependNothing(r: Option<seq<Bytes>>)
    ensures PrependBlobs([], r) == r
  {
    if r.Some? { assert [] + r.value == r.value; }
  }

  /** Write the sorted children back over the region they came from. */
  method WriteBack(data: array<byte>, start: nat, children: seq<Bytes>)
    requires start + |Concat(children)| <= data.Length
    modifies data
    ensures data[..] == old(data[..start]) + Concat(children) + old(data[start + |Concat(children)|..])
  {
    hide Concat;
    ghost var s := data[..];
    assert s == s[..start] + [] + s[start..];
    var pos := start;
    ConcatPrefix(children, 0);
    for i := 0 to |children|
      invariant pos == start + |Concat(children[..i])| <= data.Length
      invariant data[..] == s[..start] + Concat(children[..i]) + s[pos..]
    {
      ConcatPrefix(children, i);
      CopyInto(data, pos, children[i]);
      CopyNext(s, start, Concat(children[..i]), children[i]);
      pos := pos + |children[i]|;
    }
    assert children[..|children|] == children;
  }

  lemma CopyNext(s: Bytes, start: nat, done: Bytes, child: Bytes)
    requires start + |done| + |child| <= |s|
    ensures var pos, t := start + |done|, s[..start] + done + s[start + |done|..];
      t[..pos] + child + t[pos + |child|..] == s[..start] + (done + child) + s[pos + |child|..]
  {
  }

  lemma ConcatPrefix(bs: seq<Bytes>, i: nat)
    requires i <= |bs|
    ensures Concat(bs[..0]) == []
    ensures i < |bs| ==> Concat(bs[..i + 1]) == Concat(bs[..i]) + bs[i]
    ensures i < |bs| ==> |Concat(bs[..i + 1])| <= |Concat(bs)|
  {
    if i < |bs| {
      assert bs[..i + 1] == bs[..i] + [bs[i]];
      ConcatSnoc(bs[..i], bs[i]);
      assert bs == bs[..i + 1] + bs[i + 1..];
      ConcatAppend(bs[..i + 1], bs[i + 1..]);
    }
  }

  /** `sort_children_in_place` */
  method SortChildrenInPlace(data: array<byte>, offset: nat, headerLen: nat, contentLen: nat)
    returns (r: Result<(), BerError>)
    requires offset + headerLen <= data.Length
    modifies data
    ensures r.Ok? <==> SortRegion(old(data[..]), offset + headerLen, contentLen).Some?
    ensures r.Ok? ==> Some(data[..]) == SortRegion(old(data[..]), offset + headerLen, contentLen)
    ensures r.Err? ==> data[..] == old(data[..])
    ensures multiset(data[..]) == multiset(old(data[..]))
  {
    hide TlvAt, ChildBlobs, Concat, Sort, BlobsFault, Sorted;
    var contentStart := offset + headerLen;
    var contentEnd := contentStart + contentLen;
    if contentEnd > data.Length {
      return Err(ContentOutOfBounds);
    }
    var children :- CollectChildren(data, contentStart, contentEnd);
    SortedSize(children);
    ghost var s := data[..];
    RegionRearranged(s, contentStart, contentLen);
    WriteBack(data, contentStart, Sort(children));
    assert Some(data[..]) == SortRegion(s, contentStart, contentLen);
    return Ok(());
  }

  /** One field of a SignerInfo. */
  method SortFieldInPlace(data: array<byte>, pos: nat, tlv: DerTlv) returns (r: Result<(), BerError>)
    requires pos + tlv.headerLen <= data.Length
    modifies data
    ensures r.Ok? <==> SortIfContext(old(data[..]), pos, tlv).Some?
    ensures r.Ok? ==> Some(data[..]) == SortIfContext(old(data[..]), pos, tlv)
    ensures multiset(data[..]) == multiset(old(data[..]))
  {
    hide SortRegion;
    if (tlv.tagByte == 0xA0 || tlv.tagByte == 0xA1) && tlv.isConstructed {
      var _ :- SortChildrenInPlace(data, pos, tlv.headerLen, tlv.contentLen);
    }
    return Ok(());
  }

  method SortFieldsInPlace(data: array<byte>, start: nat, end: nat) returns (r: Result<(), BerError>)
    requires start <= data.Length
    modifies data
    ensures r.Ok? <==> WalkFields(old(data[..]), start, end).Some?
    ensures r.Ok? ==> Some(data[..]) == WalkFields(old(data[..]), start, end)
    ensures multiset(data[..]) == multiset(old(data[..]))
  {
    hide TlvAt, SortIfContext;
    var fieldPos := start;
    while fieldPos < end
      invariant fieldPos <= data.Length
      invariant multiset(data[..]) == multiset(old(data[..]))
      invariant WalkFields(data[..], fieldPos, end) == WalkFields(old(data[..]), start, end)
      decreases data.Length - fieldPos
    {
      var fieldTlv :- ParseDerTlv(data[..], fieldPos);
      var _ :- SortFieldInPlace(data, fieldPos, fieldTlv);
      fieldPos := fieldPos + fieldTlv.headerLen + fieldTlv.contentLen;
    }
    return Ok(());
  }

  /** `sort_signer_infos_implicit_sets` */
  method SortSignerInfosInPlace(data: array<byte>, contentStart: nat, contentLen: nat) returns (r: Result<(), BerError>)
    requires contentStart <= data.Length
    modifies data
    ensures r.Ok? <==> WalkSignerInfos(old(data[..]), contentStart, contentStart + contentLen).Some?
    ensures r.Ok? ==> Some(data[..]) == WalkSignerInfos(old(data[..]), contentStart, contentStart + contentLen)
    ensures multiset(data[..]) == multiset(old(data[..]))
  {
    hide TlvAt, WalkFields;
    var contentEnd := contentStart + contentLen;
    var siPos := contentStart;
    while siPos < contentEnd
      invariant siPos <= data.Length
      invariant multiset(data[..]) == multiset(old(data[..]))
      invariant WalkSignerInfos(data[..], siPos, contentEnd) == WalkSignerInfos(old(data[..]), contentStart, contentEnd)
      decreases data.Length - siPos
    {
      var siTlv :- ParseDerTlv(data[..], siPos);
      var siEnd := siPos + siTlv.headerLen + siTlv.contentLen;
      if siTlv.tagByte == 0x30 && siTlv.isConstructed {
        var _ :- SortFieldsInPlace(data, siPos + siTlv.headerLen, siEnd);
      }
      siPos := siEnd;
    }
    return Ok(());
  }

  /** One field of SignedData: an implicit set, or a SET whose members are walked and which is sorted again. */
  method SortSdFieldInPlace(data: array<byte>, pos: nat, tlv: DerTlv) returns (r: Result<(), BerError>)
    requires pos + tlv.headerLen <= data.Length
    modifies data
    ensures r.Ok? <==> WalkField(old(data[..]), pos, tlv).Some?
    ensures r.Ok? ==> Some(data[..]) == WalkField(old(data[..]), pos, tlv)
    ensures multiset(data[..]) == multiset(old(data[..]))
  {
    hide WalkSignerInfos, SortRegion;
    if (tlv.tagByte == 0xA0 || tlv.tagByte == 0xA1) && tlv.isConstructed {
      var _ :- SortChildrenInPlace(data, pos, tlv.headerLen, tlv.contentLen);
    } else if tlv.tagByte == 0x31 && tlv.isConstructed {
      var _ :- SortSignerInfosInPlace(data, pos + tlv.headerLen, tlv.contentLen);
      var _ :- SortChildrenInPlace(data, pos, tlv.headerLen, tlv.contentLen);
    }
    return Ok(());
  }

  method SortSignedDataInPlace(data: array<byte>, start: nat, end: nat) returns (r: Result<(), BerError>)
    requires start <= data.Length
    modifies data
    ensures r.Ok? <==> WalkSignedData(old(data[..]), start, end).Some?
    ensures r.Ok? ==> Some(data[..]) == WalkSignedData(old(data[..]), start, end)
    ensures multiset(data[..]) == multiset(old(data[..]))
  {
    hide TlvAt, WalkField;
    var pos := start;
    while pos < end
      invariant pos <= data.Length
      invariant multiset(data[..]) == multiset(old(data[..]))
      invariant WalkSignedData(data[..], pos, end) == WalkSignedData(old(data[..]), start, end)
      decreases data.Length - pos
    {
      var tlv :- ParseDerTlv(data[..], pos);
      var _ :- SortSdFieldInPlace(data, pos, tlv);
      pos := pos + tlv.headerLen + tlv.contentLen;
    }
    return Ok(());
  }

  /** `sort_cms_implicit_sets` */
  method SortCmsImplicitSets(data: array<byte>) returns (r: Result<(), BerError>)
    modifies data
    ensures r.Ok? <==> SortCmsOctets(old(data[..])).Some?
    ensures r.Ok? ==> Some(data[..]) == SortCmsOctets(old(data[..]))
    ensures multiset(data[..]) == multiset(old(data[..]))
  {
    hide TlvAt, WalkSignedData;
    assert data[..][0..] == data[..];
    var ci :- ParseDerTlv(data[..], 0);
    if ci.tagByte != 0x30 || !ci.isConstructed {
      return Err(NotASequence);
    }
    var oid :- ParseDerTlv(data[..], ci.headerLen);
    var afterOid := ci.headerLen + oid.headerLen + oid.contentLen;
    if oid.tagByte != 0x06 || data[ci.headerLen + oid.headerLen..afterOid] != ID_SIGNED_DATA {
      return Ok(());
    }
    var explicit0 :- ParseDerTlv(data[..], afterOid);
    if explicit0.tagByte != 0xA0 {
      return Err(ExpectedExplicit);
    }
    var explicit0Start := afterOid + explicit0.headerLen;
    var sd :- ParseDerTlv(data[..], explicit0Start);
    if sd.tagByte != 0x30 || !sd.isConstructed {
      return Err(ExpectedSignedData);
    }
    var sdStart := explicit0Start + sd.headerLen;
    r := SortSignedDataInPlace(data, sdStart, sdStart + sd.contentLen);
  }

  /** `ber_to_der_cms` */
  method BerToDerCms(input: Bytes) returns (r: Result<Bytes, BerError>)
    requires |input| <= USIZE_MAX
    ensures Normalizer.BerToDer(input).Some? && |Normalizer.BerToDer(input).value| <= USIZE_MAX ==>
      (r.Ok? <==> CmsTree.BerToDerCms(input).Some?) && (r.Ok? ==> CmsTree.BerToDerCms(input) == Some(r.value))
    ensures Normalizer.BerToDer(input).None? ==> r.Err?
  {
    var der :- BerToDer.BerToDer(input);
    var data := new byte[|der|](i requires 0 <= i < |der| => der[i]);
    assert data[..] == der;
    if |der| <= USIZE_MAX {
      Normalizer.DerReadsBack(input);
      SortCmsOctetsOfTree(Canon(Normalizer.Element(input)).value);
    }
    var _ :- SortCmsImplicitSets(data);
    return Ok(data[..]);
  }
}
