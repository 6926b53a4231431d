// The imperative code of `ber_to_der` (src/utils.rs:12-247), proved against the functions of Normalizer.
module BerToDer {
  import opened Arrangements
  import opened Octets
  import opened LengthCodec
  import opened BerSyntax
  import opened BerCanon
  import opened BerMeaning
  import opened Normalizer

  datatype BerError =
    | NestingTooDeep
    | UnexpectedEnd
    | TruncatedTag
    | NoLengthOctet
    | IndefiniteOnPrimitive
    | Unterminated
    | BadLength(cause: LengthError)
    | ContentLengthOverflow
    | ContentExceedsInput
    | SegmentTypeMismatch
    | MissingUnusedBitsOctet
    | InvalidUnusedBitsOctet
    | TrailingBytes
    | ContentOutOfBounds
    | ChildrenMisfit
    | NotASequence
    | ExpectedExplicit
    | ExpectedSignedData

  // ---------- Headers ----------

  /** Octets at or above 0x80 belong to the tag and are stepped over. */
  lemma {:induction false} SkipHighOctets(s: Bytes, n: nat)
    requires n <= |s| && forall i :: 0 <= i < n ==> s[i] >= 0x80
    ensures n == |s| ==> SkipTag(s) == None
    ensures n < |s| && s[n] < 0x80 ==> SkipTag(s) == Some(n + 1)
  {
    if n > 0 {
      SkipHighOctets(s[1..], n - 1);
    }
  }

  /** Position behind the identifier octets at `offset`. */
  method SkipTagOctets(data: Bytes, offset: nat) returns (r: Result<nat, BerError>)
    requires offset < |data|
    ensures r.Ok? <==> TagLength(data[offset..]).Some?
    ensures r.Ok? ==> offset < r.value <= |data| && TagLength(data[offset..]) == Some(r.value - offset)
    ensures r.Err? ==> r.error == TruncatedTag
  {
    hide SkipTag;
    var pos := offset + 1;
    if MultiByteTag(data[offset]) {
      while pos < |data| && data[pos] >= 0x80
        invariant offset + 1 <= pos <= |data|
        invariant forall i :: offset + 1 <= i < pos ==> data[i] >= 0x80
      {
        pos := pos + 1;
      }
      SkipHighOctets(data[offset + 1..], pos - offset - 1);
      assert data[offset..][1..] == data[offset + 1..];
      if pos >= |data| {
        return Err(TruncatedTag);
      }
      pos := pos + 1;
    }
    return Ok(pos);
  }

  datatype DerTlv = DerTlv(headerLen: nat, contentLen: nat, isConstructed: bool, tagByte: byte)

  /** The definite-length header at the head of s. */
  function TlvAt(s: Bytes): (r: Option<DerTlv>)
    ensures r.Some? ==> 2 <= r.value.headerLen && r.value.headerLen + r.value.contentLen <= |s|
  {
    match TagLength(s)
    case None => None
    case Some(t) =>
      match ReadLength(s[t..])
      case None => None
      case Some((n, k)) =>
        if n > |s| - t - k then None else Some(DerTlv(t + k, n, Constructed(s[0]), s[0]))
  }

  /** Which error the header at the head of s gives. */
  function TlvFault(s: Bytes): Option<BerError> {
    if s == [] then Some(UnexpectedEnd)
    else match TagLength(s)
      case None => Some(TruncatedTag)
      case Some(t) =>
        if t == |s| then Some(NoLengthOctet)
        else match LengthFault(s[t..])
          case Some(cause) => Some(BadLength(cause))
          case None => if TlvAt(s).None? then Some(ContentExceedsInput) else None
  }

  lemma TlvFaultExactly(s: Bytes)
    ensures TlvFault(s).Some? <==> TlvAt(s).None?
  {
    hide LengthCodec.Value, IsLength;
    if s != [] && TagLength(s).Some? && TagLength(s).value < |s| {
      LengthFaultExactly(s[TagLength(s).value..]);
    }
  }

  lemma LengthFaultExactly(s: Bytes)
    requires s != []
    ensures LengthFault(s).Some? <==> ReadLength(s).None?
  {
  }

  lemma TlvAtElement(tag: Bytes, len: Bytes, content: Bytes, rest: Bytes)
    requires IsTag(tag) && IsLength(len, |content|)
    ensures TlvAt(tag + len + content + rest) == Some(DerTlv(|tag| + |len|, |content|, Constructed(tag[0]), tag[0]))
  {
    var body := len + content + rest;
    assert tag + len + content + rest == tag + body;
    TagLengthComplete(tag, body);
    assert (tag + body)[|tag|..] == body && body[..|len|] == len;
    ReadLengthExact(body, |content|, |len|);
  }

  /** `parse_der_tlv`: content is bounded by the whole buffer, and the indefinite form is an error. */
  method ParseDerTlv(data: Bytes, offset: nat) returns (r: Result<DerTlv, BerError>)
    requires offset <= |data|
    ensures r.Ok? <==> TlvAt(data[offset..]).Some?
    ensures r.Ok? ==> TlvAt(data[offset..]) == Some(r.value)
    ensures r.Err? ==> TlvFault(data[offset..]) == Some(r.error)
  {
    hide LengthCodec.Value, TagLength, IsLength, LengthFault;
    if offset >= |data| {
      return Err(UnexpectedEnd);
    }
    var tagByte := data[offset];
    var pos :- SkipTagOctets(data, offset);
    assert data[offset..][pos - offset..] == data[pos..];
    if pos >= |data| {
      return Err(NoLengthOctet);
    }
    assert data[pos..] == [data[pos]] + data[pos + 1..];
    var length := DecodeBerDefiniteLength(data[pos], data[pos + 1..]);
    if length.Err? {
      return Err(BadLength(length.error));
    }
    var (contentLen, consumed) := length.value;
    pos := pos + 1 + consumed;
    if contentLen > |data| - pos {
      return Err(ContentExceedsInput);
    }
    return Ok(DerTlv(pos - offset, contentLen, Constructed(tagByte), tagByte));
  }

  /** The content octets of the element at the head of s. */
  function BlobContent(s: Bytes): Bytes {
    match TlvAt(s)
    case None => []
    case Some(t) => s[t.headerLen..t.headerLen + t.contentLen]
  }

  function BlobContents(blobs: seq<Bytes>): (r: seq<Bytes>)
    ensures |r| == |blobs| && forall i :: 0 <= i < |r| ==> r[i] == BlobContent(blobs[i])
  {
    if blobs == [] then [] else [BlobContent(blobs[0])] + BlobContents(blobs[1..])
  }

  predicate AllParse(blobs: seq<Bytes>) {
    forall i :: 0 <= i < |blobs| ==> TlvAt(blobs[i]).Some?
  }

  /** `der_content`. */
  method DerContent(tlv: Bytes) returns (r: Result<Bytes, BerError>)
    ensures r.Ok? <==> TlvAt(tlv).Some?
    ensures r.Ok? ==> r.value == BlobContent(tlv)
    ensures r.Err? ==> TlvFault(tlv) == Some(r.error)
  {
    hide TlvFault;
    assert tlv[0..] == tlv;
    var t :- ParseDerTlv(tlv, 0);
    return Ok(tlv[t.headerLen..t.headerLen + t.contentLen]);
  }

  // ---------- flatten_constructed_string (src/utils.rs:27-62) ----------

  predicate AllTagged(blobs: seq<Bytes>, tagByte: byte) {
    forall i :: 0 <= i < |blobs| ==> blobs[i] != [] && blobs[i][0] == tagByte
  }

  /** What the code makes of arbitrary child blobs. */
  function FlattenBlobs(tagByte: byte, blobs: seq<Bytes>): Option<Bytes>
    requires IsConstructedString([tagByte])
  {
    var primitiveTag := tagByte - 0x20;
    if !AllTagged(blobs, primitiveTag) || !AllParse(blobs) then None
    else if primitiveTag == 0x03 then
      if SegmentsOk(BlobContents(blobs)) then Some(Unparse(PrimitiveOf([0x03], JoinBits(BlobContents(blobs))))) else None
    else Some(Unparse(PrimitiveOf([0x04], Concat(BlobContents(blobs)))))
  }

  /** Which error one segment gives. */
  function SegmentFault(blob: Bytes, bits: bool, isLast: bool): Option<BerError> {
    match TlvFault(blob)
    case Some(e) => Some(e)
    case None =>
      if !bits || SegmentOk(BlobContent(blob), isLast) then None
      else if BlobContent(blob) == [] then Some(MissingUnusedBitsOctet)
      else Some(InvalidUnusedBitsOctet)
  }

  /** The first segment that gives an error decides. */
  function SegmentsFault(blobs: seq<Bytes>, bits: bool): Option<BerError> {
    if blobs == [] then None
    else match SegmentFault(blobs[0], bits, |blobs| == 1)
      case Some(e) => Some(e)
      case None => SegmentsFault(blobs[1..], bits)
  }

  function FlattenFault(tagByte: byte, blobs: seq<Bytes>): Option<BerError>
    requires IsConstructedString([tagByte])
  {
    if !AllTagged(blobs, tagByte - 0x20) then Some(SegmentTypeMismatch) else SegmentsFault(blobs, tagByte == 0x23)
  }

  lemma {:induction false} SegmentsFaultStep(blobs: seq<Bytes>, bits: bool, i: nat)
    requires i < |blobs|
    ensures SegmentsFault(blobs[i..], bits) ==
      match SegmentFault(blobs[i], bits, i == |blobs| - 1)
      case Some(e) => Some(e)
      case None => SegmentsFault(blobs[i + 1..], bits)
  {
    hide SegmentFault;
    assert blobs[i..][0] == blobs[i] && blobs[i..][1..] == blobs[i + 1..];
  }

  lemma {:induction false} SegmentsFaultExactly(blobs: seq<Bytes>, bits: bool, i: nat)
    requires i <= |blobs|
    ensures SegmentsFault(blobs[i..], bits).None? <==>
      forall j :: i <= j < |blobs| ==> TlvAt(blobs[j]).Some? && (bits ==> SegmentOk(BlobContent(blobs[j]), j == |blobs| - 1))
    decreases |blobs| - i
  {
    hide TlvAt, TlvFault, SegmentOk, BlobContent;
    if i < |blobs| {
      SegmentsFaultStep(blobs, bits, i);
      SegmentsFaultExactly(blobs, bits, i + 1);
      TlvFaultExactly(blobs[i]);
    }
  }

  /** Flattening gives an error exactly when it has no result. */
  lemma FlattenFaultExactly(tagByte: byte, blobs: seq<Bytes>)
    requires IsConstructedString([tagByte])
    ensures FlattenFault(tagByte, blobs).Some? <==> FlattenBlobs(tagByte, blobs).None?
  {
    hide TlvAt, TlvFault, SegmentOk, BlobContent, AllTagged;
    assert blobs[0..] == blobs;
    SegmentsFaultExactly(blobs, tagByte == 0x23, 0);
    var parts := BlobContents(blobs);
    assert |parts| == |blobs|;
  }

  lemma JoinSnoc(segs: seq<Bytes>, i: nat)
    requires i < |segs|
    ensures JoinData(segs[..i + 1]) == JoinData(segs[..i]) + DataOctets(segs[i])
    ensures LastUnused(segs[..i + 1]) == Unused(segs[i])
    ensures Concat(segs[..i + 1]) == Concat(segs[..i]) + segs[i]
  {
    assert segs[..i + 1] == segs[..i] + [segs[i]];
    JoinDataAppend(segs[..i], [segs[i]]);
    assert JoinData([segs[i]]) == DataOctets(segs[i]);
    ConcatSnoc(segs[..i], segs[i]);
  }

  /** One turn of the BIT STRING loop: the segment's unused-bits octet and its data. */
  method BitSegment(blob: Bytes, isLast: bool) returns (r: Result<(byte, Bytes), BerError>)
    ensures r.Ok? <==> TlvAt(blob).Some? && SegmentOk(BlobContent(blob), isLast)
    ensures r.Ok? ==> r.value == (Unused(BlobContent(blob)), DataOctets(BlobContent(blob)))
    ensures SegmentFault(blob, true, isLast) == match r case Ok(_) => None case Err(e) => Some(e)
  {
    TlvFaultExactly(blob);
    hide TlvFault, TlvAt;
    var seg :- DerContent(blob);
    if |seg| == 0 {
      return Err(MissingUnusedBitsOctet);
    }
    if seg[0] > 7 || (seg[0] != 0 && (|seg| == 1 || !isLast)) {
      return Err(InvalidUnusedBitsOctet);
    }
    return Ok((seg[0], seg[1..]));
  }

  lemma JoinNothing(parts: seq<Bytes>)
    ensures JoinData(parts[..0]) == Concat(parts[..0]) == [] && LastUnused(parts[..0]) == 0
    ensures parts[..|parts|] == parts
  {
  }

  /** The BIT STRING branch. */
  method JoinBitSegments(blobs: seq<Bytes>) returns (r: Result<Bytes, BerError>)
    ensures r.Ok? <==> AllParse(blobs) && SegmentsOk(BlobContents(blobs))
    ensures r.Ok? ==> r.value == JoinBits(BlobContents(blobs))
    ensures r.Err? ==> SegmentsFault(blobs, true) == Some(r.error)
  {
    hide TlvAt, BlobContent, BlobContents, JoinData, LastUnused, SegmentOk, Unused, DataOctets, Concat,
         SegmentFault, SegmentsFault;
    ghost var parts := BlobContents(blobs);
    var unusedBits, data := 0 as byte, [];
    JoinNothing(parts);
    assert blobs[0..] == blobs;
    for i := 0 to |blobs|
      invariant SegmentsFault(blobs, true) == SegmentsFault(blobs[i..], true)
      invariant unusedBits == LastUnused(parts[..i]) && data == JoinData(parts[..i])
      invariant forall j :: 0 <= j < i ==> TlvAt(blobs[j]).Some? && SegmentOk(parts[j], j == |parts| - 1)
    {
      SegmentsFaultStep(blobs, true, i);
      var seg :- BitSegment(blobs[i], i + 1 == |blobs|);
      JoinSnoc(parts, i);
      unusedBits := seg.0;
      data := data + seg.1;
    }
    return Ok([unusedBits] + data);
  }

  /** The OCTET STRING branch. */
  method JoinOctetSegments(blobs: seq<Bytes>) returns (r: Result<Bytes, BerError>)
    ensures r.Ok? <==> AllParse(blobs)
    ensures r.Ok? ==> r.value == Concat(BlobContents(blobs))
    ensures r.Err? ==> SegmentsFault(blobs, false) == Some(r.error)
  {
    hide TlvAt, TlvFault, BlobContent, BlobContents, Concat, JoinData, LastUnused, SegmentOk, SegmentsFault;
    ghost var parts := BlobContents(blobs);
    var content := [];
    JoinNothing(parts);
    assert blobs[0..] == blobs;
    for i := 0 to |blobs|
      invariant SegmentsFault(blobs, false) == SegmentsFault(blobs[i..], false)
      invariant content == Concat(parts[..i])
      invariant forall j :: 0 <= j < i ==> TlvAt(blobs[j]).Some?
    {
      SegmentsFaultStep(blobs, false, i);
      TlvFaultExactly(blobs[i]);
      var seg :- DerContent(blobs[i]);
      JoinSnoc(parts, i);
      content := content + seg;
    }
    return Ok(content);
  }

  /** The first loop: every segment carries the primitive form of the string's tag. */
  method CheckSegmentTags(primitiveTag: byte, blobs: seq<Bytes>) returns (r: Result<(), BerError>)
    ensures r == if AllTagged(blobs, primitiveTag) then Ok(()) else Err(SegmentTypeMismatch)
  {
    for i := 0 to |blobs|
      invariant forall j :: 0 <= j < i ==> blobs[j] != [] && blobs[j][0] == primitiveTag
    {
      if blobs[i] == [] || blobs[i][0] != primitiveTag {
        return Err(SegmentTypeMismatch);
      }
    }
    return Ok(());
  }

  method FlattenConstructedString(tagByte: byte, blobs: seq<Bytes>) returns (r: Result<Bytes, BerError>)
    requires IsConstructedString([tagByte])
    ensures r.Ok? <==> FlattenBlobs(tagByte, blobs).Some?
    ensures r.Ok? ==> FlattenBlobs(tagByte, blobs) == Some(r.value)
    ensures r.Err? ==> FlattenFault(tagByte, blobs) == Some(r.error)
  {
    hide TlvAt, AllTagged, AllParse, SegmentsFault;
    var primitiveTag := tagByte - 0x20;
    var _ :- CheckSegmentTags(primitiveTag, blobs);
    var content;
    if primitiveTag == 0x03 {
      content :- JoinBitSegments(blobs);
    } else {
      content :- JoinOctetSegments(blobs);
    }
    var out := EncodeDerLength([primitiveTag], |content|);
    return Ok(out + content);
  }

  /** What the recursion guarantees of a normalised child of an input that fits in memory. */
  predicate ProperChild(c: Ber) {
    && IsTag(c.tag)
    && (c.tag == [0x03] || c.tag == [0x04] ==> c == PrimitiveOf(c.tag, ContentOf(c)) && |ContentOf(c)| <= USIZE_MAX)
  }

  lemma {:induction false} CanonTag(b: Ber)
    requires Wf(b) && !IsConstructedString(b.tag) && Canon(b).Some? && |Unparse(b)| <= USIZE_MAX
    ensures var c := Canon(b).value;
      c.tag == b.tag && (b.Primitive? ==> c == PrimitiveOf(b.tag, b.content) && |b.content| <= USIZE_MAX)
    ensures IsTag(b.tag) && (b.tag == [0x03] || b.tag == [0x04] ==> b.Primitive?)
  {
  }

  lemma {:induction false} CanonIsProper(b: Ber)
    requires Wf(b) && Canon(b).Some? && |Unparse(b)| <= USIZE_MAX
    ensures ProperChild(Canon(b).value)
  {
    if IsConstructedString(b.tag) {
      FlattenLeaves(b);
      StringContentSize(b);
    } else {
      CanonTag(b);
    }
  }

  lemma {:induction false} SegmentContent(c: Ber)
    requires ProperChild(c) && (c.tag == [0x03] || c.tag == [0x04])
    ensures TlvAt(Unparse(c)).Some? && BlobContent(Unparse(c)) == ContentOf(c)
  {
    EncodeLengthShortest(|c.content|);
    TlvAtElement(c.tag, c.len, c.content, []);
    assert c.tag + c.len + c.content + [] == Unparse(c);
  }

  lemma {:induction false} ChildTagged(c: Ber, tagByte: byte)
    requires ProperChild(c) && (tagByte == 0x03 || tagByte == 0x04)
    ensures Unparse(c) != [] && (Unparse(c)[0] == tagByte <==> c.tag == [tagByte])
  {
  }

  lemma {:induction false} ChildTags(tagByte: byte, segs: seq<Ber>)
    requires (tagByte == 0x03 || tagByte == 0x04) && forall c :: c in segs ==> ProperChild(c)
    ensures AllTagged(Encodings(segs), tagByte) <==> forall c :: c in segs ==> c.tag == [tagByte]
  {
    hide Unparse;
    var blobs := Encodings(segs);
    forall i | 0 <= i < |segs|
      ensures blobs[i] != [] && (blobs[i][0] == tagByte <==> segs[i].tag == [tagByte])
    {
      assert segs[i] in segs;
      ChildTagged(segs[i], tagByte);
    }
    if AllTagged(blobs, tagByte) {
      forall c | c in segs ensures c.tag == [tagByte] {
        var i :| 0 <= i < |segs| && segs[i] == c;
      }
    }
  }

  lemma {:induction false} ChildContents(tagByte: byte, segs: seq<Ber>)
    requires tagByte == 0x03 || tagByte == 0x04
    requires forall c :: c in segs ==> ProperChild(c) && c.tag == [tagByte]
    ensures AllParse(Encodings(segs)) && BlobContents(Encodings(segs)) == Contents(segs)
  {
    hide Unparse, TlvAt, BlobContent;
    var blobs := Encodings(segs);
    forall i | 0 <= i < |segs| ensures TlvAt(blobs[i]).Some? && BlobContent(blobs[i]) == Contents(segs)[i] {
      assert segs[i] in segs;
      SegmentContent(segs[i]);
    }
  }

  /** On encodings of normalised children the blob code is FlattenString. */
  lemma {:induction false} FlattenBlobsIsFlattenString(tagByte: byte, segs: seq<Ber>)
    requires IsConstructedString([tagByte]) && forall c :: c in segs ==> ProperChild(c)
    ensures FlattenBlobs(tagByte, Encodings(segs)) ==
      (match FlattenString([tagByte], segs) case None => None case Some(c) => Some(Unparse(c)))
  {
    hide Unparse, TlvAt, BlobContent, AllTagged, AllParse;
    var p := tagByte - 0x20;
    assert PrimitiveTag([tagByte]) == [p];
    ChildTags(p, segs);
    if AllTagged(Encodings(segs), p) {
      ChildContents(p, segs);
    }
  }

  // ---------- ber_tlv_to_der (src/utils.rs:67-181) ----------

  /** A constructed element re-emitted from its children's blobs. */
  function Reemit(tag: Bytes, blobs: seq<Bytes>): Option<Bytes> {
    if IsConstructedString(tag) then FlattenBlobs(tag[0], blobs)
    else
      var content := Concat(if tag == SET then Sort(blobs) else blobs);
      Some(tag + EncodeLength(|content|) + content)
  }

  function ReemitFault(tag: Bytes, blobs: seq<Bytes>): Option<BerError> {
    if IsConstructedString(tag) then FlattenFault(tag[0], blobs) else None
  }

  lemma ReemitFaultExactly(tag: Bytes, blobs: seq<Bytes>)
    ensures ReemitFault(tag, blobs).Some? <==> Reemit(tag, blobs).None?
  {
    hide FlattenFault, FlattenBlobs;
    if IsConstructedString(tag) {
      FlattenFaultExactly(tag[0], blobs);
    }
  }

  method ReemitElement(tag: Bytes, blobs: seq<Bytes>) returns (r: Result<Bytes, BerError>)
    requires IsTag(tag) && Constructed(tag[0])
    ensures r.Ok? <==> Reemit(tag, blobs).Some?
    ensures r.Ok? ==> Reemit(tag, blobs) == Some(r.value)
    ensures r.Err? ==> ReemitFault(tag, blobs) == Some(r.error)
  {
    hide FlattenFault, FlattenBlobs;
    var tagByte := tag[0];
    var isSet := tagByte == 0x31;
    var baseTag := tagByte - 0x20;
    if baseTag == 0x03 || baseTag == 0x04 {
      assert tag == [tagByte];
      r := FlattenConstructedString(tagByte, blobs);
      return;
    }
    assert isSet <==> tag == SET;
    var children := if isSet then Sort(blobs) else blobs;
    var childrenDer := Concat(children);
    var out := EncodeDerLength(tag, |childrenDer|);
    return Ok(out + childrenDer);
  }

  predicate AllProper(cs: seq<Ber>) {
    forall c :: c in cs ==> ProperChild(c)
  }

  /** Re-emitting the children's encodings is encoding the assembled element. */
  lemma {:induction false} ReemitIsAssemble(tag: Bytes, cs: seq<Ber>)
    requires AllProper(cs)
    ensures Reemit(tag, Encodings(cs)) ==
      (match Assemble(tag, cs) case None => None case Some(c) => Some(Unparse(c)))
  {
    if IsConstructedString(tag) {
      FlattenBlobsIsFlattenString(tag[0], cs);
    } else {
      var kids := if tag == SET then SortKids(cs) else cs;
      SortKidsEncodings(cs);
      UnparseAllConcat(kids);
    }
  }

  /** The children of an element as the loops collect them: parsed, normalised, and what follows them. */
  function Children(s: Bytes, depth: nat, indefinite: bool): Option<(seq<Ber>, Bytes)> {
    var read :=
      if indefinite then ReadUntilEoc(s, depth)
      else match ReadAll(s, depth) case None => None case Some(bs) => Some((bs, []));
    match read
    case None => None
    case Some((bs, rest)) =>
      match CanonAll(bs)
      case None => None
      case Some(cs) => Some((cs, rest))
  }

  /** One more child in front of those still to come. */
  function Prepend(c: Ber, r: Option<(seq<Ber>, Bytes)>): Option<(seq<Ber>, Bytes)> {
    match r
    case None => None
    case Some((cs, rest)) => Some(([c] + cs, rest))
  }

  lemma {:induction false} ChildrenStep(s: Bytes, depth: nat, indefinite: bool)
    requires if indefinite then !(EOC <= s) else s != []
    ensures Children(s, depth, indefinite) ==
      match Read(s, depth)
      case None => None
      case Some((b, rest)) =>
        match Canon(b)
        case None => None
        case Some(c) => Prepend(c, Children(rest, depth, indefinite))
  {
    match Read(s, depth)
    case None =>
    case Some((b, rest)) =>
      forall bs: seq<Ber> ensures ([b] + bs)[0] == b && ([b] + bs)[1..] == bs {
      }
  }

  /** Children already collected, in front of those still to come. */
  function PrependAll(done: seq<Ber>, r: Option<(seq<Ber>, Bytes)>): Option<(seq<Ber>, Bytes)> {
    match r
    case None => None
    case Some((cs, rest)) => Some((done + cs, rest))
  }

  lemma {:induction false} PrependAllSnoc(done: seq<Ber>, c: Ber, r: Option<(seq<Ber>, Bytes)>)
    ensures PrependAll(done, Prepend(c, r)) == PrependAll(done + [c], r)
    ensures Encodings(done + [c]) == Encodings(done) + [Unparse(c)]
    ensures PrependAll([], r) == r
  {
    if r.Some? {
      assert done + ([c] + r.value.0) == done + [c] + r.value.0;
      assert [] + r.value.0 == r.value.0;
    }
  }

  lemma {:induction false} CanonAllProper(bs: seq<Ber>)
    requires WfAll(bs) && CanonAll(bs).Some? && |UnparseAll(bs)| <= USIZE_MAX
    ensures AllProper(CanonAll(bs).value)
  {
    if bs != [] {
      CanonIsProper(bs[0]);
      CanonAllProper(bs[1..]);
      HeadOrTail(CanonAll(bs).value);
      assert CanonAll(bs).value[1..] == CanonAll(bs[1..]).value;
    }
  }

  lemma ChildrenProper(s: Bytes, depth: nat, indefinite: bool)
    requires |s| <= USIZE_MAX && Children(s, depth, indefinite).Some?
    ensures AllProper(Children(s, depth, indefinite).value.0)
    ensures |Children(s, depth, indefinite).value.1| <= |s|
  {
    if indefinite {
      ReadUntilEocSound(s, depth);
      CanonAllProper(ReadUntilEoc(s, depth).value.0);
    } else {
      ReadAllSound(s, depth);
      CanonAllProper(ReadAll(s, depth).value);
    }
  }

  /** The octets re-emitted for a constructed element with these children. */
  function Built(tag: Bytes, children: Option<(seq<Ber>, Bytes)>): Option<(Bytes, Bytes)> {
    match children
    case None => None
    case Some((cs, rest)) =>
      match Assemble(tag, cs)
      case None => None
      case Some(c) => Some((Unparse(c), rest))
  }

  /** An element is its header and its children, re-emitted. */
  lemma NormalizeIndefinite(s: Bytes, depth: nat, tag: Bytes, body: Bytes)
    requires depth <= MAX_BER_DEPTH && ReadHeader(s) == Some(IndefiniteHeader(tag, body)) && Constructed(tag[0])
    ensures Normalize(s, depth) == Built(tag, Children(body, depth + 1, true))
  {
  }

  lemma NormalizeDefinite(s: Bytes, depth: nat, tag: Bytes, len: Bytes, content: Bytes, rest: Bytes)
    requires depth <= MAX_BER_DEPTH && ReadHeader(s) == Some(DefiniteHeader(tag, len, content, rest))
    ensures Constructed(tag[0]) ==>
      Normalize(s, depth) == (match Built(tag, Children(content, depth + 1, false))
                              case None => None
                              case Some((der, _)) => Some((der, rest)))
    ensures !Constructed(tag[0]) ==> Normalize(s, depth) == Some((tag + EncodeLength(|content|) + content, rest))
  {
  }

  // ---------- Which error is reported ----------

  /** What is wrong with definite length octets at t, or with the range they claim. */
  function DefiniteFault(s: Bytes, t: nat): Option<BerError>
    requires t < |s|
  {
    match LengthFault(s[t..])
    case Some(cause) => Some(BadLength(cause))
    case None =>
      match ReadLength(s[t..])
      case None => None
      case Some((n, k)) =>
        if n > USIZE_MAX - (t + k) then Some(ContentLengthOverflow)
        else if t + k + n > |s| then Some(ContentExceedsInput)
        else None
  }

  /** The error of the element at the head of s: of its own header, else of its first bad child, else of its own string. */
  function ElementFault(s: Bytes, depth: nat): Option<BerError>
    decreases |s|, 1
  {
    if depth > MAX_BER_DEPTH then Some(NestingTooDeep)
    else if s == [] then Some(UnexpectedEnd)
    else match TagLength(s)
      case None => Some(TruncatedTag)
      case Some(t) =>
        if t == |s| then Some(NoLengthOctet)
        else if s[t] == INDEFINITE then
          if Constructed(s[0]) then ContentFault(s[..t], s[t + 1..], depth + 1, true) else Some(IndefiniteOnPrimitive)
        else if DefiniteFault(s, t).Some? then DefiniteFault(s, t)
        else match ReadHeader(s)
          case Some(DefiniteHeader(tag, _, content, _)) =>
            if Constructed(s[0]) then ContentFault(tag, content, depth + 1, false) else None
          case _ => None
  }

  function ContentFault(tag: Bytes, body: Bytes, depth: nat, indefinite: bool): Option<BerError>
    decreases |body|, 3
  {
    match Children(body, depth, indefinite)
    case None => ChildrenFault(body, depth, indefinite)
    case Some((cs, _)) => ReemitFault(tag, Encodings(cs))
  }

  /** The first child that gives an error decides; in the indefinite form the end marker may be missing. */
  function ChildrenFault(s: Bytes, depth: nat, indefinite: bool): Option<BerError>
    decreases |s|, 2
  {
    if indefinite && EOC <= s then None
    else if s == [] then (if indefinite then Some(Unterminated) else None)
    else match Normalize(s, depth)
      case None => ElementFault(s, depth)
      case Some((_, rest)) => if |rest| < |s| then ChildrenFault(rest, depth, indefinite) else None
  }

  lemma {:induction false} ChildrenFaultStep(s: Bytes, depth: nat, indefinite: bool)
    requires s != [] && (indefinite ==> !(EOC <= s))
    ensures Normalize(s, depth).None? ==> ChildrenFault(s, depth, indefinite) == ElementFault(s, depth)
    ensures Normalize(s, depth).Some? ==>
      |Normalize(s, depth).value.1| < |s|
      && ChildrenFault(s, depth, indefinite) == ChildrenFault(Normalize(s, depth).value.1, depth, indefinite)
  {
    hide Canon, ElementFault;
  }

  /** An element gives an error exactly when it is not normalised. */
  lemma {:induction false} ElementFaultExactly(s: Bytes, depth: nat)
    requires |s| <= USIZE_MAX
    ensures ElementFault(s, depth).Some? <==> Normalize(s, depth).None?
    decreases |s|, 1
  {
    hide Children, Built, Canon, ContentFault, DefiniteFault;
    if depth <= MAX_BER_DEPTH && s != [] && TagLength(s).Some? && TagLength(s).value < |s| {
      var t := TagLength(s).value;
      if s[t] == INDEFINITE {
        IndefiniteHeaderAt(s, t);
        if Constructed(s[0]) {
          NormalizeIndefinite(s, depth, s[..t], s[t + 1..]);
          ContentFaultExactly(s[..t], s[t + 1..], depth + 1, true);
        }
      } else {
        DefiniteFaultExactly(s, t);
        if DefiniteFault(s, t).None? {
          var h := ReadHeader(s).value;
          NormalizeDefinite(s, depth, h.tag, h.len, h.content, h.rest);
          if Constructed(s[0]) {
            ContentFaultExactly(h.tag, h.content, depth + 1, false);
          }
        }
      }
    }
  }

  lemma IndefiniteHeaderAt(s: Bytes, t: nat)
    requires TagLength(s) == Some(t) && t < |s| && s[t] == INDEFINITE
    ensures ReadHeader(s) == Some(IndefiniteHeader(s[..t], s[t + 1..])) && s[..t][0] == s[0]
  {
    assert s[t..][1..] == s[t + 1..];
  }

  lemma DefiniteFaultExactly(s: Bytes, t: nat)
    requires TagLength(s) == Some(t) && t < |s| <= USIZE_MAX && s[t] != INDEFINITE
    ensures DefiniteFault(s, t).None? <==> ReadHeader(s).Some?
    ensures ReadHeader(s).Some? ==> ReadHeader(s).value.DefiniteHeader? && ReadHeader(s).value.tag == s[..t]
  {
    hide LengthCodec.Value, IsLength, LengthFault;
    LengthFaultExactly(s[t..]);
  }

  lemma {:induction false} ContentFaultExactly(tag: Bytes, body: Bytes, depth: nat, indefinite: bool)
    requires |body| <= USIZE_MAX
    ensures ContentFault(tag, body, depth, indefinite).Some? <==> Built(tag, Children(body, depth, indefinite)).None?
    decreases |body|, 3
  {
    hide Children, Assemble, Reemit, ReemitFault, ChildrenFault;
    ChildrenFaultExactly(body, depth, indefinite);
    if Children(body, depth, indefinite).Some? {
      var cs := Children(body, depth, indefinite).value.0;
      ChildrenProper(body, depth, indefinite);
      ReemitIsAssemble(tag, cs);
      ReemitFaultExactly(tag, Encodings(cs));
    }
  }

  lemma {:induction false} ChildrenFaultExactly(s: Bytes, depth: nat, indefinite: bool)
    requires |s| <= USIZE_MAX
    ensures ChildrenFault(s, depth, indefinite).Some? <==> Children(s, depth, indefinite).None?
    decreases |s|, 2
  {
    if s != [] && (indefinite ==> !(EOC <= s)) {
      hide *;
      ChildrenStep(s, depth, indefinite);
      ChildrenFaultStep(s, depth, indefinite);
      NormalizeParts(s, depth);
      if Normalize(s, depth).None? {
        ElementFaultExactly(s, depth);
      } else {
        var rest := Normalize(s, depth).value.1;
        ChildrenFaultExactly(rest, depth, indefinite);
        PrependNone(Canon(Read(s, depth).value.0).value, Children(rest, depth, indefinite));
      }
    } else {
      ChildrenEnd(s, depth, indefinite);
    }
  }

  lemma {:induction false} NormalizeParts(s: Bytes, depth: nat)
    ensures Normalize(s, depth).None? <==> Read(s, depth).None? || Canon(Read(s, depth).value.0).None?
    ensures Normalize(s, depth).Some? ==> Normalize(s, depth).value.1 == Read(s, depth).value.1
  {
  }

  lemma PrependNone(c: Ber, r: Option<(seq<Ber>, Bytes)>)
    ensures Prepend(c, r).None? <==> r.None?
  {
  }

  lemma {:induction false} ChildrenEnd(s: Bytes, depth: nat, indefinite: bool)
    requires s == [] || (indefinite && EOC <= s)
    ensures ChildrenFault(s, depth, indefinite).Some? <==> Children(s, depth, indefinite).None?
  {
  }

  /** Where the content of a definite-length element starts and ends. */
  method DefiniteBounds(input: Bytes, lenPos: nat) returns (r: Result<(nat, nat), BerError>)
    requires |input| <= USIZE_MAX
    requires TagLength(input) == Some(lenPos) && lenPos < |input| && input[lenPos] != INDEFINITE
    ensures r.Ok? <==> ReadHeader(input).Some?
    ensures r.Ok? ==> var (start, end) := r.value;
      && lenPos < start <= end <= |input|
      && ReadHeader(input) == Some(DefiniteHeader(input[..lenPos], input[lenPos..start], input[start..end], input[end..]))
    ensures DefiniteFault(input, lenPos) == match r case Ok(_) => None case Err(e) => Some(e)
  {
    hide LengthCodec.Value, TagLength, IsLength, LengthFault;
    var body := input[lenPos..];
    assert body == [input[lenPos]] + input[lenPos + 1..];
    var length := DecodeBerDefiniteLength(input[lenPos], input[lenPos + 1..]);
    if length.Err? {
      return Err(BadLength(length.error));
    }
    var (contentLen, bytesConsumed) := length.value;
    var pos := lenPos + 1 + bytesConsumed;
    if contentLen > USIZE_MAX - pos {
      return Err(ContentLengthOverflow);
    }
    var end := pos + contentLen;
    if end > |input| {
      return Err(ContentExceedsInput);
    }
    SliceOfTail(input, lenPos, bytesConsumed + 1, contentLen);
    return Ok((pos, end));
  }

  lemma SliceOfTail(s: Bytes, p: nat, k: nat, n: nat)
    requires p + k + n <= |s|
    ensures var t := s[p..];
      t[..k] == s[p..p + k] && t[k..k + n] == s[p + k..p + k + n] && t[k + n..] == s[p + k + n..]
  {
  }

  /** Parse one BER element; returns its DER encoding and the remaining input. */
  method BerTlvToDer(input: Bytes, depth: nat) returns (r: Result<(Bytes, Bytes), BerError>)
    requires |input| <= USIZE_MAX
    ensures r.Ok? <==> Normalize(input, depth).Some?
    ensures r.Ok? ==> Normalize(input, depth) == Some(r.value)
    ensures r.Err? ==> ElementFault(input, depth) == Some(r.error)
    decreases |input|, 0
  {
    hide Children, Built, EncodeLength, Canon, ContentFault, DefiniteFault;
    if depth > MAX_BER_DEPTH {
      return Err(NestingTooDeep);
    }
    if |input| == 0 {
      return Err(UnexpectedEnd);
    }
    assert input[0..] == input;
    var pos :- SkipTagOctets(input, 0);
    var tag := input[..pos];
    if pos >= |input| {
      return Err(NoLengthOctet);
    }
    if input[pos] == INDEFINITE {
      if !Constructed(tag[0]) {
        return Err(IndefiniteOnPrimitive);
      }
      assert input[pos..][1..] == input[pos + 1..];
      NormalizeIndefinite(input, depth, tag, input[pos + 1..]);
      r := IndefiniteElement(tag, input[pos + 1..], depth);
      return;
    }
    var bounds :- DefiniteBounds(input, pos);
    var content, rest := input[bounds.0..bounds.1], input[bounds.1..];
    NormalizeDefinite(input, depth, tag, input[pos..bounds.0], content, rest);
    if Constructed(tag[0]) {
      var der :- DefiniteElement(tag, content, depth);
      return Ok((der, rest));
    }
    var out := EncodeDerLength(tag, |content|);
    return Ok((out + content, rest));
  }

  method IndefiniteElement(tag: Bytes, body: Bytes, depth: nat) returns (r: Result<(Bytes, Bytes), BerError>)
    requires |body| <= USIZE_MAX && IsTag(tag) && Constructed(tag[0])
    ensures r.Ok? <==> Built(tag, Children(body, depth + 1, true)).Some?
    ensures r.Ok? ==> Built(tag, Children(body, depth + 1, true)) == Some(r.value)
    ensures r.Err? ==> ContentFault(tag, body, depth + 1, true) == Some(r.error)
    decreases |body|, 2
  {
    hide Children, Assemble, Reemit, ReemitFault, ChildrenFault;
    var children :- ChildrenUntilEoc(body, depth + 1);
    ChildrenProper(body, depth + 1, true);
    ReemitIsAssemble(tag, Children(body, depth + 1, true).value.0);
    var der :- ReemitElement(tag, children.0);
    return Ok((der, children.1));
  }

  method DefiniteElement(tag: Bytes, content: Bytes, depth: nat) returns (r: Result<Bytes, BerError>)
    requires |content| <= USIZE_MAX && IsTag(tag) && Constructed(tag[0])
    ensures r.Ok? <==> Built(tag, Children(content, depth + 1, false)).Some?
    ensures r.Ok? ==> Built(tag, Children(content, depth + 1, false)).value.0 == r.value
    ensures r.Err? ==> ContentFault(tag, content, depth + 1, false) == Some(r.error)
    decreases |content|, 2
  {
    hide Children, Assemble, Reemit, ReemitFault, ChildrenFault;
    var blobs :- ChildrenOfContent(content, depth + 1);
    ChildrenProper(content, depth + 1, false);
    ReemitIsAssemble(tag, Children(content, depth + 1, false).value.0);
    r := ReemitElement(tag, blobs);
  }

  /** The loop over the children of an indefinite-length element, to its end-of-contents marker. */
  method ChildrenUntilEoc(body: Bytes, depth: nat) returns (r: Result<(seq<Bytes>, Bytes), BerError>)
    requires |body| <= USIZE_MAX
    ensures r.Ok? <==> Children(body, depth, true).Some?
    ensures r.Ok? ==> r.value.0 == Encodings(Children(body, depth, true).value.0)
    ensures r.Ok? ==> r.value.1 == Children(body, depth, true).value.1
    ensures r.Err? ==> ChildrenFault(body, depth, true) == Some(r.error)
    decreases |body|, 1
  {
    hide ElementFault, Canon;
    var rest, blobs := body, [];
    ghost var done: seq<Ber> := [];
    PrependAllSnoc([], Primitive([], [], []), Children(body, depth, true));
    while true
      invariant |rest| <= |body| && blobs == Encodings(done)
      invariant Children(body, depth, true) == PrependAll(done, Children(rest, depth, true))
      invariant ChildrenFault(body, depth, true) == ChildrenFault(rest, depth, true)
      decreases |rest|
    {
      if |rest| >= 2 && rest[0] == 0x00 && rest[1] == 0x00 {
        assert EOC <= rest;
        assert done + [] == done;
        return Ok((blobs, rest[2..]));
      }
      if |rest| == 0 {
        assert Read(rest, depth) == None;
        return Err(Unterminated);
      }
      ChildrenStep(rest, depth, true);
      ChildrenFaultStep(rest, depth, true);
      var child :- BerTlvToDer(rest, depth);
      ghost var c := Canon(Read(rest, depth).value.0).value;
      PrependAllSnoc(done, c, Children(child.1, depth, true));
      blobs, rest := blobs + [child.0], child.1;
      done := done + [c];
    }
  }

  /** The loop over the children of a definite-length element, which fill its content. */
  method ChildrenOfContent(content: Bytes, depth: nat) returns (r: Result<seq<Bytes>, BerError>)
    requires |content| <= USIZE_MAX
    ensures r.Ok? <==> Children(content, depth, false).Some?
    ensures r.Ok? ==> r.value == Encodings(Children(content, depth, false).value.0)
    ensures r.Err? ==> ChildrenFault(content, depth, false) == Some(r.error)
    decreases |content|, 1
  {
    hide ElementFault, Canon;
    var rest, blobs := content, [];
    ghost var done: seq<Ber> := [];
    PrependAllSnoc([], Primitive([], [], []), Children(content, depth, false));
    while |rest| > 0
      invariant |rest| <= |content| && blobs == Encodings(done)
      invariant Children(content, depth, false) == PrependAll(done, Children(rest, depth, false))
      invariant ChildrenFault(content, depth, false) == ChildrenFault(rest, depth, false)
      decreases |rest|
    {
      ChildrenStep(rest, depth, false);
      ChildrenFaultStep(rest, depth, false);
      var child :- BerTlvToDer(rest, depth);
      ghost var c := Canon(Read(rest, depth).value.0).value;
      PrependAllSnoc(done, c, Children(child.1, depth, false));
      blobs, rest := blobs + [child.0], child.1;
      done := done + [c];
    }
    assert done + [] == done;
    return Ok(blobs);
  }

  /** `ber_to_der` */
  method BerToDer(input: Bytes) returns (r: Result<Bytes, BerError>)
    requires |input| <= USIZE_MAX
    ensures r.Ok? <==> Normalizer.BerToDer(input).Some?
    ensures r.Ok? ==> Normalizer.BerToDer(input) == Some(r.value)
    ensures r.Err? ==> r.error == match ElementFault(input, 0) case Some(e) => e case None => TrailingBytes
  {
    hide ElementFault;
    ElementFaultExactly(input, 0);
    var element :- BerTlvToDer(input, 0);
    if |element.1| != 0 {
      return Err(TrailingBytes);
    }
    return Ok(element.0);
  }
}
