// What a signature is checked over (src/cms_utils.rs:13-50, 250-315), and why no order of the attributes changes it.
module SignedAttributes {
  import opened Arrangements
  import opened Octets
  import LengthCodec
  import opened BerSyntax
  import opened BerCanon
  import opened CmsTree

  datatype Protection = Protection(digestAlg: Bytes, signatureAlg: Option<Bytes>)

  /** An attribute's type and its values as that type reads them; None for a value that does not parse. */
  datatype AttributeContent =
    | MessageDigest(digests: seq<Option<Bytes>>)
    | ContentType(isData: seq<Option<bool>>)              // whether the type is id-data
    | SigningTime(times: seq<Option<Option<int>>>)        // a parsed time that is no instant is Some(None)
    | AlgorithmProtection(protections: seq<Option<Protection>>)
    | SmimeCapabilities
    | SigningCertificate
    | OtherContent

  /** A parsed attribute and its re-encoding, which is None when the writer fails. */
  datatype Attribute = Attribute(der: Option<Bytes>, content: AttributeContent)

  datatype SigError =
    | EncodingFailed
    | DigestMissing
    | DigestUnsupported
    | DigestRepeated
    | DigestMalformed
    | DigestValueCount(n: nat)
    | DigestDiffers
    | SignatureInvalid

  /** DER of a SET OF: elements in ascending order behind the universal SET tag. */
  function SetOfDer(elements: seq<Bytes>): Bytes {
    var content := Concat(Sort(elements));
    SET + LengthCodec.EncodeLength(|content|) + content
  }

  function Ders(attrs: seq<Attribute>): Option<seq<Bytes>> {
    if attrs == [] then Some([])
    else match attrs[0].der
      case None => None
      case Some(d) =>
        match Ders(attrs[1..])
        case None => None
        case Some(ds) => Some([d] + ds)
  }

  /** The octets a signature over these attributes covers. */
  function SignedOctets(attrs: seq<Attribute>): Option<Bytes> {
    match Ders(attrs)
    case None => None
    case Some(ds) => Some(SetOfDer(ds))
  }

  function InFront(done: seq<Bytes>, r: Option<seq<Bytes>>): Option<seq<Bytes>> {
    match r case None => None case Some(ds) => Some(done + ds)
  }

  lemma InFrontStep(done: seq<Bytes>, d: Bytes, r: Option<seq<Bytes>>)
    ensures InFront(done, InFront([d], r)) == InFront(done + [d], r)
    ensures InFront([], r) == r
  {
    if r.Some? {
      assert done + ([d] + r.value) == done + [d] + r.value;
      assert [] + r.value == r.value;
    }
  }

  /** `encode_signed_attrs` */
  method EncodeSignedAttrs(attrs: seq<Attribute>) returns (r: Result<Bytes, SigError>)
    ensures r == match SignedOctets(attrs) case None => Err(EncodingFailed) case Some(b) => Ok(b)
  {
    var encoded: seq<Bytes> := [];
    InFrontStep([], [], Ders(attrs));
    assert attrs[0..] == attrs;
    for i := 0 to |attrs|
      invariant Ders(attrs) == InFront(encoded, Ders(attrs[i..]))
    {
      if attrs[i].der.None? {
        return Err(EncodingFailed);
      }
      assert attrs[i..][1..] == attrs[i + 1..];
      InFrontStep(encoded, attrs[i].der.value, Ders(attrs[i + 1..]));
      encoded := encoded + [attrs[i].der.value];
    }
    assert encoded + [] == encoded;
    return Ok(SetOfDer(encoded));
  }

  // ---------- Permutations ----------

  function DerOf(a: Attribute): Option<Bytes> { a.der }

  lemma {:induction false} DersAsMap(attrs: seq<Attribute>)
    ensures Ders(attrs).None? <==> exists a :: a in attrs && a.der.None?
    ensures Ders(attrs).Some? ==> Map(SomeBytes, Ders(attrs).value) == Map(DerOf, attrs)
  {
    if attrs != [] {
      DersAsMap(attrs[1..]);
      HeadOrTail(attrs);
    }
  }

  function SomeBytes(b: Bytes): Option<Bytes> { Some(b) }

  /** The octets a signature covers do not depend on the order of the attributes. */
  lemma EncodingIgnoresOrder(a: seq<Attribute>, b: seq<Attribute>)
    requires multiset(a) == multiset(b)
    ensures SignedOctets(a) == SignedOctets(b)
  {
    DersAsMap(a);
    DersAsMap(b);
    assert forall x :: x in a <==> x in multiset(a);
    assert forall x :: x in b <==> x in multiset(b);
    if Ders(a).Some? {
      MapPermute(DerOf, a, b);
      var x, y := Ders(a).value, Ders(b).value;
      MatchMembers(SomeBytes, x, y);
      SortCanonical(x, y);
    }
  }

  /**
   * What is signed: the SET OF tag, the shortest length, and the encodings of all attributes, each once,
   * in ascending order of their octets (RFC 5652, section 5.4).
   */
  ghost predicate SetOfAll(attrs: seq<Attribute>, octets: Bytes) {
    exists ders: seq<Bytes> ::
      && multiset(Map(SomeBytes, ders)) == multiset(Map(DerOf, attrs))
      && (forall i, j :: 0 <= i < j < |ders| ==> Precedes(ders[i], ders[j]))
      && octets == [0x31] + LengthCodec.EncodeLength(|Concat(ders)|) + Concat(ders)
  }

  lemma {:induction false} SignedOctetsExactly(attrs: seq<Attribute>, octets: Bytes)
    ensures SignedOctets(attrs) == Some(octets) <==> SetOfAll(attrs, octets)
  {
    hide Ders, Sort, Map, Precedes, LengthCodec.EncodeLength;
    DersAsMap(attrs);
    if Ders(attrs).Some? {
      var given := Ders(attrs).value;
      var ders := Sort(given);
      SortSorts(given);
      MapPermute(SomeBytes, ders, given);
      forall i, j | 0 <= i < j < |ders| ensures Precedes(ders[i], ders[j]) {
        LteExactly(ders[i], ders[j]);
      }
      if SetOfAll(attrs, octets) {
        SetOfAllUnique(attrs, given, octets);
      }
    } else if SetOfAll(attrs, octets) {
      SetOfAllEncodes(attrs, octets);
    }
  }

  lemma {:induction false} SetOfAllUnique(attrs: seq<Attribute>, given: seq<Bytes>, octets: Bytes)
    requires Map(SomeBytes, given) == Map(DerOf, attrs) && SetOfAll(attrs, octets)
    ensures octets == SetOfDer(given)
  {
    hide Sort, Precedes, LengthCodec.EncodeLength, Concat, Map;
    var ders: seq<Bytes> :| multiset(Map(SomeBytes, ders)) == multiset(Map(DerOf, attrs))
      && (forall i, j :: 0 <= i < j < |ders| ==> Precedes(ders[i], ders[j]))
      && octets == [0x31] + LengthCodec.EncodeLength(|Concat(ders)|) + Concat(ders);
    MatchMembers(SomeBytes, ders, given);
    SortSorts(given);
    forall i, j | 0 <= i < j < |ders| ensures Lte(ders[i], ders[j]) {
      LteExactly(ders[i], ders[j]);
    }
    SortedUnique(ders, Sort(given));
  }

  lemma {:induction false} SetOfAllEncodes(attrs: seq<Attribute>, octets: Bytes)
    requires SetOfAll(attrs, octets)
    ensures forall a :: a in attrs ==> a.der.Some?
  {
    hide Precedes, LengthCodec.EncodeLength, Concat;
    var ders: seq<Bytes> :| multiset(Map(SomeBytes, ders)) == multiset(Map(DerOf, attrs))
      && (forall i, j :: 0 <= i < j < |ders| ==> Precedes(ders[i], ders[j]))
      && octets == [0x31] + LengthCodec.EncodeLength(|Concat(ders)|) + Concat(ders);
    forall a | a in attrs ensures a.der.Some? {
      var k :| 0 <= k < |attrs| && attrs[k] == a;
      assert Map(DerOf, attrs)[k] in multiset(Map(SomeBytes, ders));
    }
  }

  // ---------- verify_message_digest ----------

  function DigestsOf(a: Attribute): seq<seq<Option<Bytes>>> {
    if a.content.MessageDigest? then [a.content.digests] else []
  }

  /** The values of each message-digest attribute. */
  function DigestAttributes(attrs: seq<Attribute>): seq<seq<Option<Bytes>>> { Collect(DigestsOf, attrs) }

  /** `computed` is None when the digest algorithm is unknown or not allowed. */
  function VerifyMessageDigest(attrs: Option<seq<Attribute>>, computed: Option<Bytes>): Result<(), SigError> {
    match attrs
    case None => Err(DigestMissing)
    case Some(all) =>
      if computed.None? then Err(DigestUnsupported)
      else
        var found := DigestAttributes(all);
        if found == [] then Err(DigestMissing)
        else if |found| > 1 then Err(DigestRepeated)
        else if |found[0]| != 1 then Err(DigestValueCount(|found[0]|))
        else if found[0][0].None? then Err(DigestMalformed)
        else if found[0][0] == computed then Ok(())
        else Err(DigestDiffers)
  }

  lemma DigestIgnoresOrder(a: seq<Attribute>, b: seq<Attribute>, computed: Option<Bytes>)
    requires multiset(a) == multiset(b)
    ensures VerifyMessageDigest(Some(a), computed) == VerifyMessageDigest(Some(b), computed)
  {
    hide Collect;
    CollectPermute(DigestsOf, a, b);
    var x, y := DigestAttributes(a), DigestAttributes(b);
    SameLength(x, y);
    if |x| == 1 {
      assert x[0] in multiset(y);
    }
  }

  /** One attribute is a message digest, with these values, and no other is. */
  ghost predicate OneDigest(attrs: seq<Attribute>, values: seq<Option<Bytes>>) {
    exists i :: 0 <= i < |attrs| && attrs[i].content == MessageDigest(values)
      && forall j :: 0 <= j < |attrs| && j != i ==> !attrs[j].content.MessageDigest?
  }

  lemma {:induction false} NoDigests(attrs: seq<Attribute>)
    ensures DigestAttributes(attrs) == [] <==> forall j :: 0 <= j < |attrs| ==> !attrs[j].content.MessageDigest?
  {
    if attrs != [] {
      NoDigests(attrs[1..]);
      assert forall j :: 0 < j < |attrs| ==> attrs[j] == attrs[1..][j - 1];
    }
  }

  lemma {:induction false} DigestAttributesExactly(attrs: seq<Attribute>, values: seq<Option<Bytes>>)
    ensures DigestAttributes(attrs) == [values] <==> OneDigest(attrs, values)
  {
    hide OneDigest;
    if attrs == [] {
      NotInEmpty(values);
    } else {
      DigestAttributesExactly(attrs[1..], values);
      NoDigests(attrs[1..]);
      OneDigestStep(attrs, values);
      if attrs[0].content.MessageDigest? {
        var d, rest := attrs[0].content.digests, DigestAttributes(attrs[1..]);
        assert DigestAttributes(attrs) == [d] + rest;
        assert ([d] + rest)[0] == d && ([d] + rest)[1..] == rest && [values][1..] == [];
      }
    }
  }

  lemma NotInEmpty(values: seq<Option<Bytes>>)
    ensures !OneDigest([], values)
  {
  }

  lemma {:induction false} OneDigestStep(attrs: seq<Attribute>, values: seq<Option<Bytes>>)
    requires attrs != []
    ensures OneDigest(attrs, values) <==>
      if attrs[0].content.MessageDigest? then
        attrs[0].content == MessageDigest(values) && forall j :: 0 <= j < |attrs[1..]| ==> !attrs[1..][j].content.MessageDigest?
      else OneDigest(attrs[1..], values)
  {
    var rest := attrs[1..];
    assert forall j :: 0 <= j < |rest| ==> rest[j] == attrs[j + 1];
    if i :| 0 <= i < |rest| && rest[i].content == MessageDigest(values)
            && forall j :: 0 <= j < |rest| && j != i ==> !rest[j].content.MessageDigest?
    {
      if !attrs[0].content.MessageDigest? {
        forall j | 0 <= j < |attrs| && j != i + 1 ensures !attrs[j].content.MessageDigest? {
          assert j > 0 ==> attrs[j] == rest[j - 1];
        }
        assert attrs[i + 1].content == MessageDigest(values);
      }
    }
    if i :| 0 < i < |attrs| && attrs[i].content == MessageDigest(values)
            && forall j :: 0 <= j < |attrs| && j != i ==> !attrs[j].content.MessageDigest?
    {
      assert rest[i - 1].content == MessageDigest(values);
    }
  }

  /** Exactly one message digest, with exactly one value, which is the one computed. */
  lemma MessageDigestExactly(attrs: Option<seq<Attribute>>, computed: Option<Bytes>)
    ensures VerifyMessageDigest(attrs, computed).Ok? <==> attrs.Some? && computed.Some? && OneDigest(attrs.value, [computed])
  {
    hide OneDigest, DigestAttributes;
    if attrs.Some? {
      DigestAttributesExactly(attrs.value, [computed]);
      var found := DigestAttributes(attrs.value);
      if |found| == 1 {
        assert found == [found[0]] && (found == [[computed]] <==> found[0] == [computed]);
        if |found[0]| == 1 {
          assert found[0] == [found[0][0]];
        }
      }
    }
  }

  /** Why a digest is refused: no attribute, an unknown algorithm, more than one attribute, or not the one digest in it. */
  lemma DigestRefusedExactly(attrs: seq<Attribute>, computed: Option<Bytes>, e: SigError)
    ensures VerifyMessageDigest(Some(attrs), computed) == Err(e) <==>
      match e {
        case DigestUnsupported => computed.None?
        case DigestMissing => computed.Some? && forall j :: 0 <= j < |attrs| ==> !attrs[j].content.MessageDigest?
        case DigestRepeated =>
          computed.Some? && exists i, j :: 0 <= i < j < |attrs| && attrs[i].content.MessageDigest? && attrs[j].content.MessageDigest?
        case DigestValueCount(n) => computed.Some? && n != 1 && exists vs :: OneDigest(attrs, vs) && |vs| == n
        case DigestMalformed => computed.Some? && OneDigest(attrs, [None])
        case DigestDiffers => computed.Some? && exists d :: d != computed && d.Some? && OneDigest(attrs, [d])
        case _ => false
      }
  {
    hide OneDigest, DigestAttributes;
    NoDigests(attrs);
    RepeatedDigests(attrs);
    var found := DigestAttributes(attrs);
    forall vs ensures found == [vs] <==> OneDigest(attrs, vs) {
      DigestAttributesExactly(attrs, vs);
    }
    if |found| == 1 {
      var vs := found[0];
      assert found == [vs] && OneDigest(attrs, vs);
      forall us | OneDigest(attrs, us) ensures us == vs {
        assert found == [us];
      }
      if |vs| == 1 {
        assert vs == [vs[0]];
      }
    }
  }

  lemma {:induction false} RepeatedDigests(attrs: seq<Attribute>)
    ensures |DigestAttributes(attrs)| > 1 <==>
      exists i, j :: 0 <= i < j < |attrs| && attrs[i].content.MessageDigest? && attrs[j].content.MessageDigest?
  {
    if attrs != [] {
      var rest := attrs[1..];
      RepeatedDigests(rest);
      NoDigests(rest);
      assert forall j :: 0 <= j < |rest| ==> rest[j] == attrs[j + 1];
      if i, j :| 0 <= i < j < |rest| && rest[i].content.MessageDigest? && rest[j].content.MessageDigest? {
        assert attrs[i + 1].content.MessageDigest? && attrs[j + 1].content.MessageDigest?;
      }
      if i, j :| 0 <= i < j < |attrs| && attrs[i].content.MessageDigest? && attrs[j].content.MessageDigest? {
        assert rest[j - 1].content.MessageDigest?;
        if i > 0 {
          assert rest[i - 1].content.MessageDigest?;
        }
      }
    }
  }

  // ---------- verify_econtent_signature and verify_detached_signature ----------

  /** `valid` stands for the signature check of the chosen key and algorithms on the signed octets. */
  function VerifyEContentSignature(valid: Bytes -> bool, attrs: Option<seq<Attribute>>, eContent: Bytes)
    : Result<(), SigError>
  {
    var data := match attrs case None => Some(eContent) case Some(all) => SignedOctets(all);
    match data
    case None => Err(EncodingFailed)
    case Some(octets) => if valid(octets) then Ok(()) else Err(SignatureInvalid)
  }

  function VerifyDetachedSignature(valid: Bytes -> bool, attrs: seq<Attribute>): Result<(), SigError> {
    match SignedOctets(attrs)
    case None => Err(EncodingFailed)
    case Some(octets) => if valid(octets) then Ok(()) else Err(SignatureInvalid)
  }

  /** No check of a signer can tell two orders of the same signed attributes apart. */
  lemma VerificationIgnoresOrder(valid: Bytes -> bool, a: seq<Attribute>, b: seq<Attribute>, content: Bytes, digest: Option<Bytes>)
    requires multiset(a) == multiset(b)
    ensures VerifyEContentSignature(valid, Some(a), content) == VerifyEContentSignature(valid, Some(b), content)
    ensures VerifyDetachedSignature(valid, a) == VerifyDetachedSignature(valid, b)
    ensures VerifyMessageDigest(Some(a), digest) == VerifyMessageDigest(Some(b), digest)
  {
    EncodingIgnoresOrder(a, b);
    DigestIgnoresOrder(a, b, digest);
  }

  // ---------- The implicit-set pass and the signed octets ----------

  /**
   * After the pass the signedAttrs field holds, behind its tag octet, exactly the octets that are signed
   * (RFC 5652, section 5.4: the SET OF tag takes the place of [0]), and sorting did not change them.
   */
  lemma SortedFieldIsSigned(f: Ber, depth: nat)
    requires Good(f, depth) && IsImplicitSet(f)
    ensures SetOfDer(Encodings(SortField(f).kids)) == SetOfDer(Encodings(f.kids))
    ensures Unparse(SortField(f)) == f.tag + SetOfDer(Encodings(f.kids))[1..]
  {
    hide *;
    SortFieldKids(f);
    SortKidsEncodings(f.kids);
    SortSorts(Encodings(f.kids));
    SortCanonical(Encodings(SortKids(f.kids)), Encodings(f.kids));
    SetOfDerParts(Encodings(SortKids(f.kids)));
    SetOfDerParts(Encodings(f.kids));
    UnparseAllConcat(SortKids(f.kids));
    SortFieldGood(f, depth);
    GoodNode(SortField(f), depth);
  }

  lemma SortFieldKids(f: Ber)
    requires IsImplicitSet(f)
    ensures f.Definite? && SortField(f) == f.(kids := SortKids(f.kids))
  {
  }

  lemma {:induction false} SetOfDerParts(elements: seq<Bytes>)
    ensures var content := Concat(Sort(elements));
      SetOfDer(elements) == SET + LengthCodec.EncodeLength(|content|) + content
      && SetOfDer(elements)[1..] == LengthCodec.EncodeLength(|content|) + content
  {
  }

  lemma {:induction false} GoodNode(b: Ber, depth: nat)
    requires b.Definite? && Good(b, depth)
    ensures Unparse(b) == b.tag + (LengthCodec.EncodeLength(|UnparseAll(b.kids)|) + UnparseAll(b.kids))
  {
    assert Unparse(b) == b.tag + b.len + UnparseAll(b.kids);
  }
}
