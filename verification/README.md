# S/MIME core: a Dafny model

The project models the parts of an S/MIME library that decide what a message means and whom it comes from, and proves
what they promise.

* **BER to DER** (`Octets`, `LengthCodec`, `BerSyntax`, `BerCanon`, `BerMeaning`, `Normalizer`, `BerToDer`, `BerOctets`). BER is a
  concrete syntax tree that keeps the length octets as they were written. `Unparse` prints it, `Read` parses it, `Canon`
  is the DER form and `Meaning` is what an element denotes, whatever its length forms, string segmentation and order of
  SET members. The methods of `BerToDer` follow the source's loops and are proved equal to these functions.
* **CMS implicit sets** (`CmsTree`, `CmsWalk`, `CmsInPlace`, `CmsMeaning`, `ObjectIdentifiers`, `CmsMessages`). The second pass over ContentInfo,
  SignedData and SignerInfo three times over: on trees, on octet sequences, and on an `array<byte>` sorted in place.
  Each layer is proved to refine the one before.
* **Signed attributes** (`SignedAttributes`): the octets a signature covers, and why reordering cannot change a check.
* **Key wrap and content encryption** (`Cbc`, `CbcLaws`, `KeyWrap`, `Padding`): CBC over any invertible block cipher, the double
  pass of RFC 3211 (sections 2.3.1 and 2.3.2), and PKCS#7 padding.
* **Envelopes** (`Envelope`, `EnvelopeLaws`, `Identifiers`): encryption for many recipients and the recipient loop of decryption (RFC 5652, sections
  6.1 and 6.2; RFC 5753, section 7.2; RFC 8418). The primitives are functions with inverse laws (`Suite.Lawful`);
  `LawfulSuiteExists` shows that the laws do not contradict each other, `SampleMessage` that the hypotheses of the
  main result can be met for three key types and both ciphers.
* **Verification** (`Ocsp`, `ContentRepair`, `Sender`, `AttributeScan`, `Signers`, `Layers`): stapled OCSP along a
  chain, the scan of the signed attributes, the signer loop with its mutable report and sender resolver, the WildDuck
  content repair, and the loop over nested layers.
* **Splicing** (`Splicing`, `Base64Laws`): rewriting the PKCS#7 parts of a message from the rear, with base64 and line wrapping.

What the definitions stand for is stated once more from outside, in literal octets, bits, arcs and fields, and proved
equivalent: `BerOctets` for identifier octets, depth and the order of sets, `ObjectIdentifiers` and `CmsMessages` for
object identifiers and the message shapes of the second pass, `CbcLaws` for XOR and chaining, `EnvelopeLaws` for entries
of any conforming sender, `Base64Laws` for every octet of a rewritten body, and in the other modules the lemmas whose
names end in `Exactly`.

Machine integers: `usize` is 32 or 64 bits wide, and every result holds for both (`USIZE_MAX` is either of the two
values, wasm32 or native). Lengths are unbounded integers that are checked against `USIZE_MAX` where the source uses
checked arithmetic. Results about DER output ask that the output is no longer than `USIZE_MAX`, as every
byte vector is; `BerToDerGrowth` shows that inputs of up to a third of that always meet it.

Where the code does not do what one might expect:

* DER output can be longer than the input (`Normalizer.EmptyBitStringGrows`), so growth is bounded, not excluded.
* The RFC 3211 wrap stores the key length in one octet. The round trip holds for keys of 3 to 255 octets and for no
  other length (`KeyWrap.RoundTrip`); a key of 256 octets is always refused (`KeyWrap.LongKeyIsLost`).
* An empty `[0]` in ContentInfo makes the walk take the element behind it for SignedData (`AfterExplicit` in `CmsTree`).
* One pass of the content repair is not always enough: a line break inserted in front of one boundary can complete
  another. `ContentRepair.Breakable` says for which boundaries this happens; all of them contain CR.
* The last of several signing-time attributes sets the signing time, so the order in which they are read decides it
  (`AttributeScan.SigningTimeFixed`); the source only adds a failure.
* The layer loop reports only the failures of the innermost layer, and that layer's own encryption if it has one
  (`Layers.InnerEnvelopeTold`), although the comment in the source speaks of the first.

## Model

| member | source | states |
|---|---|---|
| LengthCodec.DecodeBerDefiniteLength | src/utils.rs:183-200 | succeeds exactly on a definite length that fits the word; each of the three errors has its exact condition, overflow being that of the whole field with its leading zeros |
| LengthCodec.ReadLengthExact | src/utils.rs:183-200 | value and size are read exactly when the leading octets are a definite form of that value |
| LengthCodec.EncodeDerLength | src/utils.rs:202-212 | appends the DER length octets, computed from leading zeros and shifts |
| LengthCodec.BytesNeeded | src/utils.rs:202-212 | the octet count derived from the bit length is the number of base-256 digits |
| LengthCodec.EncodeLengthShortest | src/utils.rs:202-212 | decoding inverts encoding, and no definite form of the same length is shorter |
| BerSyntax.ReadSound | src/utils.rs:67-181 | what the parser accepts is the printed form of a well-formed element within the depth limit, followed by the unconsumed suffix |
| BerSyntax.ReadComplete | src/utils.rs:67-181 | every such element is accepted whatever follows it |
| BerSyntax.ReadExact | src/utils.rs:64-181 | both: the parser is exact about the element and the suffix |
| BerSyntax.PrefixFree | src/utils.rs:130 | no element's encoding is a proper prefix of another's |
| BerOctets.DepthLimit | src/utils.rs:64-75 | an element whose strings are sound is accepted exactly when at most 64 levels lie below it |
| BerOctets.IdentifierBits | src/utils.rs:77-95 | bit 6 of the identifier octet marks a constructed encoding, and its five low bits, all set, further identifier octets |
| BerOctets.TagOctets | src/utils.rs:77-91 | a tag is one octet, or one with five low bits set and further octets of which all but the last have bit 8 |
| BerOctets.FitsUpTo | src/utils.rs:67-181 | no two elements have the same octets, whatever their depth |
| BerCanon.SortKidsEncodings | src/utils.rs:130 | sorting the children sorts their encodings and keeps them all |
| BerCanon.CanonIsCanon | src/utils.rs:67-181 | normalised elements have primitive strings, shortest definite lengths and sorted sets throughout |
| BerCanon.CanonFixed | src/utils.rs:67-181 | an element in that form is its own normal form |
| BerCanon.CanonWf | src/utils.rs:67-181 | the normal form is again well-formed BER |
| BerCanon.CanonFits | src/utils.rs:67-181 | and nested no deeper |
| BerOctets.InOrderExactly | src/utils.rs:130 | the order of set members is that of the first octet in which their encodings differ |
| BerOctets.DerFormExactly | src/utils.rs:67-181 | the normal form in octets: definite shortest lengths, 0x23 and 0x24 nowhere, members of 0x31 in order |
| BerOctets.OutputIsDer | src/utils.rs:12-18 | every output is the encoding of an element in that form |
| BerOctets.BitSegmentsAccepted | src/utils.rs:27-51 | exactly which segments a constructed BIT STRING may have, octet by octet |
| BerOctets.OctetSegmentsAccepted | src/utils.rs:52-57 | a constructed OCTET STRING takes exactly segments tagged 0x04 |
| BerMeaning.FlattenLeaves | src/utils.rs:27-62 | flattening nested segments level by level gives the same content as joining all leaf segments at once, and unused bits occur in the last leaf only |
| BerMeaning.JoinBitsDenotes | src/utils.rs:36-51 | the joined content denotes the concatenation of the segments' bits, counted bit by bit |
| BerMeaning.FlattenDenotes | src/utils.rs:27-62 | a flattened BIT STRING denotes the bits of its leaves from left to right, an OCTET STRING their octets |
| BerOctets.BitsInOrder | src/utils.rs:36-51 | bit k of a string is a bit of octet k / 8, bit 8 first |
| BerOctets.SegmentBits | src/utils.rs:36-51 | a segment stands for its data bits in order, less the unused ones its first octet counts |
| BerMeaning.CanonMeaning | src/utils.rs:67-181 | the DER form means what the input meant |
| BerMeaning.CanonDetermined | src/utils.rs:67-181 | two elements in normal form with the same meaning are the same element |
| BerMeaning.SortedKidsUnique | src/utils.rs:130 | there is only one sorted order of the same children |
| Normalizer.BerToDerExact | src/utils.rs:12-18 | accepted are exactly the well-formed elements within the depth limit whose constructed strings are sound; the output is the printed normal form |
| Normalizer.DerReadsBack | src/utils.rs:12-18 | the output is parsed as the normal form of the input's element |
| Normalizer.BerToDerIdempotent | src/utils.rs:12-18 | a second run changes nothing, and the meaning is the input's |
| Normalizer.BerToDerCanonical | src/utils.rs:12-181 | two accepted inputs give identical octets exactly when they mean the same |
| Normalizer.SortOrderIsDerOrder | src/utils.rs:163 | plain octet order on encodings is the zero-padded order of clause 11.6 of X.690 |
| Normalizer.BerToDerGrowth | src/utils.rs:12-181 | the output is at most three times as long as the input |
| Normalizer.EmptyBitStringGrows | src/utils.rs:36-61 | an empty constructed BIT STRING grows by an octet |
| BerToDer.SkipTagOctets | src/utils.rs:77-91 | the loop over tag octets stops behind the tag, and fails exactly on truncated tags |
| BerToDer.ParseDerTlv | src/utils.rs:222-247 | reads exactly a definite header whose content lies in the buffer, and otherwise gives the error of the first part that is wrong |
| BerToDer.TlvAtElement | src/utils.rs:222-247 | on an element it finds the element's own header and content |
| BerToDer.JoinBitSegments | src/utils.rs:36-51 | succeeds exactly when only the last segment has unused bits, and joins the data octets |
| BerToDer.FlattenConstructedString | src/utils.rs:27-62 | the flattening loop over re-encoded children: a foreign tag anywhere, else the first bad segment, decides the error |
| BerToDer.FlattenFaultExactly | src/utils.rs:27-62 | an error is given exactly when there is no result |
| BerToDer.FlattenBlobsIsFlattenString | src/utils.rs:27-62 | on encoded children this is flattening on the tree |
| BerToDer.ReemitIsAssemble | src/utils.rs:126-138 | re-emitting encoded children is assembling the normal form on the tree |
| BerToDer.DefiniteBounds | src/utils.rs:139-147 | content bounds with overflow and truncation checks: exactly the bounds of the parsed header |
| BerToDer.ChildrenUntilEoc | src/utils.rs:112-125 | the loop to the end-of-contents octets collects the normalised children and the rest, or gives the first bad child's error or that of the missing end |
| BerToDer.ChildrenOfContent | src/utils.rs:151-158 | the loop over definite content collects the normalised children, and fails if one fails |
| BerToDer.BerTlvToDer | src/utils.rs:67-181 | the recursive descent computes parser and normal form, on strictly shorter slices at every call; its error is that of its own header, else of its first bad child, else of its own string |
| BerToDer.ElementFaultExactly | src/utils.rs:67-181 | such an error exists exactly when the element is not normalised |
| BerToDer.BerToDer | src/utils.rs:12-18 | and the whole input must be one element: trailing octets are the error only when the element itself is good |
| CmsTree.SortSdFieldSpec | src/utils.rs:321-335 | a field of SignedData keeps its members up to their inner sorting, is sorted inside and out, and is untouched when it is no set |
| CmsTree.SignerInfoGetsSorted | src/utils.rs:344-365 | every implicit set of a SignerInfo is sorted and keeps its members |
| CmsTree.SignedDataGetsSorted | src/utils.rs:315-339 | all sets of SignedData are sorted at once, although inner sorting moves members of the outer ones |
| CmsTree.SortCmsIdempotent | src/utils.rs:282-340 | a second pass over the tree changes nothing |
| CmsTree.SortCmsGood | src/utils.rs:282-340 | the pass keeps the tree well-formed DER of the same size |
| CmsTree.BerToDerCmsSorted | src/utils.rs:368-372 | the result is DER, as long as the first pass made it, with every set of its SignedData sorted; `CmsMessages.MessageOutcome` says for which messages, by their octets |
| CmsTree.BerToDerCmsIdempotent | src/utils.rs:368-372 | a second run succeeds and changes nothing |
| CmsTree.OtherContentIsAccepted | src/utils.rs:290-298 | a ContentInfo of another content type, written out: its indefinite form is rewritten and nothing is sorted |
| CmsWalk.ChildBlobsOfKids | src/utils.rs:257-268 | collecting children in a buffer finds exactly the encodings of the children that stand there |
| CmsWalk.RegionRearranged | src/utils.rs:250-279 | on any buffer, sorting a region moves octets and changes none |
| CmsWalk.SortRegionOfKids | src/utils.rs:250-279 | sorting a region of the buffer sorts those children and leaves what is in front of and behind it |
| CmsWalk.WalkFieldsOfKids | src/utils.rs:350-361 | the walk over the fields of a SignerInfo in the buffer is the sort on the tree |
| CmsWalk.WalkSignerInfosOfKids | src/utils.rs:344-365 | likewise over the SignerInfos |
| CmsWalk.WalkSignedDataOfKids | src/utils.rs:315-339 | likewise over the fields of SignedData, never failing on DER |
| CmsWalk.ReplaceFrame | src/utils.rs:282-340 | outside the located SEQUENCE no octet changes |
| CmsWalk.SortCmsOctetsOfTree | src/utils.rs:282-340 | on DER the walk through the buffer, failures included, is the pass on the tree |
| CmsInPlace.CollectChildren | src/utils.rs:257-268 | the collecting loop: the first bad header, or children that overrun the region, decide the error |
| CmsInPlace.SortChildrenInPlace | src/utils.rs:250-279 | the region of the array is replaced by its sorted children; the array is unchanged on error |
| CmsInPlace.SortSignerInfosInPlace | src/utils.rs:344-365 | the loop over SignerInfos and their fields in the array; even after an error the octets are only rearranged |
| CmsInPlace.SortSignedDataInPlace | src/utils.rs:315-339 | the loop over the fields of SignedData in the array; even after an error the octets are only rearranged |
| CmsInPlace.SortCmsImplicitSets | src/utils.rs:282-340 | the whole pass on the array; even after an error the octets are only rearranged |
| CmsInPlace.BerToDerCms | src/utils.rs:368-372 | both passes together, in place, compute the function that `CmsMessages.MessageOutcome` characterises |
| ObjectIdentifiers.SubidentifiersRead | src/utils.rs:295-298 | content octets of an object identifier in base 128 (clause 8.19 of X.690) read back as its arcs |
| ObjectIdentifiers.OidContentUnique | src/utils.rs:295-298 | different object identifiers have different content octets |
| CmsMessages.SignedDataContent | src/utils.rs:295-298 | the content octets the pass compares with are those of 1.2.840.113549.1.7.2 |
| CmsMessages.SignedDataOrder | src/utils.rs:315-365 | sortedness in literal tags: 0xA0, 0xA1 and 0x31 of SignedData, 0xA0 and 0xA1 of each SEQUENCE in a SET |
| CmsMessages.MessageOutcome | src/utils.rs:282-372 | what becomes of every input the first pass accepts: with 1.2.840.113549.1.7.2 and a SEQUENCE in [0] (or behind an empty [0]) the output's SEQUENCE is in order; with any other object identifier the output is the first pass's; everything else, and only that, is refused |
| CmsMeaning.SortCmsMeaning | src/utils.rs:282-340 | the pass keeps the meaning when implicit sets are read as sets, and finds SignedData in the same place again |
| CmsMeaning.ContentMeaningOfCanon | src/utils.rs:12-18 | the first pass keeps the CMS meaning of a ContentInfo, whatever its length forms, and the place of SignedData in it |
| CmsMeaning.OutputProcessed | src/utils.rs:368-372 | the output means what the input as it stands meant, and every set of its SignedData is sorted |
| CmsMeaning.ProcessedDetermined | src/utils.rs:282-340 | a processed ContentInfo is determined by that meaning |
| CmsMeaning.BerToDerCmsCanonical | src/utils.rs:368-372 | two accepted messages give identical octets exactly when they mean the same, implicit sets read as sets |
| CmsMeaning.BerToDerCmsRespectsMeaning | src/utils.rs:368-372 | inputs that differ only in length forms, segmentation and SET order are accepted alike, with identical output |
| SignedAttributes.EncodeSignedAttrs | src/cms_utils.rs:250-266 | encodes every attribute or fails, and writes the sorted SET OF |
| SignedAttributes.SignedOctetsExactly | src/cms_utils.rs:250-266 | the signed octets are 0x31, the length, and the encodings of all attributes, each once, in ascending order; there are none exactly when an attribute does not encode |
| SignedAttributes.MessageDigestExactly | src/cms_utils.rs:14-50 | the digest check passes exactly when one attribute is a message digest, with one value, the one computed |
| SignedAttributes.DigestRefusedExactly | src/cms_utils.rs:14-50 | and when it gives which error, in terms of the attributes |
| SignedAttributes.EncodingIgnoresOrder | src/cms_utils.rs:250-266 | the signed octets are the same for every order of the attributes |
| SignedAttributes.DigestIgnoresOrder | src/cms_utils.rs:14-50 | so is the outcome of the digest check, error included |
| SignedAttributes.VerificationIgnoresOrder | src/cms_utils.rs:288-315 | and so are those of both signature checks |
| SignedAttributes.SortedFieldIsSigned | src/utils.rs:344-365 | after the in-place pass the field holds, behind its tag, the octets that are signed; the pass did not change them |
| Cbc.DecryptEncrypt | src/decrypt.rs:922-931 | CBC decryption inverts encryption for any invertible block cipher |
| Cbc.EncryptDecrypt | src/decrypt.rs:922-931 | and the other way round: CBC is a bijection on whole blocks |
| Cbc.EncryptAppend | src/create_cms.rs:1611-1622 | chaining: encrypting two pieces is encrypting the second with the first's last block as IV |
| Cbc.DecryptAppend | src/decrypt.rs:519-535 | the same for decryption |
| CbcLaws.XorOctetBit | src/encrypt.rs:39-61 | a bit of the combined octet differs from the first octet's exactly where the second's is set |
| CbcLaws.EncryptIsChained | src/encrypt.rs:39-61 | a ciphertext is the CBC encryption exactly when every block is the cipher's image of the data block combined with the block before it, the IV in front |
| CbcLaws.IvMatters | src/encrypt.rs:39-61 | different IVs give different ciphertexts of the same non-empty data |
| CbcLaws.IvReachesBlock | src/encrypt.rs:39-61 | and different in every block |
| CbcLaws.BlockMatters | src/encrypt.rs:39-61 | a changed data block changes its own ciphertext block and every one behind it |
| Cbc.EncryptInPlace | src/encrypt.rs:39-61 | encryption block by block in the buffer computes CBC |
| KeyWrap.ParseFormatExact | src/decrypt.rs:485-504 | the format check accepts exactly the formatted keys of 3 to 255 octets |
| KeyWrap.UnwrapWrap | src/decrypt.rs:508-541 | the unwrap, which starts from the last block, inverts both CBC passes |
| KeyWrap.WrapUnwrap | src/create_cms.rs:1582-1625 | and the passes invert the unwrap: the transform is a bijection from two blocks on |
| KeyWrap.WrapCek | src/create_cms.rs:1582-1625 | fills the payload octet by octet and encrypts it in place twice; `KeyWrap.WrapIsDoubleCbc` says what that is, block by block |
| KeyWrap.WrapIsDoubleCbc | src/create_cms.rs:1582-1625 | an output is the wrapping exactly when it is chained from the last block of a text that is chained from the IV over the length, the three complements, the key and the padding |
| KeyWrap.PaddedLengthExactly | src/create_cms.rs:1585-1590 | the payload has the least multiple of 16 octets, and at least 32, that holds key and header |
| KeyWrap.UnwrapCek | src/decrypt.rs:508-541 | decrypts the last block, then the rest, then all, and checks the format |
| KeyWrap.RoundTrip | src/create_cms.rs:1582-1625 | unwrapping gives the key back exactly when it has at most 255 octets |
| KeyWrap.LongKeyIsLost | src/create_cms.rs:1585-1600 | a key of 256 octets, written with length 0, is refused |
| KeyWrap.UnwrapAcceptsWrappings | src/decrypt.rs:485-541 | accepted are exactly the wrappings of a key of 3 to 255 octets |
| Padding.UnpadExact | src/encrypt.rs:39-61 | on whole blocks unpadding gives a plaintext exactly when the data is that plaintext padded |
| Padding.DecryptPaddedExact | src/decrypt.rs:945-952 | decryption gives a plaintext exactly when the ciphertext is its encryption |
| Padding.EncryptAesCbc | src/encrypt.rs:39-61 | the padded buffer is encrypted in place, partial and full last blocks included; `Padding.EncryptPaddedIsCbc` says what that is, block by block |
| Padding.EncryptPaddedIsCbc | src/encrypt.rs:39-61 | a ciphertext is the result exactly when it is chained from the IV over the plaintext with 1 to 16 octets behind it that tell their number |
| Envelope.BuildRecipients | src/encrypt.rs:309-313 | one entry for each certificate in order; fails exactly when one cannot be built |
| EnvelopeLaws.AgreementEntryExactly | src/encrypt.rs:132-279 | an entry written for a NIST curve or X25519 is that of a conforming sender, and is written whenever such a sender can |
| EnvelopeLaws.TransportEntryExactly | src/encrypt.rs:79-130 | RSA keys of 2048 to 4096 bits and no others get an entry: OAEP with SHA-256 throughout, or v1.5 on request |
| EnvelopeLaws.WrittenExactly | src/encrypt.rs:295-370 | versions, ciphers, IV, tag and content of the message written |
| EnvelopeLaws.WrittenUnless | src/encrypt.rs:295-313 | encryption fails exactly without recipients or when an entry cannot be built |
| Envelope.RecoverCek | src/decrypt.rs:101-190 | the recipient loop: version warnings, the first success, otherwise the last error; the lemmas of `EnvelopeLaws` say when an entry gives which key |
| EnvelopeLaws.AgreementExactly | src/decrypt.rs:292-434 | a key agreement entry gives a key exactly when scheme, wrap algorithm and originator fit the private key, and the first key for the certificate that unwraps under the KDF of the shared info (wrap algorithm, ukm, literal size octets; the ukm as HKDF salt) gives it; a warning for SHA-1 |
| EnvelopeLaws.AnySenderIsRead | src/decrypt.rs:292-434 | so every sender that follows RFC 5753 or RFC 8418 is read: P-256, P-384, P-521 and X25519, standard and cofactor schemes with all five hashes, HKDF with three, AES-128, AES-192 and AES-256 wrap, with or without ukm |
| EnvelopeLaws.TransportExactly | src/decrypt.rs:220-287 | a key transport entry gives exactly what RSA gives to the certificate it names, for v1.5 and OAEP with MGF1, no label and any hash but SHA-224; a warning for SHA-1 |
| EnvelopeLaws.RecoveredExactly | src/decrypt.rs:101-190 | the key is that of the first entry that gives one, and has the length the cipher needs |
| EnvelopeLaws.NotRecovered | src/decrypt.rs:145-184 | without a key the error is that of the last entry tried, or that nobody matches when none was |
| EnvelopeLaws.VersionWarningsExactly | src/decrypt.rs:120-143 | every entry whose version is not 0, 2, 3, 4 or 0 as RFC 5652 has it is told with its position, in order, and nothing else is |
| EnvelopeLaws.DecryptsExactly | src/decrypt.rs:52-98 | a plaintext is read exactly when the content is its encryption under the recovered key: padded CBC, or what GCM opens with tag and nonce of 12 to 16 octets |
| EnvelopeLaws.NothingToDecrypt | src/decrypt.rs:52-67 | a message without content gives none, and content of another type is refused first |
| Envelope.UnwrapMatching | src/decrypt.rs:414-431 | the first matching key that unwraps; none exactly when no matching one does |
| Envelope.OwnEntry | src/encrypt.rs:281-289 | a recipient's own entry gives the content key with no warning, for RSA, NIST curves and X25519 |
| Envelope.ForeignEntry | src/decrypt.rs:193-216 | an entry for another issuer and serial is skipped or fails, and never gives a key |
| Envelope.TryAllFinds | src/decrypt.rs:101-190 | failed entries in front or behind cannot hide the one that succeeds |
| Envelope.RecoversCek | src/decrypt.rs:101-190 | any recipient recovers the content key from any order of the set |
| Envelope.EveryRecipientReads | src/decrypt.rs:52-98 | any recipient decrypts to the plaintext with no warnings, for any order of the set and both ciphers |
| Envelope.EncryptVersionExpected | src/encrypt.rs:316-335 | the version written is the one the receiving side expects, for any order of the set |
| EnvelopeLaws.EnvelopedVersionExactly | src/decrypt_verify.rs:296-337 | when the expected version is 4, 3, 0 or 2, entry by entry |
| Ocsp.VerifyOcspSignature | src/ocsp.rs:142-244 | the direct check, then the loop over the response's certificates with its early errors |
| Ocsp.VerifiedByAuthorised | src/ocsp.rs:142-244 | accepted only from the issuer or a responder it authorised; and when the response re-encodes, its algorithm is permitted, the issuer's key is usable and the names encode, exactly when one of them signed |
| Ocsp.WellSignedExactly | src/ocsp.rs:142-244 | accepted exactly when, by the fields, the issuer signed while valid, or a certificate of the response did that names the issuer and its key, is signed by it, is for OCSP signing without a check, and stands in front of any whose names do not encode |
| Ocsp.SaysExactly | src/ocsp.rs:108-136 | a staple says a status exactly when it is well signed and its first entry with the certificate's hashes and serial number has it, with thisUpdate reached, nextUpdate not passed, or without one no more than 604800 seconds passed; never when a date does not parse |
| Ocsp.StatusExactly | src/ocsp.rs:301-326 | which status is found, over all staples, in those terms |
| Ocsp.NoStatusExactly | src/ocsp.rs:301-326 | none exactly when no staple is honoured; so none when every matching entry has expired |
| Ocsp.StapledStatusFor | src/ocsp.rs:301-326 | Revoked exactly when some staple is honoured for it; none exactly when none is honoured; otherwise what the first honoured staple says |
| Ocsp.FirstSaidIsSaid | src/ocsp.rs:301-326 | a status is found exactly when some staple has a signed, fresh, matching entry |
| Ocsp.RevokedExactly | src/ocsp.rs:301-326 | Revoked exactly when some staple proves it; no order and no further staples hide or invent a proof |
| Ocsp.ApplyStapledOcsp | src/lib.rs:1084-1111 | one error for each revoked element in chain order, the anchor never checked |
| Ocsp.ChainRevokedExactly | src/lib.rs:1084-1111 | the errors are the revoked elements below the anchor, each once, in chain order; the chain is Revoked exactly when there is one, and otherwise has the leaf's status, in terms of honoured staples |
| ContentRepair.NormalizeContent | src/lib.rs:561-583 | the loop that inserts line breaks |
| ContentRepair.RepairedExactly | src/lib.rs:561-583 | where every octet of the content stands in the output, what is inserted in front of which octets, and how long the output is |
| ContentRepair.OnlyCrlfInserted | src/lib.rs:561-583 | the output is the input with CRLF pairs inserted, and nothing else |
| ContentRepair.RepairedIsNormal | src/lib.rs:561-583 | unless an insertion can complete the boundary, every boundary occurrence of the output follows CRLF; the output ends in CRLF |
| ContentRepair.UnchangedExactly | src/lib.rs:561-583 | exactly the contents that are normal already are left alone |
| ContentRepair.RepairIdempotent | src/lib.rs:561-583 | for the same boundaries a second repair changes nothing |
| ContentRepair.OnePassExactly | src/lib.rs:561-583 | one pass repairs every content, and is idempotent, exactly when no line break written inside the marker can complete it (`Breakable`) |
| ContentRepair.UnluckyBreaks | src/lib.rs:561-583 | for every breakable boundary, a content that one pass leaves unrepaired |
| ContentRepair.UnbreakableWithoutCr | src/lib.rs:561-583 | a boundary without CR is not breakable |
| ContentRepair.CrBoundaryNeedsTwoPasses | src/lib.rs:561-583 | a breakable boundary written out, with its content |
| Sender.SenderResolver.constructor | src/lib.rs:483-489 | nothing is resolved at first |
| Sender.SenderResolver.Update | src/lib.rs:494-544 | what one update confirms, when it is ignored, and which case warning it gives; address and comment are set exactly when matched |
| Sender.NeverBackwards | src/lib.rs:476-545 | resolution never moves backwards and stands still after the first full match |
| Sender.ResolvedExactly | src/lib.rs:476-545 | the outcome is the first full confirmation, or else the last confirmation of the address |
| Sender.FullExactly | src/lib.rs:476-545 | the name is resolved exactly when some claim confirms it |
| Sender.ResolvedAmong | src/lib.rs:476-545 | resolution goes as far as any claim allows, with nothing but what a claim confirms |
| Sender.ConfirmedExactly | src/lib.rs:501-544 | a certificate confirms the address exactly when one of its addresses has the same A-label form up to the case of ASCII letters, character by character, and the name when one of its names has the same letters |
| Sender.EqIgnoreCaseExactly | src/lib.rs:501-544 | equality up to the case of the 26 letters and nothing else |
| Sender.CaseWarningsExactly | src/lib.rs:514-530 | the one warning there can be, and when |
| Signers.CandidatesExactly | src/lib.rs:1034-1051 | the candidates are exactly the certificates with the signer's identifier |
| Signers.PrepareSigner | src/lib.rs:916-1060 | version, algorithm and attribute failures in order, then the signing time and the candidates, or the reason to skip the signer |
| AttributeScan.ScanAttributes | src/lib.rs:951-1032 | the walk over the attributes: faults in attribute order, then the cardinality faults; the last single-valued signing time that parses is taken; the next three rows say what that is |
| AttributeScan.FaultsExactly | src/lib.rs:956-1015 | the faults of one attribute by its fields: content type, algorithm protection, signing certificate |
| AttributeScan.ReportedExactly | src/lib.rs:951-1032 | each of the nine faults is reported exactly when an attribute, a missing type or two attributes of a type give reason |
| AttributeScan.SigningTimeExactly | src/lib.rs:976-986 | the signing time is that of the last attribute with exactly one value that reads, and none without one |
| AttributeScan.ScanPermutes | src/lib.rs:951-1032 | every order of the attributes has the same faults, the same cardinality faults in the same sequence, and the same times |
| AttributeScan.SigningTimeFixed | src/lib.rs:976-986 | the signing time is the same for every order exactly when all attributes that set one agree |
| AttributeScan.LastSigningTimeWins | src/lib.rs:976-986 | with two signing times the last one counts in either order, and the faults are the same |
| AttributeScan.FaultsFollowOrder | src/lib.rs:956-1015 | two attributes whose faults come in the other sequence when the attributes do |
| Signers.VerifyCandidate | src/lib.rs:1377-1446 | one key against one signer: outcome, checks, failures in order, and the content replaced only by the WildDuck workaround |
| Signers.FindSignerCertificate | src/lib.rs:1495-1514 | the first candidate whose key verifies, with the failures of those before it; checks start afresh for each |
| Signers.ValidateChain | src/lib.rs:1113-1139 | trust, status and failures of the signer's chain |
| Signers.TrustedExactly | src/lib.rs:1113-1139 | trusted exactly when a chain verifies and no staple is honoured for the revocation of an element below the anchor |
| Signers.IntermediatesOffered | src/lib.rs:1075-1077 | the verifier is offered, in order, exactly the certificates that are neither the leaf nor self-issued |
| Signers.ResolveSender | src/lib.rs:1199-1229 | only valid entries move the resolver; what is shown stays in step with it |
| Signers.VerifySigner | src/lib.rs:1483-1539 | one turn of the loop: entry, failures, content and sender |
| Signers.VerifySigners | src/lib.rs:1483-1539 | the loop: entries, failures and content of the whole run, and the sender shown in terms of the entries' certificates |
| Signers.Prepare | src/lib.rs:1285-1335 | the steps before the loop, each with its failure |
| Signers.VerifySignedData | src/lib.rs:1449-1539 | without a complete preparation no signer is reported; the outer sender stays unless a valid signer's certificate has the inner address; then the inner address and date are shown, and the inner name exactly when one certificate has both |
| Signers.SignerLeafExactly | src/lib.rs:1361-1446 | a signer passes exactly when some certificate with its identifier verifies the octets of the SET OF all attributes, or the content without any, and the one digest attribute covers the content (or, detached, the repaired content) |
| Signers.ReportedExactly | src/lib.rs:1483-1539 | entries follow SignerInfo order; exactly the signers a certificate vouches for have one; chain, trust, revocation, validity and signing time of each entry are those of its own signer |
| Signers.ResolvedIsRun | src/lib.rs:1199-1229 | the sender after the loop is the resolver run over the valid signers' claims |
| Signers.SenderSafety | src/lib.rs:1199-1229 | the resolver leaves Unmatched exactly when a valid signer's certificate confirms the inner From, ends with what such a signer confirms, and is full exactly when one confirms the name |
| Signers.ShownExactly | src/lib.rs:1199-1229 | what is shown after any run, over the addresses and names of the valid entries' certificates, and its equality with what the loop leaves |
| Signers.OuterShownExactly | src/lib.rs:1316-1324 | the outer From and Date, field by field |
| Signers.ToldExactly | src/lib.rs:916-1539 | each failure of a signer, other than those of keys, digests and signatures, is reported exactly when its reason holds |
| Signers.SearchKinds | src/lib.rs:1377-1514 | the search reports the WildDuck workaround exactly when a certificate verifies over the repaired content only |
| Signers.RepairUsedExactly | src/lib.rs:1377-1446 | the content is replaced by the repaired one exactly when some signer is vouched for whose digest does not cover the content as it is |
| Signers.AllClean | src/lib.rs:916-1539 | nothing at all is reported exactly when every signer has the right version, clean algorithms and attributes, and its first named certificate verifies the content as it is, with a chain in which nothing is revoked |
| Signers.NotesExactly | src/lib.rs:1177-1229 | the notes of an entry: each of its dates more than 3600 seconds off, and the case of the address while no full match is known |
| Signers.VersionFailuresExactly | src/lib.rs:932-944 | version 1 with issuer and serial number, version 3 with a key identifier, and otherwise one failure |
| Signers.LeafIsFirst | src/lib.rs:1495-1514 | the certificate reported is the first in the message that the signer names and whose key verifies |
| Signers.AttributeOrder | src/lib.rs:916-1539 | for every order of every signer's attributes the same signers are reported with the same certificate, checks, chain, validity and sender notes, the same failures occur, and content and sender are the same; only the signing time, its note and the sequence of failures may differ |
| Signers.AgreedTimes | src/lib.rs:916-1539 | where each signer's signing-time attributes agree, no order changes an entry at all |
| Layers.DecryptAndVerify | src/decrypt_verify.rs:16-83 | the layer loop gives the summary of the layers of the message |
| Layers.ReportsAreTheLayers | src/decrypt_verify.rs:30-54 | these are the one sequence in which each layer reads what the one around it holds, at most four, all seeing the outermost From and Date |
| Layers.SignersOutermostFirst | src/decrypt_verify.rs:44-57 | the signers of each layer stand unchanged behind those of the layers around it |
| Layers.DepthIsBounded | src/decrypt_verify.rs:73-82 | a fifth layer gives no content and exactly one failure, and keeps all signers; otherwise the content is the innermost layer's and not S/MIME again |
| Layers.SenderShown | src/decrypt_verify.rs:58-71 | address, name and date are each the innermost layer's, or where it has none the outermost's |
| Layers.EncryptionReported | src/decrypt_verify.rs:35-60 | the encryption told is the innermost layer's own if that layer was reached and is encrypted, and otherwise the outermost encrypted layer's; so the latter is told exactly when the two agree or the innermost has none |
| Layers.InnerEnvelopeTold | src/decrypt_verify.rs:35-60 | with one envelope in another the inner one's encryption is told |
| Splicing.WrapBase64 | src/modify_cms.rs:201-208 | the wrapping loop |
| Splicing.WrappedReadsBack | src/modify_cms.rs:200-208 | stripping the line breaks gives the text back, no line has more than 76 octets, and the last ends in CRLF |
| Base64Laws.WrappedExactly | src/modify_cms.rs:200-208 | octet k stands behind one CRLF for every 76 octets before it, and a CRLF closes the text |
| Base64Laws.EncodeExactly | src/modify_cms.rs:200 | group by group: six bits each in the alphabet of RFC 4648, section 4, and `=` where the input has ended |
| Splicing.DecodeEncode | src/modify_cms.rs:200 | base64 decoding inverts encoding |
| Splicing.BodyReadsBack | src/modify_cms.rs:197-208 | a new body decodes to the DER form of its part |
| Splicing.SortDescends | src/modify_cms.rs:186-187 | the sorted parts run from rear to front without overlap |
| Splicing.SpliceStep | src/modify_cms.rs:193-210 | replacing one more body in front leaves those already replaced and all earlier offsets right |
| Splicing.RewriteParts | src/modify_cms.rs:180-217 | replacing from the rear is replacing all bodies at once; it fails exactly when there are no parts or one does not convert |
| Splicing.PartOrderIrrelevant | src/modify_cms.rs:186-187 | the order in which the parts were found does not matter |
| Splicing.PartSits | src/modify_cms.rs:180-217 | each new body stands where the old one did, moved by what the parts before it grew or shrank |

## Left out

- CmsInPlace.SortCmsImplicitSets: after an error the buffer holds the same octets in some order, not in a stated one, and the error itself is not stated; the caller discards the buffer.
- Splicing.RewriteParts: asks that the body ranges lie in the message, do not overlap and start at different places, as the parts of a parsed message do.
- Envelope.EveryRecipientReads: covers AES-256-CBC and AES-256-GCM with 16-octet tags, the two ciphers that encryption offers.
- PWRI and KEKRI entries in the recipient loop are an arbitrary function of the entry; the RFC 3211 unwrap has its own module.
- RC2, 3DES and CCM decryption, the CEK-HKDF derivation itself, RSA, ECDH, AES, GCM, hashes and signature checks: functions with inverse laws, or uninterpreted.
- Randomness (content keys, IVs, padding, ephemeral keys) and the clock are parameters.
- The derive parsers and writers of the asn1 crate, mail_parser, PEM and the chain verifier: their results are data or functions.
- Names are compared by their encodings; IDNA conversion of mail domains is an arbitrary function.
- `check_algorithms`: its warnings or refusal come with each SignerInfo. Attribute values are given as their readers parse them.
- `econtent_looks_like_signed_attrs` is a predicate on the content.
- SHA-256 fingerprints, hp attributes, trust store labels and certificate notes in signer entries: display only.
- What one layer does (`decrypt_and_verify_one_layer`) is a function in the layer loop; its envelope and signed-data branches are modelled apart.
- OCSP responses and single responses are already parsed; extraction of staples from the RevocationInfoChoices is left out.
- The `signing_system` field of results.
- Algorithm allow-lists, error texts, serialisation, command lines, the proxy, the demo and HTTP fetching.
