// Multi-recipient encryption and decryption (src/encrypt.rs, src/decrypt.rs): every recipient can read the message.
module Envelope {
  import opened Octets
  import opened Arrangements
  import Cbc
  import opened Padding
  import opened Identifiers

  // ---------- Certificates, keys and messages ----------

  datatype Hash = Sha1 | Sha224 | Sha256 | Sha384 | Sha512

  datatype Curve = P256 | P384 | P521 | OtherCurve

  /** The group an ECDH key belongs to. */
  datatype Group = OnCurve(curve: Curve) | X25519Group

  datatype PublicKey =
    | RsaPublic(key: Bytes, bits: nat)
    | EcPublic(curve: Curve, point: Bytes)
    | X25519Public(key: Bytes)
    | UnsupportedPublic

  datatype PrivateKey =
    | RsaPrivate(key: Bytes)
    | EcPrivate(curve: Curve, scalar: Bytes)
    | X25519Private(scalar: Bytes)
    | X448Private
    | UnparsableKey

  datatype Certificate = Certificate(issuer: Bytes, serial: Bytes, spki: PublicKey, ski: Option<Bytes>)

  datatype KeyTransport =
    | Pkcs1v15
    | Oaep(hash: Hash, mgfHash: Hash, mgf1: bool, defaultLabel: bool)
    | OtherTransport

  datatype Scheme = StdDh(hash: Hash) | CofactorDh(hash: Hash) | HkdfDh(hash: Hash) | UnknownScheme

  datatype WrapAlgorithm = Aes128Wrap | Aes192Wrap | Aes256Wrap | OtherWrap

  datatype OriginatorAlgorithm = EcPublicKeyAlg | X25519Alg | OtherAlg

  datatype Originator = OriginatorKey(alg: OriginatorAlgorithm, public: Bytes) | OtherOriginator

  datatype EncryptedKey = EncryptedKey(rid: CertId, octets: Bytes)

  datatype RecipientInfo =
    | Ktri(version: nat, rid: CertId, transport: KeyTransport, encryptedKey: Bytes)
    | Kari(version: nat, originator: Originator, ukm: Option<Bytes>, scheme: Scheme, wrapAlg: Option<WrapAlgorithm>,
           keys: seq<EncryptedKey>)
    | Kekri(version: nat, encryptedKey: Bytes)
    | Pwri(version: nat, encryptedKey: Bytes)
    | OtherRecipient

  datatype ContentAlgorithm =
    | AesCbc(keyLen: nat, iv: Bytes)
    | AesGcm(keyLen: nat, nonce: Bytes, icvLen: nat)
    | CekHkdf(inner: ContentAlgorithm, innerDer: Bytes)
    | OtherContentAlg

  /** EnvelopedData and AuthEnvelopedData. */
  datatype Message =
    | Enveloped(version: nat, recipients: seq<RecipientInfo>, alg: ContentAlgorithm, isData: bool, content: Option<Bytes>)
    | AuthEnveloped(version: nat, recipients: seq<RecipientInfo>, alg: ContentAlgorithm, isData: bool,
                    content: Option<Bytes>, aad: Bytes, mac: Bytes)

  datatype Warning =
    | VersionMismatch(expected: nat, actual: nat, idx: nat)
    | WeakKeyEncryption

  datatype DecryptError =
    | KeyParse | Unsupported | DecryptionFailed | NoMatchingRecipient | CekLength | WrongContentType

  // ---------- The primitives ----------

  /** ECC-CMS-SharedInfo (RFC 5753, section 7.2): wrap algorithm, ukm and the KEK length in bits. */
  datatype SharedInfo = SharedInfo(keyInfo: WrapAlgorithm, entityUInfo: Option<Bytes>, suppPubInfo: Bytes)

  const KEY_LENGTHS: set<nat> := {16, 24, 32}

  datatype Suite = Suite(
    rsaPublic: Bytes -> Bytes,
    rsaEncrypt: (Bytes, KeyTransport, Bytes, Bytes) -> Option<Bytes>,  // public key, scheme, seed, message
    rsaDecrypt: (Bytes, KeyTransport, Bytes) -> Option<Bytes>,         // private key, scheme, ciphertext
    dhPublic: (Group, Bytes) -> Bytes,
    agree: (Group, Bytes, Bytes) -> Option<Bytes>,                     // group, scalar, public key
    x963: (Hash, Bytes, SharedInfo, nat) -> Bytes,
    hkdf: (Hash, Option<Bytes>, Bytes, SharedInfo, nat) -> Bytes,      // hash, salt, key material, info, length
    wrap: (Bytes, Bytes) -> Option<Bytes>,
    unwrap: (Bytes, Bytes) -> Option<Bytes>,
    aes: Bytes -> Cbc.Cipher,
    gcmEncrypt: (Bytes, Bytes, Bytes, Bytes) -> (Bytes, Bytes),        // key, nonce, aad, plaintext
    gcmDecrypt: (Bytes, Bytes, Bytes, Bytes, Bytes) -> Option<Bytes>,  // key, nonce, aad, ciphertext, tag
    cekHkdf: (Bytes, Bytes) -> Option<Bytes>)
  {
    /** Each primitive inverts its partner; a missing HKDF salt is the empty one (RFC 5869, section 2.2). */
    ghost predicate Lawful() {
      && (forall k, t, seed, m :: rsaEncrypt(rsaPublic(k), t, seed, m).Some? ==>
            rsaDecrypt(k, t, rsaEncrypt(rsaPublic(k), t, seed, m).value) == Some(m))
      && (forall g, a, b :: agree(g, a, dhPublic(g, b)) == agree(g, b, dhPublic(g, a)))
      && (forall a :: |dhPublic(X25519Group, a)| == 32)
      && (forall h, z, info, n :: hkdf(h, None, z, info, n) == hkdf(h, Some([]), z, info, n))
      && (forall kek, key :: wrap(kek, key).Some? ==> unwrap(kek, wrap(kek, key).value) == Some(key))
      && (forall key :: |key| in KEY_LENGTHS ==> aes(key).Invertible() && aes(key).size == BLOCK)
      && (forall key, nonce, aad, m :: gcmDecrypt(key, nonce, aad, gcmEncrypt(key, nonce, aad, m).0,
            gcmEncrypt(key, nonce, aad, m).1) == Some(m) && |gcmEncrypt(key, nonce, aad, m).1| == 16)
    }
  }

  /** A suite that hides nothing. */
  function PlainSuite(): Suite {
    Suite(k => k, (k, t, seed, m) => Some(m), (k, t, ct) => Some(ct), (g, a) => Zeros32(),
          (g, a, p) => Some([1]), (h, z, info, n) => z, (h, salt, z, info, n) => z,
          (kek, key) => Some(key), (kek, w) => Some(w), key => Cbc.Cipher(BLOCK, b => b, b => b),
          (key, nonce, aad, m) => (m, Repeat(0, 16)), (key, nonce, aad, ct, tag) => Some(ct), (cek, der) => Some(cek))
  }

  /** The laws do not contradict each other. */
  lemma LawfulSuiteExists()
    ensures PlainSuite().Lawful()
  {
    var s := PlainSuite();
    hide Cbc.Cipher.Invertible, Repeat;
    PlainAes();
  }

  lemma PlainAes()
    ensures forall key :: PlainSuite().aes(key).Invertible() && PlainSuite().aes(key).size == BLOCK
  {
  }

  /** The private key belongs to the certificate. */
  predicate KeyFor(suite: Suite, key: PrivateKey, cert: Certificate) {
    match cert.spki
    case RsaPublic(pub, _) => key.RsaPrivate? && suite.rsaPublic(key.key) == pub
    case EcPublic(curve, point) => key.EcPrivate? && key.curve == curve && suite.dhPublic(OnCurve(curve), key.scalar) == point
    case X25519Public(pub) => key.X25519Private? && suite.dhPublic(X25519Group, key.scalar) == pub
    case UnsupportedPublic => false
  }

  /** Big-endian octets of a 32-bit number. */
  function BigEndian32(n: nat): Bytes {
    [(n / 0x100_0000 % 0x100) as byte, (n / 0x1_0000 % 0x100) as byte, (n / 0x100 % 0x100) as byte, (n % 0x100) as byte]
  }

  function Zeros32(): Bytes { seq(32, _ => 0 as byte) }

  // ---------- Encryption (src/encrypt.rs) ----------

  /** `validate_spki` */
  predicate Supported(key: PublicKey) {
    match key
    case RsaPublic(_, bits) => 2048 <= bits <= 4096
    case EcPublic(curve, _) => curve != OtherCurve
    case X25519Public(_) => true
    case UnsupportedPublic => false
  }

  function IdOf(cert: Certificate): CertId { IssuerAndSerial(cert.issuer, cert.serial) }

  /** `build_ktri` */
  function BuildKtri(suite: Suite, cek: Bytes, cert: Certificate, pkcs1v15: bool, seed: Bytes): Option<RecipientInfo>
    requires cert.spki.RsaPublic?
  {
    var transport := if pkcs1v15 then Pkcs1v15 else Oaep(Sha256, Sha256, true, true);
    match suite.rsaEncrypt(cert.spki.key, transport, seed, cek)
    case None => None
    case Some(ct) => Some(Ktri(0, IdOf(cert), transport, ct))
  }

  /** SharedInfo as both builders write it: AES-256 wrap, no ukm, 256 bits. */
  const ENCRYPT_INFO: SharedInfo := SharedInfo(Aes256Wrap, None, [0, 0, 1, 0])

  /** `build_kari` */
  function BuildKari(suite: Suite, cek: Bytes, cert: Certificate, ephemeral: Bytes): Option<RecipientInfo>
    requires cert.spki.EcPublic?
  {
    var group := OnCurve(cert.spki.curve);
    match suite.agree(group, ephemeral, cert.spki.point)
    case None => None
    case Some(z) =>
      match suite.wrap(suite.x963(Sha256, z, ENCRYPT_INFO, 32), cek)
      case None => None
      case Some(w) =>
        Some(Kari(3, OriginatorKey(EcPublicKeyAlg, suite.dhPublic(group, ephemeral)), None, StdDh(Sha256),
                  Some(Aes256Wrap), [EncryptedKey(IdOf(cert), w)]))
  }

  /** `build_kari_x25519` */
  function BuildKariX25519(suite: Suite, cek: Bytes, cert: Certificate, ephemeral: Bytes): Option<RecipientInfo>
    requires cert.spki.X25519Public?
  {
    if |cert.spki.key| != 32 then None
    else match suite.agree(X25519Group, ephemeral, cert.spki.key)
      case None => None
      case Some(z) =>
        if z == Zeros32() then None
        else match suite.wrap(suite.hkdf(Sha256, None, z, ENCRYPT_INFO, 32), cek)
          case None => None
          case Some(w) =>
            Some(Kari(3, OriginatorKey(X25519Alg, suite.dhPublic(X25519Group, ephemeral)), None, HkdfDh(Sha256),
                      Some(Aes256Wrap), [EncryptedKey(IdOf(cert), w)]))
  }

  /** `build_recipient_info` */
  function BuildRecipientInfo(suite: Suite, cek: Bytes, cert: Certificate, pkcs1v15: bool, seed: Bytes): Option<RecipientInfo> {
    if !Supported(cert.spki) then None
    else match cert.spki
      case RsaPublic(_, _) => BuildKtri(suite, cek, cert, pkcs1v15, seed)
      case EcPublic(_, _) => BuildKari(suite, cek, cert, seed)
      case X25519Public(_) => BuildKariX25519(suite, cek, cert, seed)
  }

  function BuildAll(suite: Suite, cek: Bytes, certs: seq<Certificate>, pkcs1v15: bool, seeds: seq<Bytes>)
    : (r: Option<seq<RecipientInfo>>)
    requires |seeds| == |certs|
    ensures r.Some? ==> |r.value| == |certs|
    ensures r.Some? ==> forall i :: 0 <= i < |certs| ==>
      BuildRecipientInfo(suite, cek, certs[i], pkcs1v15, seeds[i]) == Some(r.value[i])
  {
    if certs == [] then Some([])
    else match BuildRecipientInfo(suite, cek, certs[0], pkcs1v15, seeds[0])
      case None => None
      case Some(ri) =>
        match BuildAll(suite, cek, certs[1..], pkcs1v15, seeds[1..])
        case None => None
        case Some(ris) => Some([ri] + ris)
  }

  datatype ContentCipher = Aes256Cbc | Aes256Gcm

  predicate AllKtri(ris: seq<RecipientInfo>) { forall i :: 0 <= i < |ris| ==> ris[i].Ktri? }

  /** `encrypt`; cek, iv and seeds are the random values it draws. None stands for its errors. */
  function EncryptFor(suite: Suite, certs: seq<Certificate>, plain: Bytes, cipher: ContentCipher, pkcs1v15: bool,
                      cek: Bytes, iv: Bytes, seeds: seq<Bytes>): Option<Message>
    requires suite.Lawful() && |cek| == 32 && |seeds| == |certs|
    requires |iv| == if cipher == Aes256Cbc then 16 else 12
  {
    if certs == [] then None
    else match BuildAll(suite, cek, certs, pkcs1v15, seeds)
      case None => None
      case Some(ris) =>
        if cipher == Aes256Cbc then
          Some(Enveloped(if AllKtri(ris) then 0 else 2, ris, AesCbc(32, iv), true,
                         Some(EncryptPadded(suite.aes(cek), iv, plain))))
        else
          var (ct, tag) := suite.gcmEncrypt(cek, iv, [], plain);
          Some(AuthEnveloped(0, ris, AesGcm(32, iv, 16), true, Some(ct), [], tag))
  }

  // ---------- Decryption (src/decrypt.rs) ----------

  predicate MatchesCert(rid: CertId, cert: Certificate) { Names(rid, cert.issuer, cert.serial, cert.ski) }

  datatype Keys = Keys(private: PrivateKey, cert: Option<Certificate>,
                       other: RecipientInfo -> Result<(Bytes, seq<Warning>), DecryptError>)

  /** `decrypt_ktri_cek` */
  function DecryptKtri(suite: Suite, key: PrivateKey, ri: RecipientInfo): Result<(Bytes, seq<Warning>), DecryptError>
    requires ri.Ktri?
  {
    if !key.RsaPrivate? then Err(KeyParse)
    else
      match ri.transport
      case OtherTransport => Err(Unsupported)
      case Pkcs1v15 => RsaResult(suite.rsaDecrypt(key.key, ri.transport, ri.encryptedKey), [])
      case Oaep(hash, mgfHash, mgf1, defaultLabel) =>
        if !defaultLabel || !mgf1 then Err(Unsupported)
        else if hash == Sha224 || mgfHash == Sha224 then Err(Unsupported)
        else RsaResult(suite.rsaDecrypt(key.key, ri.transport, ri.encryptedKey),
                       if hash == Sha1 || mgfHash == Sha1 then [WeakKeyEncryption] else [])
  }

  function RsaResult(cek: Option<Bytes>, warnings: seq<Warning>): Result<(Bytes, seq<Warning>), DecryptError> {
    match cek case None => Err(DecryptionFailed) case Some(k) => Ok((k, warnings))
  }

  function KekLength(alg: WrapAlgorithm): Option<nat> {
    match alg
    case Aes128Wrap => Some(16)
    case Aes192Wrap => Some(24)
    case Aes256Wrap => Some(32)
    case OtherWrap => None
  }

  /** The shared secret of the originator's key and the recipient's (src/decrypt.rs:330-400). */
  function SharedSecret(suite: Suite, key: PrivateKey, originator: Originator, scheme: Scheme): Result<Bytes, DecryptError>
    requires originator.OriginatorKey?
  {
    match key
    case X448Private => Err(Unsupported)
    case X25519Private(scalar) =>
      if scheme.CofactorDh? then Err(Unsupported)
      else if originator.alg != X25519Alg then Err(DecryptionFailed)
      else if |originator.public| != 32 then Err(DecryptionFailed)
      else (match suite.agree(X25519Group, scalar, originator.public)
        case None => Err(DecryptionFailed)
        case Some(z) => if z == Zeros32() then Err(DecryptionFailed) else Ok(z))
    case EcPrivate(curve, scalar) =>
      if originator.alg != EcPublicKeyAlg then Err(DecryptionFailed)
      else if scheme.CofactorDh? && curve == OtherCurve then Err(Unsupported)
      else if curve == OtherCurve then Err(KeyParse)
      else (match suite.agree(OnCurve(curve), scalar, originator.public)
        case None => Err(DecryptionFailed)
        case Some(z) => Ok(z))
    case _ => Err(KeyParse)
  }

  /** `build_ecc_cms_shared_info` */
  function DecryptInfo(wrapAlg: WrapAlgorithm, ukm: Option<Bytes>, kekLen: nat): SharedInfo {
    SharedInfo(wrapAlg, ukm, BigEndian32(kekLen * 8))
  }

  function DeriveKek(suite: Suite, scheme: Scheme, z: Bytes, ukm: Option<Bytes>, info: SharedInfo, kekLen: nat)
    : Result<Bytes, DecryptError>
  {
    match scheme
    case StdDh(h) => Ok(suite.x963(h, z, info, kekLen))
    case CofactorDh(h) => Ok(suite.x963(h, z, info, kekLen))
    case HkdfDh(h) =>
      if h == Sha1 || h == Sha224 then Err(Unsupported)
      else Ok(suite.hkdf(h, Some(match ukm case None => [] case Some(u) => u), z, info, kekLen))
    case UnknownScheme => Err(Unsupported)
  }

  /** The loop over RecipientEncryptedKeys: the first matching one that unwraps. */
  function UnwrapFirst(suite: Suite, kek: Bytes, cert: Certificate, keys: seq<EncryptedKey>): Option<Bytes> {
    if keys == [] then None
    else if MatchesCert(keys[0].rid, cert) && suite.unwrap(kek, keys[0].octets).Some? then
      suite.unwrap(kek, keys[0].octets)
    else UnwrapFirst(suite, kek, cert, keys[1..])
  }

  /** `decrypt_kari_cek` */
  function DecryptKari(suite: Suite, key: PrivateKey, ri: RecipientInfo, cert: Certificate)
    : Result<(Bytes, seq<Warning>), DecryptError>
    requires ri.Kari?
  {
    if !ri.originator.OriginatorKey? || ri.scheme.UnknownScheme? then Err(Unsupported)
    else if ri.wrapAlg.None? then Err(DecryptionFailed)
    else if KekLength(ri.wrapAlg.value).None? then Err(Unsupported)
    else
      var warnings := if ri.scheme == StdDh(Sha1) || ri.scheme == CofactorDh(Sha1) then [WeakKeyEncryption] else [];
      var kekLen := KekLength(ri.wrapAlg.value).value;
      match SharedSecret(suite, key, ri.originator, ri.scheme)
      case Err(e) => Err(e)
      case Ok(z) =>
        match DeriveKek(suite, ri.scheme, z, ri.ukm, DecryptInfo(ri.wrapAlg.value, ri.ukm, kekLen), kekLen)
        case Err(e) => Err(e)
        case Ok(kek) =>
          match UnwrapFirst(suite, kek, cert, ri.keys)
          case None => Err(DecryptionFailed)
          case Some(cek) => Ok((cek, warnings))
  }

  /** The version each kind of RecipientInfo must have; None for kinds that are not checked. */
  function ExpectedVersion(ri: RecipientInfo): Option<nat> {
    match ri
    case Ktri(_, rid, _, _) => Some(if rid.IssuerAndSerial? then 0 else 2)
    case Kari(_, _, _, _, _, _) => Some(3)
    case Kekri(_, _) => Some(4)
    case Pwri(_, _) => Some(0)
    case OtherRecipient => None
  }

  function ActualVersion(ri: RecipientInfo): Option<nat> {
    if ri.OtherRecipient? then None else Some(ri.version)
  }

  function VersionWarnings(ris: seq<RecipientInfo>, idx: nat): seq<Warning> {
    if ris == [] then []
    else
      var rest := VersionWarnings(ris[1..], idx + 1);
      var expected := ExpectedVersion(ris[0]);
      if expected.Some? && ris[0].version != expected.value then
        [VersionMismatch(expected.value, ris[0].version, idx)] + rest
      else rest
  }

  datatype Attempt = Skipped | Recovered(cek: Bytes, warnings: seq<Warning>) | Refused(error: DecryptError)

  function ToAttempt(r: Result<(Bytes, seq<Warning>), DecryptError>): Attempt {
    match r case Ok((k, w)) => Recovered(k, w) case Err(e) => Refused(e)
  }

  /** One turn of the recipient loop. */
  function Try(suite: Suite, keys: Keys, ri: RecipientInfo): Attempt {
    match ri
    case Ktri(_, rid, _, _) =>
      if keys.cert.None? || !MatchesCert(rid, keys.cert.value) then Skipped
      else ToAttempt(DecryptKtri(suite, keys.private, ri))
    case Kari(_, _, _, _, _, _) =>
      if keys.cert.None? then Skipped else ToAttempt(DecryptKari(suite, keys.private, ri, keys.cert.value))
    case OtherRecipient => Skipped
    case _ => ToAttempt(keys.other(ri))
  }

  function TryAll(suite: Suite, keys: Keys, ris: seq<RecipientInfo>, lastErr: DecryptError): Attempt {
    if ris == [] then Refused(lastErr)
    else match Try(suite, keys, ris[0])
      case Skipped => TryAll(suite, keys, ris[1..], lastErr)
      case Refused(e) => TryAll(suite, keys, ris[1..], e)
      case Recovered(k, w) => Recovered(k, w)
  }

  /** The outcome of `recover_cek`. */
  function RecoveredCek(suite: Suite, keys: Keys, ris: seq<RecipientInfo>, keyLen: nat): Result<(Bytes, seq<Warning>), DecryptError> {
    match TryAll(suite, keys, ris, NoMatchingRecipient)
    case Recovered(cek, w) =>
      if |cek| != keyLen then Err(CekLength) else Ok((cek, VersionWarnings(ris, 0) + w))
    case Refused(e) => Err(e)
    case Skipped => Err(NoMatchingRecipient)
  }

  /** `resolve_cek_hkdf` */
  function ResolveHkdf(alg: ContentAlgorithm): (ContentAlgorithm, Option<Bytes>) {
    if alg.CekHkdf? then (alg.inner, Some(alg.innerDer)) else (alg, None)
  }

  function ContentKey(suite: Suite, cek: Bytes, innerDer: Option<Bytes>): Option<Bytes> {
    match innerDer case None => Some(cek) case Some(der) => suite.cekHkdf(cek, der)
  }

  /** `decrypt_aes_gcm` */
  function GcmOpen(suite: Suite, key: Bytes, alg: ContentAlgorithm, aad: Bytes, ct: Bytes, tag: Bytes): Result<Bytes, DecryptError>
    requires alg.AesGcm?
  {
    if |tag| != alg.icvLen then Err(DecryptionFailed)
    else if !(12 <= |tag| <= 16) || !(12 <= |alg.nonce| <= 16) || |key| !in KEY_LENGTHS then Err(Unsupported)
    else match suite.gcmDecrypt(key, alg.nonce, aad, ct, tag)
      case None => Err(DecryptionFailed)
      case Some(p) => Ok(p)
  }

  /** `decrypt_cbc` */
  function CbcOpen(suite: Suite, key: Bytes, iv: Bytes, ct: Bytes): Result<Bytes, DecryptError>
    requires suite.Lawful()
  {
    if |key| !in KEY_LENGTHS || |iv| != 16 then Err(DecryptionFailed)
    else match DecryptPadded(suite.aes(key), iv, ct)
      case None => Err(DecryptionFailed)
      case Some(p) => Ok(p)
  }

  /** What the message holds under this key. */
  function Opened(suite: Suite, m: Message, alg: ContentAlgorithm, key: Bytes): Result<Bytes, DecryptError>
    requires suite.Lawful() && m.content.Some? && if m.Enveloped? then alg.AesCbc? else alg.AesGcm?
  {
    if m.Enveloped? then CbcOpen(suite, key, alg.iv, m.content.value) else GcmOpen(suite, key, alg, m.aad, m.content.value, m.mac)
  }

  /** `decrypt_enveloped_data` and `decrypt_auth_enveloped_data` for the AES algorithms. */
  function DecryptMessage(suite: Suite, keys: Keys, m: Message): Result<(Option<Bytes>, seq<Warning>), DecryptError>
    requires suite.Lawful()
  {
    if m.content.None? then Ok((None, []))
    else if !m.isData then Err(WrongContentType)
    else
      var (alg, innerDer) := ResolveHkdf(m.alg);
      if !(if m.Enveloped? then alg.AesCbc? else alg.AesGcm?) || alg.keyLen !in KEY_LENGTHS then Err(Unsupported)
      else match RecoveredCek(suite, keys, m.recipients, alg.keyLen)
        case Err(e) => Err(e)
        case Ok((cek, warnings)) =>
          match ContentKey(suite, cek, innerDer)
          case None => Err(DecryptionFailed)
          case Some(key) =>
            match Opened(suite, m, alg, key)
            case Err(e) => Err(e)
            case Ok(p) => Ok((Some(p), warnings))
  }

  // ---------- Every recipient can read the message ----------

  /** The same issuer and serial number name the same certificate. */
  predicate DistinctIds(certs: seq<Certificate>) {
    forall i, j :: 0 <= i < |certs| && 0 <= j < |certs| && IdOf(certs[i]) == IdOf(certs[j]) ==> certs[i] == certs[j]
  }

  /** The SharedInfo octets both sides feed to the KDF agree. */
  lemma SharedInfoAgrees()
    ensures DecryptInfo(Aes256Wrap, None, 32) == ENCRYPT_INFO
  {
  }

  /** The recipient's own entry gives the key, without warnings. */
  lemma OwnEntry(suite: Suite, keys: Keys, cek: Bytes, cert: Certificate, pkcs1v15: bool, seed: Bytes, ri: RecipientInfo)
    requires suite.Lawful() && keys.cert == Some(cert) && KeyFor(suite, keys.private, cert)
    requires BuildRecipientInfo(suite, cek, cert, pkcs1v15, seed) == Some(ri)
    ensures Try(suite, keys, ri) == Recovered(cek, [])
  {
    match cert.spki
    case RsaPublic(_, _) => OwnTransport(suite, keys, cek, cert, pkcs1v15, seed, ri);
    case EcPublic(_, _) => OwnEcEntry(suite, keys, cek, cert, pkcs1v15, seed, ri);
    case X25519Public(_) => OwnX25519Entry(suite, keys, cek, cert, pkcs1v15, seed, ri);
  }

  lemma OwnTransport(suite: Suite, keys: Keys, cek: Bytes, cert: Certificate, pkcs1v15: bool, seed: Bytes, ri: RecipientInfo)
    requires suite.Lawful() && keys.cert == Some(cert) && KeyFor(suite, keys.private, cert)
    requires cert.spki.RsaPublic? && BuildRecipientInfo(suite, cek, cert, pkcs1v15, seed) == Some(ri)
    ensures Try(suite, keys, ri) == Recovered(cek, [])
  {
    assert suite.rsaPublic(keys.private.key) == cert.spki.key;
  }

  lemma OwnEcEntry(suite: Suite, keys: Keys, cek: Bytes, cert: Certificate, pkcs1v15: bool, seed: Bytes, ri: RecipientInfo)
    requires suite.Lawful() && keys.cert == Some(cert) && KeyFor(suite, keys.private, cert)
    requires cert.spki.EcPublic? && BuildRecipientInfo(suite, cek, cert, pkcs1v15, seed) == Some(ri)
    ensures Try(suite, keys, ri) == Recovered(cek, [])
  {
    SharedInfoAgrees();
    var g := OnCurve(cert.spki.curve);
    var z := suite.agree(g, seed, cert.spki.point).value;
    assert suite.agree(g, keys.private.scalar, suite.dhPublic(g, seed)) == Some(z);
    var kek := suite.x963(Sha256, z, ENCRYPT_INFO, 32);
    assert suite.unwrap(kek, suite.wrap(kek, cek).value) == Some(cek);
  }

  lemma X25519Laws(suite: Suite, a: Bytes, b: Bytes, z: Bytes, cek: Bytes)
    requires suite.Lawful()
    ensures suite.agree(X25519Group, a, suite.dhPublic(X25519Group, b)) == suite.agree(X25519Group, b, suite.dhPublic(X25519Group, a))
    ensures |suite.dhPublic(X25519Group, a)| == 32
    ensures var kek := suite.hkdf(Sha256, None, z, ENCRYPT_INFO, 32);
      && suite.hkdf(Sha256, Some([]), z, ENCRYPT_INFO, 32) == kek
      && (suite.wrap(kek, cek).Some? ==> suite.unwrap(kek, suite.wrap(kek, cek).value) == Some(cek))
  {
  }

  lemma OwnX25519Entry(suite: Suite, keys: Keys, cek: Bytes, cert: Certificate, pkcs1v15: bool, seed: Bytes, ri: RecipientInfo)
    requires suite.Lawful() && keys.cert == Some(cert) && KeyFor(suite, keys.private, cert)
    requires cert.spki.X25519Public? && BuildRecipientInfo(suite, cek, cert, pkcs1v15, seed) == Some(ri)
    ensures Try(suite, keys, ri) == Recovered(cek, [])
  {
    hide suite.Lawful, Zeros32, DecryptInfo, ENCRYPT_INFO, BuildKtri, BuildKari;
    SharedInfoAgrees();
    var z := suite.agree(X25519Group, seed, cert.spki.key).value;
    X25519Laws(suite, seed, keys.private.scalar, z, cek);
  }

  /** Another recipient's entry is skipped or refused, whatever key type it was made for. */
  lemma ForeignEntry(suite: Suite, keys: Keys, cek: Bytes, cert: Certificate, other: Certificate, pkcs1v15: bool,
                     seed: Bytes, ri: RecipientInfo)
    requires keys.cert == Some(cert) && IdOf(other) != IdOf(cert)
    requires BuildRecipientInfo(suite, cek, other, pkcs1v15, seed) == Some(ri)
    ensures !Try(suite, keys, ri).Recovered?
  {
    if ri.Kari? {
      assert ri.keys[1..] == [];
      forall kek ensures UnwrapFirst(suite, kek, cert, ri.keys) == None {
        assert UnwrapFirst(suite, kek, cert, ri.keys[1..]) == None;
      }
    }
  }

  /** Entries that either give this key or do not succeed, at least one of which does. */
  lemma {:induction false} TryAllFinds(suite: Suite, keys: Keys, ris: seq<RecipientInfo>, cek: Bytes, lastErr: DecryptError)
    requires forall ri :: ri in ris ==> Try(suite, keys, ri) == Recovered(cek, []) || !Try(suite, keys, ri).Recovered?
    requires exists ri :: ri in ris && Try(suite, keys, ri) == Recovered(cek, [])
    ensures TryAll(suite, keys, ris, lastErr) == Recovered(cek, [])
  {
    HeadOrTail(ris);
    match Try(suite, keys, ris[0])
    case Recovered(_, _) =>
    case Refused(e) => TryAllFinds(suite, keys, ris[1..], cek, e);
    case Skipped => TryAllFinds(suite, keys, ris[1..], cek, lastErr);
  }

  lemma {:induction false} NoVersionWarnings(ris: seq<RecipientInfo>, idx: nat)
    requires forall ri :: ri in ris ==> ExpectedVersion(ri) == ActualVersion(ri)
    ensures VersionWarnings(ris, idx) == []
  {
    if ris != [] {
      HeadOrTail(ris);
      NoVersionWarnings(ris[1..], idx + 1);
    }
  }

  lemma BuiltVersion(suite: Suite, cek: Bytes, cert: Certificate, pkcs1v15: bool, seed: Bytes, ri: RecipientInfo)
    requires BuildRecipientInfo(suite, cek, cert, pkcs1v15, seed) == Some(ri)
    ensures ExpectedVersion(ri) == ActualVersion(ri)
  {
  }

  lemma {:induction false} RecoversCek(suite: Suite, keys: Keys, certs: seq<Certificate>, i: nat, cek: Bytes, pkcs1v15: bool,
                    seeds: seq<Bytes>, built: seq<RecipientInfo>, ris: seq<RecipientInfo>)
    requires suite.Lawful() && |cek| == 32 && |seeds| == |certs| && DistinctIds(certs) && i < |certs|
    requires BuildAll(suite, cek, certs, pkcs1v15, seeds) == Some(built) && multiset(ris) == multiset(built)
    requires keys.cert == Some(certs[i]) && KeyFor(suite, keys.private, certs[i])
    ensures RecoveredCek(suite, keys, ris, 32) == Ok((cek, []))
  {
    hide Try, BuildRecipientInfo, suite.Lawful, ExpectedVersion, ActualVersion, KeyFor, IdOf, DistinctIds;
    forall ri | ri in ris
      ensures GoodEntry(suite, keys, ri, cek)
    {
      assert ri in multiset(built);
      EntryOutcome(suite, keys, certs, i, cek, pkcs1v15, seeds, built, ri);
    }
    OwnEntry(suite, keys, cek, certs[i], pkcs1v15, seeds[i], built[i]);
    assert built[i] in multiset(ris);
    TryAllFinds(suite, keys, ris, cek, NoMatchingRecipient);
    NoVersionWarnings(ris, 0);
    assert VersionWarnings(ris, 0) + [] == [];
  }

  /** The entry gives this key without warnings or does not succeed, and its version is right. */
  predicate GoodEntry(suite: Suite, keys: Keys, ri: RecipientInfo, cek: Bytes) {
    && (Try(suite, keys, ri) == Recovered(cek, []) || !Try(suite, keys, ri).Recovered?)
    && ExpectedVersion(ri) == ActualVersion(ri)
  }

  lemma {:induction false} EntryOutcome(suite: Suite, keys: Keys, certs: seq<Certificate>, i: nat, cek: Bytes, pkcs1v15: bool,
                     seeds: seq<Bytes>, built: seq<RecipientInfo>, ri: RecipientInfo)
    requires suite.Lawful() && |seeds| == |certs| && DistinctIds(certs) && i < |certs|
    requires BuildAll(suite, cek, certs, pkcs1v15, seeds) == Some(built) && ri in built
    requires keys.cert == Some(certs[i]) && KeyFor(suite, keys.private, certs[i])
    ensures GoodEntry(suite, keys, ri, cek)
  {
    hide Try, BuildRecipientInfo, suite.Lawful, ExpectedVersion, ActualVersion, KeyFor, IdOf;
    var j :| 0 <= j < |built| && built[j] == ri;
    BuiltVersion(suite, cek, certs[j], pkcs1v15, seeds[j], ri);
    if IdOf(certs[j]) == IdOf(certs[i]) {
      OwnEntry(suite, keys, cek, certs[j], pkcs1v15, seeds[j], ri);
    } else {
      ForeignEntry(suite, keys, cek, certs[i], certs[j], pkcs1v15, seeds[j], ri);
    }
  }

  /**
   * Every recipient reads the plaintext, with no warnings, in whatever order the set of recipients arrives
   * and whichever entries are tried first.
   */
  lemma EveryRecipientReads(suite: Suite, certs: seq<Certificate>, plain: Bytes, cipher: ContentCipher, pkcs1v15: bool,
                            cek: Bytes, iv: Bytes, seeds: seq<Bytes>, m: Message,
                            ris: seq<RecipientInfo>, keys: Keys, i: nat)
    requires suite.Lawful() && |cek| == 32 && |seeds| == |certs| && DistinctIds(certs) && i < |certs|
    requires |iv| == if cipher == Aes256Cbc then 16 else 12
    requires EncryptFor(suite, certs, plain, cipher, pkcs1v15, cek, iv, seeds) == Some(m)
    requires multiset(ris) == multiset(m.recipients)
    requires keys.cert == Some(certs[i]) && KeyFor(suite, keys.private, certs[i])
    ensures DecryptMessage(suite, keys, m.(recipients := ris)) == Ok((Some(plain), []))
  {
    hide RecoveredCek, KeyFor, DistinctIds, EncryptPadded, CbcOpen, GcmOpen, BuildAll, AllKtri, suite.Lawful;
    RecoversCek(suite, keys, certs, i, cek, pkcs1v15, seeds, m.recipients, ris);
    CipherLaws(suite, cek);
    if cipher == Aes256Cbc {
      OpensCbc(suite, cek, iv, plain);
    } else {
      OpensGcm(suite, cek, iv, plain);
    }
  }

  lemma CipherLaws(suite: Suite, key: Bytes)
    requires suite.Lawful() && |key| == 32
    ensures suite.aes(key).Invertible() && suite.aes(key).size == BLOCK
  {
  }

  lemma OpensCbc(suite: Suite, key: Bytes, iv: Bytes, plain: Bytes)
    requires suite.Lawful() && |key| == 32 && |iv| == 16 && suite.aes(key).Invertible() && suite.aes(key).size == BLOCK
    ensures CbcOpen(suite, key, iv, EncryptPadded(suite.aes(key), iv, plain)) == Ok(plain)
  {
    hide EncryptPadded, DecryptPadded;
    DecryptPaddedExact(suite.aes(key), iv, EncryptPadded(suite.aes(key), iv, plain), plain);
  }

  lemma OpensGcm(suite: Suite, key: Bytes, nonce: Bytes, plain: Bytes)
    requires suite.Lawful() && |key| == 32 && |nonce| == 12
    ensures var (ct, tag) := suite.gcmEncrypt(key, nonce, [], plain);
      GcmOpen(suite, key, AesGcm(32, nonce, 16), [], ct, tag) == Ok(plain)
  {
  }

  // ---------- The version of EnvelopedData (src/decrypt_verify.rs:296-337) ----------

  /** RFC 5652, section 6.1, as the decrypting side computes it. */
  function EnvelopedVersion(otherCert: bool, otherCrl: bool, v2AttrCert: bool, originatorInfo: bool,
                            unprotectedAttrs: bool, ris: seq<RecipientInfo>): nat
  {
    if otherCert || otherCrl then 4
    else if v2AttrCert || exists ri :: ri in ris && (ri.Pwri? || ri.OtherRecipient?) then 3
    else if !originatorInfo && !unprotectedAttrs && forall ri :: ri in ris ==> ri.Ktri? && ri.version == 0 then 0
    else 2
  }

  /** The version `encrypt` writes is the one the decrypting side expects, for any order of recipients. */
  lemma EncryptVersionExpected(suite: Suite, certs: seq<Certificate>, plain: Bytes, pkcs1v15: bool, cek: Bytes, iv: Bytes,
                               seeds: seq<Bytes>, m: Message, ris: seq<RecipientInfo>)
    requires suite.Lawful() && |cek| == 32 && |seeds| == |certs| && |iv| == 16
    requires EncryptFor(suite, certs, plain, Aes256Cbc, pkcs1v15, cek, iv, seeds) == Some(m)
    requires multiset(ris) == multiset(m.recipients)
    ensures m.version == EnvelopedVersion(false, false, false, false, false, ris)
  {
    hide *;
    EncryptedRecipients(suite, certs, plain, pkcs1v15, cek, iv, seeds, m);
    var built := m.recipients;
    forall ri | ri in built ensures (ri.Ktri? && ri.version == 0) || ri.Kari? {
      var j :| 0 <= j < |built| && built[j] == ri;
      BuiltKind(suite, cek, certs[j], pkcs1v15, seeds[j], ri);
    }
    VersionOfKinds(built, ris);
  }

  lemma {:induction false} EncryptedRecipients(suite: Suite, certs: seq<Certificate>, plain: Bytes, pkcs1v15: bool, cek: Bytes, iv: Bytes,
                            seeds: seq<Bytes>, m: Message)
    requires suite.Lawful() && |cek| == 32 && |seeds| == |certs| && |iv| == 16
    requires EncryptFor(suite, certs, plain, Aes256Cbc, pkcs1v15, cek, iv, seeds) == Some(m)
    ensures BuildAll(suite, cek, certs, pkcs1v15, seeds) == Some(m.recipients)
    ensures m.Enveloped? && m.version == if AllKtri(m.recipients) then 0 else 2
  {
    hide suite.Lawful, EncryptPadded, BuildAll, AllKtri;
  }

  lemma VersionOfKinds(built: seq<RecipientInfo>, ris: seq<RecipientInfo>)
    requires multiset(ris) == multiset(built)
    requires forall ri :: ri in built ==> (ri.Ktri? && ri.version == 0) || ri.Kari?
    ensures EnvelopedVersion(false, false, false, false, false, ris) == if AllKtri(built) then 0 else 2
  {
    forall ri ensures ri in ris <==> ri in built {
      assert ri in multiset(ris) <==> ri in multiset(built);
    }
    if !AllKtri(built) {
      var j :| 0 <= j < |built| && !built[j].Ktri?;
      assert built[j] in ris;
    }
  }

  lemma BuiltKind(suite: Suite, cek: Bytes, cert: Certificate, pkcs1v15: bool, seed: Bytes, ri: RecipientInfo)
    requires BuildRecipientInfo(suite, cek, cert, pkcs1v15, seed) == Some(ri)
    ensures (ri.Ktri? && ri.version == 0) || ri.Kari?
  {
  }

  // ---------- The loops ----------

  /** The recipient loop of `recover_cek`, with its version pass and its early exit. */
  method RecoverCek(suite: Suite, keys: Keys, ris: seq<RecipientInfo>, expectedKeyLen: nat)
    returns (r: Result<(Bytes, seq<Warning>), DecryptError>)
    ensures r == RecoveredCek(suite, keys, ris, expectedKeyLen)
  {
    hide Try, ExpectedVersion;
    var warnings: seq<Warning> := [];
    assert ris[0..] == ris;
    for idx := 0 to |ris|
      invariant warnings + VersionWarnings(ris[idx..], idx) == VersionWarnings(ris, 0)
    {
      var expected := ExpectedVersion(ris[idx]);
      assert ris[idx..][1..] == ris[idx + 1..] && ris[idx..][0] == ris[idx];
      ExpectedHasVersion(ris[idx]);
      if expected.Some? && ris[idx].version != expected.value {
        var w := [VersionMismatch(expected.value, ris[idx].version, idx)];
        assert warnings + (w + VersionWarnings(ris[idx + 1..], idx + 1)) == warnings + w + VersionWarnings(ris[idx + 1..], idx + 1);
        warnings := warnings + w;
      }
    }
    assert warnings == VersionWarnings(ris, 0);
    var lastErr := NoMatchingRecipient;
    var cek: Option<(Bytes, seq<Warning>)> := None;
    var i := 0;
    while i < |ris| && cek.None?
      invariant 0 <= i <= |ris|
      invariant cek.None? ==> TryAll(suite, keys, ris[i..], lastErr) == TryAll(suite, keys, ris, NoMatchingRecipient)
      invariant cek.Some? ==> TryAll(suite, keys, ris, NoMatchingRecipient) == Recovered(cek.value.0, cek.value.1)
    {
      assert ris[i..][1..] == ris[i + 1..] && ris[i..][0] == ris[i];
      match Try(suite, keys, ris[i]) {
        case Skipped =>
        case Refused(e) => lastErr := e;
        case Recovered(k, w) => cek := Some((k, w));
      }
      i := i + 1;
    }
    if cek.None? {
      return Err(lastErr);
    }
    if |cek.value.0| != expectedKeyLen {
      return Err(CekLength);
    }
    return Ok((cek.value.0, warnings + cek.value.1));
  }

  lemma ExpectedHasVersion(ri: RecipientInfo)
    ensures ExpectedVersion(ri).Some? ==> !ri.OtherRecipient?
  {
  }

  /** The loop over the recipient certificates in `encrypt`: any failing certificate fails the whole message. */
  method BuildRecipients(suite: Suite, cek: Bytes, certs: seq<Certificate>, pkcs1v15: bool, seeds: seq<Bytes>)
    returns (r: Option<seq<RecipientInfo>>)
    requires |seeds| == |certs|
    ensures r == BuildAll(suite, cek, certs, pkcs1v15, seeds)
    ensures r.None? <==> exists i :: 0 <= i < |certs| && BuildRecipientInfo(suite, cek, certs[i], pkcs1v15, seeds[i]).None?
  {
    hide BuildRecipientInfo;
    var ris: seq<RecipientInfo> := [];
    for i := 0 to |certs|
      invariant |ris| == i
      invariant forall j :: 0 <= j < i ==> BuildRecipientInfo(suite, cek, certs[j], pkcs1v15, seeds[j]) == Some(ris[j])
    {
      var ri := BuildRecipientInfo(suite, cek, certs[i], pkcs1v15, seeds[i]);
      if ri.None? {
        BuildAllFails(suite, cek, certs, pkcs1v15, seeds, i);
        return None;
      }
      ris := ris + [ri.value];
    }
    BuildAllSucceeds(suite, cek, certs, pkcs1v15, seeds, ris);
    return Some(ris);
  }

  lemma {:induction false} BuildAllFails(suite: Suite, cek: Bytes, certs: seq<Certificate>, pkcs1v15: bool, seeds: seq<Bytes>, i: nat)
    requires |seeds| == |certs| && i < |certs| && BuildRecipientInfo(suite, cek, certs[i], pkcs1v15, seeds[i]).None?
    ensures BuildAll(suite, cek, certs, pkcs1v15, seeds).None?
  {
    hide BuildRecipientInfo;
    if i > 0 {
      BuildAllFails(suite, cek, certs[1..], pkcs1v15, seeds[1..], i - 1);
    }
  }

  lemma {:induction false} BuildAllSucceeds(suite: Suite, cek: Bytes, certs: seq<Certificate>, pkcs1v15: bool, seeds: seq<Bytes>,
                                            ris: seq<RecipientInfo>)
    requires |seeds| == |certs| == |ris|
    requires forall j :: 0 <= j < |ris| ==> BuildRecipientInfo(suite, cek, certs[j], pkcs1v15, seeds[j]) == Some(ris[j])
    ensures BuildAll(suite, cek, certs, pkcs1v15, seeds) == Some(ris)
  {
    hide BuildRecipientInfo;
    if ris != [] {
      BuildAllSucceeds(suite, cek, certs[1..], pkcs1v15, seeds[1..], ris[1..]);
      assert ris == [ris[0]] + ris[1..];
    }
  }

  /** The loop of `decrypt_kari_cek` over the keys of one KeyAgreeRecipientInfo. */
  method UnwrapMatching(suite: Suite, kek: Bytes, cert: Certificate, keys: seq<EncryptedKey>) returns (cek: Option<Bytes>)
    ensures cek == UnwrapFirst(suite, kek, cert, keys)
    ensures cek.None? <==> forall k :: k in keys && MatchesCert(k.rid, cert) ==> suite.unwrap(kek, k.octets).None?
  {
    hide MatchesCert;
    assert keys[0..] == keys;
    for i := 0 to |keys|
      invariant UnwrapFirst(suite, kek, cert, keys) == UnwrapFirst(suite, kek, cert, keys[i..])
      invariant forall k :: k in keys[..i] && MatchesCert(k.rid, cert) ==> suite.unwrap(kek, k.octets).None?
    {
      var rek := keys[i];
      assert keys[i..][0] == rek && keys[i..][1..] == keys[i + 1..];
      assert keys[..i + 1] == keys[..i] + [rek];
      if !MatchesCert(rek.rid, cert) {
        continue;
      }
      var unwrapped := suite.unwrap(kek, rek.octets);
      if unwrapped.Some? {
        assert rek in keys;
        return unwrapped;
      }
    }
    assert keys[..|keys|] == keys;
    return None;
  }

  // ---------- The hypotheses can be met ----------

  const RSA_SAMPLE: Certificate := Certificate([1], [1], RsaPublic([3], 2048), None)
  const EC_SAMPLE: Certificate := Certificate([1], [2], EcPublic(P256, Zeros32()), None)
  const X25519_SAMPLE: Certificate := Certificate([1], [3], X25519Public(Zeros32()), None)

  lemma SampleEntries(cek: Bytes)
    ensures BuildRecipientInfo(PlainSuite(), cek, RSA_SAMPLE, false, []).Some?
    ensures BuildRecipientInfo(PlainSuite(), cek, EC_SAMPLE, false, []).Some?
    ensures BuildRecipientInfo(PlainSuite(), cek, X25519_SAMPLE, false, []).Some?
  {
    assert [1 as byte] != Zeros32() by { assert |Zeros32()| == 32; }
  }

  /** In the plain suite there is a message of either kind for recipients of all three key types, and keys that fit. */
  lemma SampleMessage(plain: Bytes, cek: Bytes, iv: Bytes, cipher: ContentCipher)
    requires |cek| == 32 && |iv| == if cipher == Aes256Cbc then 16 else 12
    ensures PlainSuite().Lawful() && DistinctIds([RSA_SAMPLE, EC_SAMPLE, X25519_SAMPLE])
    ensures EncryptFor(PlainSuite(), [RSA_SAMPLE, EC_SAMPLE, X25519_SAMPLE], plain, cipher, false, cek, iv, [[], [], []]).Some?
    ensures KeyFor(PlainSuite(), RsaPrivate([3]), RSA_SAMPLE) && KeyFor(PlainSuite(), EcPrivate(P256, []), EC_SAMPLE)
    ensures KeyFor(PlainSuite(), X25519Private([]), X25519_SAMPLE)
  {
    LawfulSuiteExists();
    hide *;
    SampleKeys();
    SampleBuilt(cek);
    EncryptsWhenBuilt(PlainSuite(), [RSA_SAMPLE, EC_SAMPLE, X25519_SAMPLE], plain, cipher, false, cek, iv, [[], [], []]);
  }

  lemma SampleKeys()
    ensures DistinctIds([RSA_SAMPLE, EC_SAMPLE, X25519_SAMPLE])
    ensures KeyFor(PlainSuite(), RsaPrivate([3]), RSA_SAMPLE) && KeyFor(PlainSuite(), EcPrivate(P256, []), EC_SAMPLE)
    ensures KeyFor(PlainSuite(), X25519Private([]), X25519_SAMPLE)
  {
  }

  lemma {:induction false} EncryptsWhenBuilt(suite: Suite, certs: seq<Certificate>, plain: Bytes, cipher: ContentCipher, pkcs1v15: bool,
                          cek: Bytes, iv: Bytes, seeds: seq<Bytes>)
    requires suite.Lawful() && |cek| == 32 && |seeds| == |certs| && certs != []
    requires |iv| == if cipher == Aes256Cbc then 16 else 12
    requires BuildAll(suite, cek, certs, pkcs1v15, seeds).Some?
    ensures EncryptFor(suite, certs, plain, cipher, pkcs1v15, cek, iv, seeds).Some?
  {
    hide BuildAll, EncryptPadded, suite.Lawful, AllKtri;
    CipherLaws(suite, cek);
  }

  lemma {:induction false} SampleBuilt(cek: Bytes)
    ensures BuildAll(PlainSuite(), cek, [RSA_SAMPLE, EC_SAMPLE, X25519_SAMPLE], false, [[], [], []]).Some?
  {
    hide *;
    SampleEntries(cek);
    var certs, seeds: seq<Bytes> := [RSA_SAMPLE, EC_SAMPLE, X25519_SAMPLE], [[], [], []];
    var r0 := BuildRecipientInfo(PlainSuite(), cek, RSA_SAMPLE, false, []).value;
    var r1 := BuildRecipientInfo(PlainSuite(), cek, EC_SAMPLE, false, []).value;
    var r2 := BuildRecipientInfo(PlainSuite(), cek, X25519_SAMPLE, false, []).value;
    BuildAllSucceeds(PlainSuite(), cek, certs, false, seeds, [r0, r1, r2]);
  }
}
