// Which RecipientInfos open, and to which key, from any sender that follows RFC 5753, RFC 8418 and RFC 5652.
module EnvelopeLaws {
  import opened Octets
  import opened Arrangements
  import opened Identifiers
  import opened Envelope
  import Padding
  import Cbc

  /** The identifier is the certificate's issuer and serial number, or its subject key identifier. */
  ghost predicate Carries(rid: CertId, cert: Certificate) {
    rid == IssuerAndSerial(cert.issuer, cert.serial) || (cert.ski.Some? && rid == SubjectKeyId(cert.ski.value))
  }

  lemma CarriesExactly(rid: CertId, cert: Certificate)
    ensures MatchesCert(rid, cert) <==> Carries(rid, cert)
  {
  }

  // ---------- Key agreement ----------

  function WrapSize(alg: WrapAlgorithm): nat
    requires !alg.OtherWrap?
  {
    match alg case Aes128Wrap => 16 case Aes192Wrap => 24 case Aes256Wrap => 32
  }

  /** The size of the key encryption key in bits, as a 32-bit number (RFC 5753, section 7.2). */
  function SuppPubInfo(alg: WrapAlgorithm): Bytes
    requires !alg.OtherWrap?
  {
    match alg case Aes128Wrap => [0, 0, 0, 0x80] case Aes192Wrap => [0, 0, 0, 0xC0] case Aes256Wrap => [0, 0, 1, 0]
  }

  /** X9.63 takes any of the hashes, HKDF only the longer ones. */
  predicate Known(scheme: Scheme) {
    match scheme
    case StdDh(_) => true
    case CofactorDh(_) => true
    case HkdfDh(hash) => hash == Sha256 || hash == Sha384 || hash == Sha512
    case UnknownScheme => false
  }

  /** The key encryption key both sides have: the ukm is part of the shared info, and the salt of HKDF. */
  function KekFor(suite: Suite, scheme: Scheme, alg: WrapAlgorithm, ukm: Option<Bytes>, z: Bytes): Bytes
    requires Known(scheme) && !alg.OtherWrap?
  {
    var info := SharedInfo(alg, ukm, SuppPubInfo(alg));
    match scheme
    case StdDh(hash) => suite.x963(hash, z, info, WrapSize(alg))
    case CofactorDh(hash) => suite.x963(hash, z, info, WrapSize(alg))
    case HkdfDh(hash) => suite.hkdf(hash, ukm, z, info, WrapSize(alg))
  }

  function WeakHash(scheme: Scheme): seq<Warning> {
    if scheme == StdDh(Sha1) || scheme == CofactorDh(Sha1) then [WeakKeyEncryption] else []
  }

  /** Private key and originator's key are of one kind, and this is the secret they share. */
  ghost predicate Agree(suite: Suite, key: PrivateKey, originator: Originator, scheme: Scheme, z: Bytes) {
    && originator.OriginatorKey?
    && (key.EcPrivate? || key.X25519Private?)
    && (key.EcPrivate? ==>
          && originator.alg == EcPublicKeyAlg && (key.curve == P256 || key.curve == P384 || key.curve == P521)
          && suite.agree(OnCurve(key.curve), key.scalar, originator.public) == Some(z))
    && (key.X25519Private? ==>
          && originator.alg == X25519Alg && |originator.public| == 32 && !scheme.CofactorDh?
          && suite.agree(X25519Group, key.scalar, originator.public) == Some(z)
          && !(|z| == 32 && forall i :: 0 <= i < 32 ==> z[i] == 0))
  }

  /** The i-th key is the first of the certificate's keys that unwraps. */
  ghost predicate OpensAt(suite: Suite, kek: Bytes, cert: Certificate, keys: seq<EncryptedKey>, i: nat, cek: Bytes) {
    && i < |keys| && Carries(keys[i].rid, cert) && suite.unwrap(kek, keys[i].octets) == Some(cek)
    && forall j :: 0 <= j < i && Carries(keys[j].rid, cert) ==> suite.unwrap(kek, keys[j].octets).None?
  }

  /** The header can be used with this secret. */
  ghost predicate Agreed(suite: Suite, key: PrivateKey, ri: RecipientInfo, z: Bytes) {
    && ri.Kari? && Known(ri.scheme) && ri.wrapAlg.Some? && !ri.wrapAlg.value.OtherWrap?
    && Agree(suite, key, ri.originator, ri.scheme, z)
  }

  lemma {:induction false} FirstOpens(suite: Suite, kek: Bytes, cert: Certificate, keys: seq<EncryptedKey>, cek: Bytes)
    ensures UnwrapFirst(suite, kek, cert, keys) == Some(cek) <==> exists i: nat :: OpensAt(suite, kek, cert, keys, i, cek)
  {
    hide Carries, MatchesCert;
    if keys != [] {
      var rest := keys[1..];
      CarriesExactly(keys[0].rid, cert);
      FirstOpens(suite, kek, cert, rest, cek);
      if Carries(keys[0].rid, cert) && suite.unwrap(kek, keys[0].octets).Some? {
        if suite.unwrap(kek, keys[0].octets) == Some(cek) {
          assert OpensAt(suite, kek, cert, keys, 0, cek);
        }
      } else {
        forall i: nat ensures OpensAt(suite, kek, cert, keys, i + 1, cek) <==> OpensAt(suite, kek, cert, rest, i, cek) {
          OpensBehind(suite, kek, cert, keys, i, cek);
        }
        if i: nat :| OpensAt(suite, kek, cert, keys, i, cek) {
          assert OpensAt(suite, kek, cert, rest, i - 1, cek);
        }
      }
    }
  }

  lemma {:induction false} OpensBehind(suite: Suite, kek: Bytes, cert: Certificate, keys: seq<EncryptedKey>, i: nat, cek: Bytes)
    requires keys != [] && !(Carries(keys[0].rid, cert) && suite.unwrap(kek, keys[0].octets).Some?)
    ensures OpensAt(suite, kek, cert, keys, i + 1, cek) <==> OpensAt(suite, kek, cert, keys[1..], i, cek)
  {
    hide Carries;
    var rest := keys[1..];
    assert forall j :: 0 <= j < |rest| ==> rest[j] == keys[j + 1];
    if OpensAt(suite, kek, cert, rest, i, cek) {
      forall j | 0 <= j < i + 1 && Carries(keys[j].rid, cert) ensures suite.unwrap(kek, keys[j].octets).None? {
        if j > 0 {
          assert suite.unwrap(kek, rest[j - 1].octets).None?;
        }
      }
    }
  }

  lemma ZeroSecret(z: Bytes)
    ensures z == Zeros32() <==> |z| == 32 && forall i :: 0 <= i < 32 ==> z[i] == 0
  {
  }

  lemma {:induction false} SecretExactly(suite: Suite, key: PrivateKey, originator: Originator, scheme: Scheme, z: Bytes)
    requires originator.OriginatorKey?
    ensures SharedSecret(suite, key, originator, scheme) == Ok(z) <==> Agree(suite, key, originator, scheme, z)
  {
    ZeroSecret(z);
  }

  lemma KekExactly(suite: Suite, scheme: Scheme, alg: WrapAlgorithm, ukm: Option<Bytes>, z: Bytes)
    requires suite.Lawful()
    ensures !alg.OtherWrap? ==> KekLength(alg) == Some(WrapSize(alg))
    ensures KekLength(alg).Some? && Known(scheme) ==>
      DeriveKek(suite, scheme, z, ukm, DecryptInfo(alg, ukm, KekLength(alg).value), KekLength(alg).value)
      == Ok(KekFor(suite, scheme, alg, ukm, z))
    ensures KekLength(alg).Some? && !Known(scheme) ==>
      DeriveKek(suite, scheme, z, ukm, DecryptInfo(alg, ukm, KekLength(alg).value), KekLength(alg).value).Err?
  {
    assert forall h, info, n :: suite.hkdf(h, None, z, info, n) == suite.hkdf(h, Some([]), z, info, n);
    hide suite.Lawful;
  }

  /**
   * A KeyAgreeRecipientInfo gives a key exactly when its header can be used with the private key and the first key
   * for the certificate that unwraps under the agreed key gives it; the warning is that for SHA-1.
   */
  lemma {:induction false} AgreementExactly(suite: Suite, keys: Keys, ri: RecipientInfo, cek: Bytes, warnings: seq<Warning>)
    requires suite.Lawful() && ri.Kari?
    ensures Try(suite, keys, ri) == Recovered(cek, warnings) <==>
      && keys.cert.Some? && warnings == WeakHash(ri.scheme)
      && exists z, i: nat :: Agreed(suite, keys.private, ri, z)
           && OpensAt(suite, KekFor(suite, ri.scheme, ri.wrapAlg.value, ri.ukm, z), keys.cert.value, ri.keys, i, cek)
  {
    hide Agree, SharedSecret, UnwrapFirst, DeriveKek, DecryptInfo, KekFor, OpensAt, suite.Lawful;
    if keys.cert.Some? && ri.originator.OriginatorKey? && ri.wrapAlg.Some? {
      forall z ensures SharedSecret(suite, keys.private, ri.originator, ri.scheme) == Ok(z) <==>
        Agree(suite, keys.private, ri.originator, ri.scheme, z)
      {
        SecretExactly(suite, keys.private, ri.originator, ri.scheme, z);
      }
      forall z {
        KekExactly(suite, ri.scheme, ri.wrapAlg.value, ri.ukm, z);
      }
      forall kek ensures UnwrapFirst(suite, kek, keys.cert.value, ri.keys) == Some(cek) <==>
        exists i: nat :: OpensAt(suite, kek, keys.cert.value, ri.keys, i, cek)
      {
        FirstOpens(suite, kek, keys.cert.value, ri.keys, cek);
      }
    } else if ri.Kari? {
      AgreeNeedsOriginator(suite, keys.private, ri);
    }
  }

  lemma AgreeNeedsOriginator(suite: Suite, key: PrivateKey, ri: RecipientInfo)
    ensures forall z :: Agreed(suite, key, ri, z) ==> ri.originator.OriginatorKey? && ri.wrapAlg.Some?
  {
  }

  // ---------- Any conforming sender ----------

  /** What a sender chooses: its key, the scheme, the wrap algorithm and, if it likes, a ukm. */
  datatype Sender = Sender(ephemeral: Bytes, scheme: Scheme, alg: WrapAlgorithm, ukm: Option<Bytes>)

  /** X25519 knows no cofactor scheme (RFC 8418, section 7); the ciphers with which a key is wrapped are those of AES. */
  ghost predicate Conforms(s: Sender, key: PublicKey) {
    && Known(s.scheme) && !s.alg.OtherWrap?
    && ((key.EcPublic? && (key.curve == P256 || key.curve == P384 || key.curve == P521))
        || (key.X25519Public? && |key.key| == 32 && !s.scheme.CofactorDh?))
  }

  /** The secret the sender computes with the recipient's public key; that of X25519 must not be all zeros. */
  ghost predicate Secret(suite: Suite, s: Sender, key: PublicKey, z: Bytes) {
    && (key.EcPublic? ==> suite.agree(OnCurve(key.curve), s.ephemeral, key.point) == Some(z))
    && (key.X25519Public? ==>
          suite.agree(X25519Group, s.ephemeral, key.key) == Some(z) && !(|z| == 32 && forall i :: 0 <= i < 32 ==> z[i] == 0))
  }

  /** The header such a sender writes for the recipient's kind of key. */
  ghost predicate HeaderOf(suite: Suite, s: Sender, key: PublicKey, ri: RecipientInfo) {
    && ri.Kari? && ri.ukm == s.ukm && ri.scheme == s.scheme && ri.wrapAlg == Some(s.alg)
    && (key.EcPublic? ==> ri.originator == OriginatorKey(EcPublicKeyAlg, suite.dhPublic(OnCurve(key.curve), s.ephemeral)))
    && (key.X25519Public? ==> ri.originator == OriginatorKey(X25519Alg, suite.dhPublic(X25519Group, s.ephemeral)))
  }

  /**
   * Whatever sender that follows RFC 5753 or RFC 8418: the recipient gets the key wrapped for it, wherever it
   * stands among the keys, if no earlier key for the same certificate unwraps to something.
   */
  lemma {:induction false} AnySenderIsRead(suite: Suite, keys: Keys, cert: Certificate, s: Sender, z: Bytes, ri: RecipientInfo,
                                           cek: Bytes, i: nat)
    requires suite.Lawful() && keys.cert == Some(cert) && KeyFor(suite, keys.private, cert)
    requires Conforms(s, cert.spki) && Secret(suite, s, cert.spki, z) && HeaderOf(suite, s, cert.spki, ri)
    requires i < |ri.keys| && Carries(ri.keys[i].rid, cert)
    requires suite.wrap(KekFor(suite, s.scheme, s.alg, s.ukm, z), cek) == Some(ri.keys[i].octets)
    requires forall j :: 0 <= j < i && Carries(ri.keys[j].rid, cert) ==>
      suite.unwrap(KekFor(suite, s.scheme, s.alg, s.ukm, z), ri.keys[j].octets).None?
    ensures Try(suite, keys, ri) == Recovered(cek, WeakHash(s.scheme))
  {
    hide Try, KekFor, Carries, WeakHash;
    AgreedByBoth(suite, keys.private, cert, s, z, ri);
    Unwraps(suite, KekFor(suite, s.scheme, s.alg, s.ukm, z), cek);
    hide suite.Lawful, KeyFor, Conforms, Secret, HeaderOf;
    AgreementExactly(suite, keys, ri, cek, WeakHash(s.scheme));
    assert OpensAt(suite, KekFor(suite, s.scheme, s.alg, s.ukm, z), cert, ri.keys, i, cek);
  }

  lemma AgreedByBoth(suite: Suite, key: PrivateKey, cert: Certificate, s: Sender, z: Bytes, ri: RecipientInfo)
    requires suite.Lawful() && KeyFor(suite, key, cert)
    requires Conforms(s, cert.spki) && Secret(suite, s, cert.spki, z) && HeaderOf(suite, s, cert.spki, ri)
    ensures Agreed(suite, key, ri, z) && ri.scheme == s.scheme && ri.wrapAlg == Some(s.alg) && ri.ukm == s.ukm
  {
    assert forall g, a, b :: suite.agree(g, a, suite.dhPublic(g, b)) == suite.agree(g, b, suite.dhPublic(g, a));
    assert forall a :: |suite.dhPublic(X25519Group, a)| == 32;
    hide suite.Lawful, Known;
  }

  lemma Unwraps(suite: Suite, kek: Bytes, cek: Bytes)
    requires suite.Lawful()
    ensures suite.wrap(kek, cek).Some? ==> suite.unwrap(kek, suite.wrap(kek, cek).value) == Some(cek)
  {
  }

  // ---------- The entries this program writes ----------

  /** Stock choices: SHA-256, AES-256, no ukm. */
  function OwnSender(key: PublicKey, ephemeral: Bytes): Sender {
    Sender(ephemeral, if key.X25519Public? then HkdfDh(Sha256) else StdDh(Sha256), Aes256Wrap, None)
  }

  /** The one key of the entry is wrapped for the certificate, named by issuer and serial number. */
  ghost predicate WrappedFor(suite: Suite, s: Sender, cert: Certificate, z: Bytes, cek: Bytes, ri: RecipientInfo) {
    && ri.Kari? && ri.version == 3 && HeaderOf(suite, s, cert.spki, ri) && |ri.keys| == 1
    && ri.keys[0].rid == IssuerAndSerial(cert.issuer, cert.serial)
    && Known(s.scheme) && !s.alg.OtherWrap?
    && suite.wrap(KekFor(suite, s.scheme, s.alg, s.ukm, z), cek) == Some(ri.keys[0].octets)
  }

  /** The entry is one a conforming sender writes, and is written whenever that sender can. */
  ghost predicate EntryOf(suite: Suite, s: Sender, cert: Certificate, cek: Bytes, built: Option<RecipientInfo>) {
    && (built.Some? ==> Conforms(s, cert.spki))
    && (built.Some? ==> exists z :: Secret(suite, s, cert.spki, z) && WrappedFor(suite, s, cert, z, cek, built.value))
    && (built.None? && Conforms(s, cert.spki) ==>
          forall z :: Secret(suite, s, cert.spki, z) ==> suite.wrap(KekFor(suite, s.scheme, s.alg, s.ukm, z), cek).None?)
  }

  lemma {:induction false} EcEntryExactly(suite: Suite, cek: Bytes, cert: Certificate, seed: Bytes)
    requires cert.spki.EcPublic?
    ensures EntryOf(suite, OwnSender(cert.spki, seed), cert, cek,
                    if Supported(cert.spki) then BuildKari(suite, cek, cert, seed) else None)
  {
    var s := OwnSender(cert.spki, seed);
    var agreed := suite.agree(OnCurve(cert.spki.curve), seed, cert.spki.point);
    if Supported(cert.spki) && BuildKari(suite, cek, cert, seed).Some? {
      assert Secret(suite, s, cert.spki, agreed.value)
          && WrappedFor(suite, s, cert, agreed.value, cek, BuildKari(suite, cek, cert, seed).value);
    }
  }

  lemma {:induction false} X25519EntryExactly(suite: Suite, cek: Bytes, cert: Certificate, seed: Bytes)
    requires cert.spki.X25519Public?
    ensures EntryOf(suite, OwnSender(cert.spki, seed), cert, cek, BuildKariX25519(suite, cek, cert, seed))
  {
    hide Zeros32;
    var s := OwnSender(cert.spki, seed);
    var agreed := suite.agree(X25519Group, seed, cert.spki.key);
    if agreed.Some? {
      ZeroSecret(agreed.value);
    }
    if BuildKariX25519(suite, cek, cert, seed).Some? {
      assert Secret(suite, s, cert.spki, agreed.value)
          && WrappedFor(suite, s, cert, agreed.value, cek, BuildKariX25519(suite, cek, cert, seed).value);
    }
  }

  /** An entry for a key agreement key. */
  lemma {:induction false} AgreementEntryExactly(suite: Suite, cek: Bytes, cert: Certificate, pkcs1v15: bool, seed: Bytes)
    requires cert.spki.EcPublic? || cert.spki.X25519Public?
    ensures EntryOf(suite, OwnSender(cert.spki, seed), cert, cek, BuildRecipientInfo(suite, cek, cert, pkcs1v15, seed))
  {
    hide EntryOf, BuildKari, BuildKariX25519;
    if cert.spki.EcPublic? {
      EcEntryExactly(suite, cek, cert, seed);
    } else {
      X25519EntryExactly(suite, cek, cert, seed);
    }
  }

  /** RSA keys of 2048 to 4096 bits get OAEP with SHA-256 throughout, or PKCS #1 v1.5 where that is asked for. */
  lemma TransportEntryExactly(suite: Suite, cek: Bytes, cert: Certificate, pkcs1v15: bool, seed: Bytes)
    requires cert.spki.RsaPublic? || cert.spki.UnsupportedPublic?
    ensures var built := BuildRecipientInfo(suite, cek, cert, pkcs1v15, seed);
      var transport := if pkcs1v15 then Pkcs1v15 else Oaep(Sha256, Sha256, true, true);
      && (built.Some? <==>
            && cert.spki.RsaPublic? && 2048 <= cert.spki.bits <= 4096
            && suite.rsaEncrypt(cert.spki.key, transport, seed, cek).Some?)
      && (built.Some? ==>
            && built.value.Ktri? && built.value.version == 0 && built.value.transport == transport
            && built.value.rid == IssuerAndSerial(cert.issuer, cert.serial)
            && Some(built.value.encryptedKey) == suite.rsaEncrypt(cert.spki.key, transport, seed, cek))
  {
  }

  // ---------- Key transport ----------

  /** RSAES-PKCS1-v1_5, or OAEP with MGF1, no label, and hashes other than SHA-224. */
  ghost predicate Transports(transport: KeyTransport) {
    || transport == Pkcs1v15
    || (transport.Oaep? && transport.mgf1 && transport.defaultLabel && transport.hash != Sha224 && transport.mgfHash != Sha224)
  }

  /** A KeyTransRecipientInfo gives exactly what RSA gives, to the certificate it names, with a warning for SHA-1. */
  lemma TransportExactly(suite: Suite, keys: Keys, ri: RecipientInfo, cek: Bytes, warnings: seq<Warning>)
    requires ri.Ktri?
    ensures Try(suite, keys, ri) == Recovered(cek, warnings) <==>
      && keys.cert.Some? && Carries(ri.rid, keys.cert.value) && keys.private.RsaPrivate? && Transports(ri.transport)
      && suite.rsaDecrypt(keys.private.key, ri.transport, ri.encryptedKey) == Some(cek)
      && warnings == if ri.transport.Oaep? && (ri.transport.hash == Sha1 || ri.transport.mgfHash == Sha1) then [WeakKeyEncryption] else []
  {
    if keys.cert.Some? {
      CarriesExactly(ri.rid, keys.cert.value);
    }
  }

  // ---------- The recipients of a message ----------

  /** The version is not the one of RFC 5652, sections 6.2.1 to 6.2.4: 0 or 2, 3, 4 and 0. */
  ghost predicate Tells(w: Warning, ri: RecipientInfo, at: nat) {
    && w.VersionMismatch? && w.idx == at && !ri.OtherRecipient? && w.actual == ri.version && w.expected != w.actual
    && (ri.Ktri? && ri.rid.IssuerAndSerial? ==> w.expected == 0)
    && (ri.Ktri? && ri.rid.SubjectKeyId? ==> w.expected == 2)
    && (ri.Kari? ==> w.expected == 3)
    && (ri.Kekri? ==> w.expected == 4)
    && (ri.Pwri? ==> w.expected == 0)
  }

  ghost predicate Told(ris: seq<RecipientInfo>, idx: nat, w: Warning) {
    exists i :: 0 <= i < |ris| && Tells(w, ris[i], idx + i)
  }

  /** Every wrong version is told with its position, nothing else is, and in the order of the recipients. */
  lemma {:induction false} VersionWarningsExactly(ris: seq<RecipientInfo>, idx: nat)
    ensures var ws := VersionWarnings(ris, idx);
      && (forall w :: w in ws <==> Told(ris, idx, w))
      && (forall k :: 0 <= k < |ws| ==> ws[k].VersionMismatch?)
      && (forall k, l :: 0 <= k < l < |ws| ==> ws[k].idx < ws[l].idx)
  {
    hide Told;
    if ris == [] {
      forall w ensures !Told(ris, idx, w) {
        NothingTold(idx, w);
      }
    } else {
      var rest, ws := VersionWarnings(ris[1..], idx + 1), VersionWarnings(ris, idx);
      VersionWarningsExactly(ris[1..], idx + 1);
      forall w ensures Told(ris, idx, w) <==> Tells(w, ris[0], idx) || Told(ris[1..], idx + 1, w) {
        ToldStep(ris, idx, w);
      }
      forall w ensures Told(ris[1..], idx + 1, w) ==> w.VersionMismatch? && w.idx > idx {
        ToldBehind(ris[1..], idx + 1, w);
      }
      FirstTold(ris, idx);
      if ws != rest {
        assert forall k :: 0 < k < |ws| ==> ws[k] == rest[k - 1] && ws[k] in rest;
      }
    }
  }

  lemma NothingTold(idx: nat, w: Warning)
    ensures !Told([], idx, w)
  {
  }

  lemma {:induction false} ToldStep(ris: seq<RecipientInfo>, idx: nat, w: Warning)
    requires ris != []
    ensures Told(ris, idx, w) <==> Tells(w, ris[0], idx) || Told(ris[1..], idx + 1, w)
  {
    hide Tells;
    if i :| 0 <= i < |ris| && Tells(w, ris[i], idx + i) {
      if i > 0 {
        assert Tells(w, ris[1..][i - 1], idx + 1 + (i - 1));
      }
    }
    if i :| 0 <= i < |ris[1..]| && Tells(w, ris[1..][i], idx + 1 + i) {
      assert Tells(w, ris[i + 1], idx + (i + 1));
    }
  }

  lemma ToldBehind(ris: seq<RecipientInfo>, idx: nat, w: Warning)
    ensures Told(ris, idx, w) ==> w.VersionMismatch? && w.idx >= idx
  {
  }

  lemma {:induction false} FirstTold(ris: seq<RecipientInfo>, idx: nat)
    requires ris != []
    ensures var rest, ws := VersionWarnings(ris[1..], idx + 1), VersionWarnings(ris, idx);
      || (ws == rest && forall w :: !Tells(w, ris[0], idx))
      || (ws == [ws[0]] + rest && forall w :: Tells(w, ris[0], idx) <==> w == ws[0])
  {
  }

  ghost predicate GivesAt(suite: Suite, keys: Keys, ris: seq<RecipientInfo>, i: nat, cek: Bytes, told: seq<Warning>) {
    && i < |ris| && Try(suite, keys, ris[i]) == Recovered(cek, told)
    && forall j :: 0 <= j < i ==> !Try(suite, keys, ris[j]).Recovered?
  }

  lemma {:induction false} TryAllExactly(suite: Suite, keys: Keys, ris: seq<RecipientInfo>, lastErr: DecryptError, cek: Bytes, told: seq<Warning>)
    ensures TryAll(suite, keys, ris, lastErr) == Recovered(cek, told) <==> exists i: nat :: GivesAt(suite, keys, ris, i, cek, told)
  {
    hide Try;
    if ris != [] {
      var rest := ris[1..];
      match Try(suite, keys, ris[0])
      case Recovered(k, w) =>
        if k == cek && w == told {
          assert GivesAt(suite, keys, ris, 0, cek, told);
        }
      case Skipped =>
        TryAllExactly(suite, keys, rest, lastErr, cek, told);
        GivesBehind(suite, keys, ris, cek, told);
      case Refused(e) =>
        TryAllExactly(suite, keys, rest, e, cek, told);
        GivesBehind(suite, keys, ris, cek, told);
    }
  }

  lemma {:induction false} GivesBehind(suite: Suite, keys: Keys, ris: seq<RecipientInfo>, cek: Bytes, told: seq<Warning>)
    requires ris != [] && !Try(suite, keys, ris[0]).Recovered?
    ensures (exists i: nat :: GivesAt(suite, keys, ris, i, cek, told)) <==> exists i: nat :: GivesAt(suite, keys, ris[1..], i, cek, told)
  {
    hide Try;
    var rest := ris[1..];
    assert forall j :: 0 <= j < |rest| ==> rest[j] == ris[j + 1];
    if i: nat :| GivesAt(suite, keys, ris, i, cek, told) {
      assert GivesAt(suite, keys, rest, i - 1, cek, told);
    }
    if i: nat :| GivesAt(suite, keys, rest, i, cek, told) {
      forall j | 0 <= j < i + 1 ensures !Try(suite, keys, ris[j]).Recovered? {
        if j > 0 {
          assert !Try(suite, keys, rest[j - 1]).Recovered?;
        }
      }
      assert GivesAt(suite, keys, ris, i + 1, cek, told);
    }
  }

  /** The key of the first recipient that gives one, if it has the length the cipher needs. */
  lemma {:induction false} RecoveredExactly(suite: Suite, keys: Keys, ris: seq<RecipientInfo>, keyLen: nat, cek: Bytes, warnings: seq<Warning>)
    ensures RecoveredCek(suite, keys, ris, keyLen) == Ok((cek, warnings)) <==>
      && |cek| == keyLen
      && exists i: nat, told :: GivesAt(suite, keys, ris, i, cek, told) && warnings == VersionWarnings(ris, 0) + told
  {
    hide GivesAt, VersionWarnings, TryAll, Try;
    var first := TryAll(suite, keys, ris, NoMatchingRecipient);
    if first.Recovered? {
      TryAllExactly(suite, keys, ris, NoMatchingRecipient, first.cek, first.warnings);
    }
    if i: nat, told :| GivesAt(suite, keys, ris, i, cek, told) && warnings == VersionWarnings(ris, 0) + told {
      TryAllExactly(suite, keys, ris, NoMatchingRecipient, cek, told);
    }
  }

  /** Recipient i is the last that is not skipped. */
  ghost predicate LastTried(suite: Suite, keys: Keys, ris: seq<RecipientInfo>, i: nat) {
    i < |ris| && !Try(suite, keys, ris[i]).Skipped? && forall j :: i < j < |ris| ==> Try(suite, keys, ris[j]).Skipped?
  }

  lemma {:induction false} LastError(suite: Suite, keys: Keys, ris: seq<RecipientInfo>, lastErr: DecryptError)
    requires forall ri :: ri in ris ==> !Try(suite, keys, ri).Recovered?
    ensures TryAll(suite, keys, ris, lastErr).Refused?
    ensures (forall ri :: ri in ris ==> Try(suite, keys, ri).Skipped?) ==> TryAll(suite, keys, ris, lastErr) == Refused(lastErr)
    ensures forall i: nat :: LastTried(suite, keys, ris, i) ==> TryAll(suite, keys, ris, lastErr) == Try(suite, keys, ris[i])
  {
    hide Try;
    if ris != [] {
      var rest := ris[1..];
      HeadOrTail(ris);
      var next := if Try(suite, keys, ris[0]).Refused? then Try(suite, keys, ris[0]).error else lastErr;
      LastError(suite, keys, rest, next);
      assert forall j :: 0 <= j < |rest| ==> rest[j] == ris[j + 1];
      forall i: nat | LastTried(suite, keys, ris, i) ensures TryAll(suite, keys, ris, lastErr) == Try(suite, keys, ris[i]) {
        if i > 0 {
          assert LastTried(suite, keys, rest, i - 1);
        } else {
          forall ri | ri in rest ensures Try(suite, keys, ri).Skipped? {
            var j :| 0 <= j < |rest| && rest[j] == ri;
            assert Try(suite, keys, ris[j + 1]).Skipped?;
          }
        }
      }
    }
  }

  /** Without a key the error is that of the last entry tried; without any such entry it is that nobody matches. */
  lemma {:induction false} NotRecovered(suite: Suite, keys: Keys, ris: seq<RecipientInfo>, keyLen: nat)
    requires forall ri :: ri in ris ==> !Try(suite, keys, ri).Recovered?
    ensures (forall ri :: ri in ris ==> Try(suite, keys, ri).Skipped?) ==> RecoveredCek(suite, keys, ris, keyLen) == Err(NoMatchingRecipient)
    ensures forall i: nat :: LastTried(suite, keys, ris, i) ==>
      Try(suite, keys, ris[i]).Refused? && RecoveredCek(suite, keys, ris, keyLen) == Err(Try(suite, keys, ris[i]).error)
  {
    hide Try, TryAll;
    LastError(suite, keys, ris, NoMatchingRecipient);
  }

  // ---------- The content ----------

  /** The cipher the message names, directly or as the one for which its key is derived (RFC 9709). */
  ghost predicate Cipher(alg: ContentAlgorithm, inner: ContentAlgorithm) {
    inner == if alg.CekHkdf? then alg.inner else alg
  }

  ghost predicate KeyOf(suite: Suite, alg: ContentAlgorithm, cek: Bytes, key: Bytes) {
    (alg.CekHkdf? ==> suite.cekHkdf(cek, alg.innerDer) == Some(key)) && (!alg.CekHkdf? ==> key == cek)
  }

  /** The content is this plaintext under this key: CBC with padding for EnvelopedData, GCM for AuthEnvelopedData. */
  ghost predicate Encloses(suite: Suite, m: Message, alg: ContentAlgorithm, key: Bytes, plain: Bytes)
    requires suite.Lawful()
  {
    && m.content.Some? && (|key| == 16 || |key| == 24 || |key| == 32)
    && (m.Enveloped? ==>
          && alg.AesCbc? && |alg.iv| == 16
          && Padding.EncryptPadded(suite.aes(key), alg.iv, plain) == m.content.value)
    && (m.AuthEnveloped? ==>
          && alg.AesGcm? && |m.mac| == alg.icvLen && 12 <= |m.mac| <= 16 && 12 <= |alg.nonce| <= 16
          && suite.gcmDecrypt(key, alg.nonce, m.aad, m.content.value, m.mac) == Some(plain))
  }

  lemma AesOf(suite: Suite, key: Bytes)
    requires suite.Lawful() && |key| in KEY_LENGTHS
    ensures suite.aes(key).Invertible() && suite.aes(key).size == Padding.BLOCK
  {
    hide Cbc.Cipher.Invertible;
  }

  lemma {:induction false} CbcOpensExactly(suite: Suite, key: Bytes, iv: Bytes, ct: Bytes, plain: Bytes)
    requires suite.Lawful()
    ensures CbcOpen(suite, key, iv, ct) == Ok(plain) <==>
      && (|key| == 16 || |key| == 24 || |key| == 32) && |iv| == 16
      && Padding.EncryptPadded(suite.aes(key), iv, plain) == ct
  {
    hide Padding.EncryptPadded, Padding.DecryptPadded, suite.Lawful, Cbc.Cipher.Invertible;
    if |key| in KEY_LENGTHS && |iv| == 16 {
      AesOf(suite, key);
      Padding.DecryptPaddedExact(suite.aes(key), iv, ct, plain);
    }
  }


  lemma OpenedExactly(suite: Suite, m: Message, alg: ContentAlgorithm, key: Bytes, plain: Bytes)
    requires suite.Lawful() && m.content.Some? && if m.Enveloped? then alg.AesCbc? else alg.AesGcm?
    ensures Opened(suite, m, alg, key) == Ok(plain) <==> Encloses(suite, m, alg, key, plain)
  {
    hide suite.Lawful, CbcOpen, Padding.EncryptPadded;
    if m.Enveloped? {
      CbcOpensExactly(suite, key, alg.iv, m.content.value, plain);
    }
  }

  /** A message is read exactly as what it encloses under the recovered key. */
  lemma {:induction false} DecryptsExactly(suite: Suite, keys: Keys, m: Message, plain: Bytes, warnings: seq<Warning>)
    requires suite.Lawful()
    ensures DecryptMessage(suite, keys, m) == Ok((Some(plain), warnings)) <==>
      && m.isData
      && exists alg, cek, key :: Cipher(m.alg, alg) && KeyOf(suite, m.alg, cek, key)
           && (alg.AesCbc? || alg.AesGcm?) && (alg.keyLen == 16 || alg.keyLen == 24 || alg.keyLen == 32)
           && RecoveredCek(suite, keys, m.recipients, alg.keyLen) == Ok((cek, warnings))
           && Encloses(suite, m, alg, key, plain)
  {
    hide suite.Lawful, RecoveredCek, CbcOpen, GcmOpen, Encloses;
    var alg := ResolveHkdf(m.alg).0;
    if m.content.Some? && if m.Enveloped? then alg.AesCbc? else alg.AesGcm? {
      forall key ensures Opened(suite, m, alg, key) == Ok(plain) <==> Encloses(suite, m, alg, key, plain) {
        OpenedExactly(suite, m, alg, key, plain);
      }
      if DecryptMessage(suite, keys, m) == Ok((Some(plain), warnings)) {
        var cek := RecoveredCek(suite, keys, m.recipients, alg.keyLen).value.0;
        var key := ContentKey(suite, cek, ResolveHkdf(m.alg).1).value;
        assert Opened(suite, m, alg, key) == Ok(plain);
        assert Cipher(m.alg, alg) && KeyOf(suite, m.alg, cek, key) && Encloses(suite, m, alg, key, plain);
      }
    } else {
      NothingEnclosed(suite, m, plain);
    }
  }

  lemma NothingEnclosed(suite: Suite, m: Message, plain: Bytes)
    requires suite.Lawful()
    ensures forall alg, key :: Encloses(suite, m, alg, key, plain) ==> m.content.Some? && if m.Enveloped? then alg.AesCbc? else alg.AesGcm?
  {
    hide suite.Lawful, Padding.EncryptPadded;
  }

  /** RFC 5652, section 6.1, version by version. */
  lemma EnvelopedVersionExactly(otherCert: bool, otherCrl: bool, v2AttrCert: bool, originatorInfo: bool,
                                unprotectedAttrs: bool, ris: seq<RecipientInfo>)
    ensures var v := EnvelopedVersion(otherCert, otherCrl, v2AttrCert, originatorInfo, unprotectedAttrs, ris);
      var pwriOrOther := exists i :: 0 <= i < |ris| && (ris[i].Pwri? || ris[i].OtherRecipient?);
      && (v == 4 <==> otherCert || otherCrl)
      && (v == 3 <==> v != 4 && (v2AttrCert || pwriOrOther))
      && (v == 0 <==>
            && !otherCert && !otherCrl && !v2AttrCert && !originatorInfo && !unprotectedAttrs
            && forall i :: 0 <= i < |ris| ==> ris[i].Ktri? && ris[i].version == 0)
      && (v == 0 || v == 2 || v == 3 || v == 4)
  {
    var v := EnvelopedVersion(otherCert, otherCrl, v2AttrCert, originatorInfo, unprotectedAttrs, ris);
    forall i | 0 <= i < |ris| ensures ris[i] in ris {
    }
  }

  /** The message written: its ciphers are those of AES-256, with the IV or nonce given, a tag of 16 octets and no attributes. */
  lemma {:induction false} WrittenExactly(suite: Suite, certs: seq<Certificate>, plain: Bytes, cipher: ContentCipher, pkcs1v15: bool,
                                          cek: Bytes, iv: Bytes, seeds: seq<Bytes>, m: Message)
    requires suite.Lawful() && |cek| == 32 && |seeds| == |certs|
    requires |iv| == if cipher == Aes256Cbc then 16 else 12
    requires EncryptFor(suite, certs, plain, cipher, pkcs1v15, cek, iv, seeds) == Some(m)
    ensures m.isData && certs != [] && BuildAll(suite, cek, certs, pkcs1v15, seeds) == Some(m.recipients)
    ensures cipher == Aes256Cbc ==>
      m.Enveloped? && m.alg == AesCbc(32, iv) && m.content == Some(Padding.EncryptPadded(suite.aes(cek), iv, plain))
      && m.version == if (forall i :: 0 <= i < |m.recipients| ==> m.recipients[i].Ktri?) then 0 else 2
    ensures cipher == Aes256Gcm ==>
      m.AuthEnveloped? && m.version == 0 && m.alg == AesGcm(32, iv, 16) && m.aad == []
      && m.content == Some(suite.gcmEncrypt(cek, iv, [], plain).0) && m.mac == suite.gcmEncrypt(cek, iv, [], plain).1 && |m.mac| == 16
  {
    hide Padding.EncryptPadded, BuildAll;
    assert |suite.gcmEncrypt(cek, iv, [], plain).1| == 16;
    hide suite.Lawful;
  }

  /** Encryption fails exactly without recipients, or when an entry cannot be built. */
  lemma WrittenUnless(suite: Suite, certs: seq<Certificate>, plain: Bytes, cipher: ContentCipher, pkcs1v15: bool,
                      cek: Bytes, iv: Bytes, seeds: seq<Bytes>)
    requires suite.Lawful() && |cek| == 32 && |seeds| == |certs|
    requires |iv| == if cipher == Aes256Cbc then 16 else 12
    ensures EncryptFor(suite, certs, plain, cipher, pkcs1v15, cek, iv, seeds).None? <==>
      certs == [] || exists i :: 0 <= i < |certs| && BuildRecipientInfo(suite, cek, certs[i], pkcs1v15, seeds[i]).None?
  {
    hide Padding.EncryptPadded, BuildAll, BuildRecipientInfo, suite.Lawful, AllKtri;
    AesOf(suite, cek);
    BuildsAll(suite, cek, certs, pkcs1v15, seeds);
  }

  lemma {:induction false} BuildsAll(suite: Suite, cek: Bytes, certs: seq<Certificate>, pkcs1v15: bool, seeds: seq<Bytes>)
    requires |seeds| == |certs|
    ensures BuildAll(suite, cek, certs, pkcs1v15, seeds).None? <==>
      exists i :: 0 <= i < |certs| && BuildRecipientInfo(suite, cek, certs[i], pkcs1v15, seeds[i]).None?
  {
    hide BuildRecipientInfo;
    if certs != [] {
      BuildsAll(suite, cek, certs[1..], pkcs1v15, seeds[1..]);
      if i :| 0 <= i < |certs| && BuildRecipientInfo(suite, cek, certs[i], pkcs1v15, seeds[i]).None? {
        if i > 0 {
          assert BuildRecipientInfo(suite, cek, certs[1..][i - 1], pkcs1v15, seeds[1..][i - 1]).None?;
        }
      }
      if i :| 0 <= i < |certs[1..]| && BuildRecipientInfo(suite, cek, certs[1..][i], pkcs1v15, seeds[1..][i]).None? {
        assert BuildRecipientInfo(suite, cek, certs[i + 1], pkcs1v15, seeds[i + 1]).None?;
      }
    }
  }

  /** A message without content gives nothing, and no warning; content of another type is refused at once. */
  lemma NothingToDecrypt(suite: Suite, keys: Keys, m: Message)
    requires suite.Lawful()
    ensures m.content.None? <==> exists ws :: DecryptMessage(suite, keys, m) == Ok((None, ws))
    ensures m.content.None? ==> DecryptMessage(suite, keys, m) == Ok((None, []))
    ensures m.content.Some? && !m.isData ==> DecryptMessage(suite, keys, m) == Err(WrongContentType)
  {
    hide suite.Lawful, RecoveredCek, CbcOpen, GcmOpen, ContentKey;
  }
}
