// Stapled OCSP evaluation (src/ocsp.rs) and its use along a verified chain (src/lib.rs:1079-1139).
module Ocsp {
  import opened Arrangements
  import opened Octets

  datatype Status = Good | Revoked | Unknown

  /** A certificate as far as OCSP looks at it. Encodings that the writer cannot produce are None. */
  datatype Certificate = Certificate(
    subject: Option<Bytes>, issuer: Option<Bytes>, serial: Bytes, keyBits: Bytes,
    notBefore: Option<int>, notAfter: Option<int>,
    aki: Option<Bytes>, ski: Option<Bytes>,
    signaturePermitted: bool, tbsEncodes: bool, keyUsable: bool,
    extensionsParse: bool, ocspSigning: bool, noCheck: bool)

  datatype HashName = Sha1 | Sha256 | OtherHash

  /** `nextUpdate` is absent, unparseable, or an instant. Instants are seconds. */
  datatype SingleResponse = SingleResponse(
    hashName: HashName, issuerNameHash: Bytes, issuerKeyHash: Bytes, serial: Bytes,
    status: Status, thisUpdate: Option<int>, nextUpdate: Option<Option<int>>)

  datatype ResponderId = ByName(name: Option<Bytes>) | ByKey(hash: Bytes)

  datatype Response = Response(
    tbsEncodes: bool, algorithmPermitted: bool, responder: ResponderId,
    certs: seq<Certificate>, singles: seq<SingleResponse>)

  datatype OcspError = Encoding | DisallowedAlgorithm | SignatureInvalid | MalformedKey

  /** Hashes and signature checks. */
  datatype Crypto = Crypto(
    sha1: Bytes -> Bytes, sha256: Bytes -> Bytes,
    signed: (Response, Certificate) -> bool,       // the response's signature verifies under the certificate's key
    issued: (Certificate, Certificate) -> bool)    // the first certificate's signature verifies under the second's key

  // ---------- Matching and freshness ----------

  /** `names_match` */
  function NamesMatch(a: Option<Bytes>, b: Option<Bytes>): Result<bool, OcspError> {
    if a.None? || b.None? then Err(Encoding) else Ok(a == b)
  }

  /** `cert_id_matches` */
  predicate CertIdMatches(c: Crypto, s: SingleResponse, leaf: Certificate, issuer: Certificate) {
    && leaf.issuer.Some? && s.hashName != OtherHash
    && var h := if s.hashName == Sha1 then c.sha1 else c.sha256;
    s.issuerNameHash == h(leaf.issuer.value) && s.issuerKeyHash == h(issuer.keyBits) && s.serial == leaf.serial
  }

  const MAX_AGE_WITHOUT_NEXT_UPDATE: int := 7 * 86400

  function Validity(cert: Certificate): Option<(int, int)> {
    if cert.notBefore.Some? && cert.notAfter.Some? then Some((cert.notBefore.value, cert.notAfter.value)) else None
  }

  predicate Within(now: int, window: (int, int)) { window.0 <= now <= window.1 }

  /** `single_response_fresh` */
  predicate Fresh(s: SingleResponse, now: int, responder: (int, int)) {
    && s.thisUpdate.Some? && s.thisUpdate.value <= now
    && s.nextUpdate != Some(None)
    && now <= (match s.nextUpdate
               case Some(Some(next)) => next
               case _ => s.thisUpdate.value + MAX_AGE_WITHOUT_NEXT_UPDATE)
    && Within(now, responder)
  }

  // ---------- verify_ocsp_signature ----------

  function IdMatches(c: Crypto, id: ResponderId, cert: Certificate): Result<bool, OcspError> {
    match id
    case ByName(name) => NamesMatch(name, cert.subject)
    case ByKey(hash) => Ok(hash == c.sha1(cert.keyBits))
  }

  /** `check_aki_matches_issuer` */
  predicate AkiMatches(c: Crypto, child: Certificate, issuer: Certificate) {
    child.aki.None? || child.aki.value == (if issuer.ski.Some? then issuer.ski.value else c.sha1(issuer.keyBits))
  }

  /** A responder the issuer authorised, valid at `now`. */
  predicate Delegated(c: Crypto, cert: Certificate, issuer: Certificate, now: int) {
    && AkiMatches(c, cert, issuer) && cert.signaturePermitted && cert.tbsEncodes && c.issued(cert, issuer)
    && cert.extensionsParse && cert.ocspSigning && cert.noCheck
    && Validity(cert).Some? && Within(now, Validity(cert).value)
    && cert.keyUsable
  }

  datatype Candidate = Abort(error: OcspError) | Rejected | Accepted(window: (int, int))

  /** One turn of the loop over the certificates of the response. */
  function Consider(c: Crypto, r: Response, issuer: Certificate, now: int, cert: Certificate): Candidate {
    match IdMatches(c, r.responder, cert)
    case Err(e) => Abort(e)
    case Ok(false) => Rejected
    case Ok(true) =>
      match NamesMatch(cert.issuer, issuer.subject)
      case Err(e) => Abort(e)
      case Ok(false) => Rejected
      case Ok(true) =>
        if Delegated(c, cert, issuer, now) && c.signed(r, cert) then Accepted(Validity(cert).value) else Rejected
  }

  function ConsiderAll(c: Crypto, r: Response, issuer: Certificate, now: int, certs: seq<Certificate>)
    : Result<(int, int), OcspError>
  {
    if certs == [] then Err(SignatureInvalid)
    else match Consider(c, r, issuer, now, certs[0])
      case Abort(e) => Err(e)
      case Accepted(w) => Ok(w)
      case Rejected => ConsiderAll(c, r, issuer, now, certs[1..])
  }

  /** The issuer itself signed the response and is valid at `now`. */
  predicate Direct(c: Crypto, r: Response, issuer: Certificate, now: int) {
    && IdMatches(c, r.responder, issuer) == Ok(true)
    && Validity(issuer).Some? && Within(now, Validity(issuer).value) && c.signed(r, issuer)
  }

  /** The outcome of `verify_ocsp_signature`: the signing certificate's validity window. */
  function VerifiedBy(c: Crypto, r: Response, issuer: Certificate, now: int): Result<(int, int), OcspError> {
    if !r.tbsEncodes then Err(Encoding)
    else if !r.algorithmPermitted then Err(DisallowedAlgorithm)
    else match IdMatches(c, r.responder, issuer)
      case Err(e) => Err(e)
      case Ok(_) =>
        if !issuer.keyUsable then Err(MalformedKey)
        else if Direct(c, r, issuer, now) then Ok(Validity(issuer).value)
        else ConsiderAll(c, r, issuer, now, r.certs)
  }

  method VerifyOcspSignature(c: Crypto, r: Response, issuer: Certificate, now: int) returns (w: Result<(int, int), OcspError>)
    ensures w == VerifiedBy(c, r, issuer, now)
  {
    hide AkiMatches;
    if !r.tbsEncodes {
      return Err(Encoding);
    }
    if !r.algorithmPermitted {
      return Err(DisallowedAlgorithm);
    }
    var issuerMatches :- IdMatches(c, r.responder, issuer);
    if !issuer.keyUsable {
      return Err(MalformedKey);
    }
    if issuerMatches {
      var window := Validity(issuer);
      if window.Some? && Within(now, window.value) && c.signed(r, issuer) {
        return Ok(window.value);
      }
    }
    assert r.certs[0..] == r.certs;
    for i := 0 to |r.certs|
      invariant VerifiedBy(c, r, issuer, now) == ConsiderAll(c, r, issuer, now, r.certs[i..])
    {
      var cert := r.certs[i];
      assert r.certs[i..][0] == cert && r.certs[i..][1..] == r.certs[i + 1..];
      var matches :- IdMatches(c, r.responder, cert);
      if !matches {
        continue;
      }
      var issuedHere :- NamesMatch(cert.issuer, issuer.subject);
      if !issuedHere {
        continue;
      }
      if !Delegated(c, cert, issuer, now) {
        continue;
      }
      if c.signed(r, cert) {
        return Ok(Validity(cert).value);
      }
    }
    return Err(SignatureInvalid);
  }

  /** Who may have signed: the issuer, or a certificate in the response that the issuer made a responder. */
  predicate Authorised(c: Crypto, r: Response, issuer: Certificate, now: int, signer: Certificate) {
    && IdMatches(c, r.responder, signer) == Ok(true) && c.signed(r, signer)
    && Validity(signer).Some? && Within(now, Validity(signer).value)
    && (signer == issuer
        || (signer in r.certs && NamesMatch(signer.issuer, issuer.subject) == Ok(true) && Delegated(c, signer, issuer, now)))
  }

  /** All names that are compared can be encoded. */
  predicate NamesEncode(r: Response, issuer: Certificate) {
    && issuer.subject.Some? && (r.responder.ByName? ==> r.responder.name.Some?)
    && forall cert :: cert in r.certs ==> cert.subject.Some? && cert.issuer.Some?
  }

  lemma {:induction false} ConsiderAllSound(c: Crypto, r: Response, issuer: Certificate, now: int, certs: seq<Certificate>)
    requires forall cert :: cert in certs ==> cert in r.certs
    ensures ConsiderAll(c, r, issuer, now, certs).Ok? ==>
      exists s :: Authorised(c, r, issuer, now, s) && Validity(s) == Some(ConsiderAll(c, r, issuer, now, certs).value)
    ensures NamesEncode(r, issuer) && ConsiderAll(c, r, issuer, now, certs).Err? ==>
      forall s :: s in certs && s != issuer ==> !Authorised(c, r, issuer, now, s)
  {
    if certs != [] {
      HeadOrTail(certs);
      ConsiderAllSound(c, r, issuer, now, certs[1..]);
      if Consider(c, r, issuer, now, certs[0]).Accepted? {
        assert Authorised(c, r, issuer, now, certs[0]);
      }
    }
  }

  /** A response is accepted only from an authorised signer; when names encode, from every authorised one. */
  lemma VerifiedByAuthorised(c: Crypto, r: Response, issuer: Certificate, now: int)
    ensures VerifiedBy(c, r, issuer, now).Ok? ==>
      exists s :: Authorised(c, r, issuer, now, s) && Validity(s) == Some(VerifiedBy(c, r, issuer, now).value)
    ensures NamesEncode(r, issuer) && r.tbsEncodes && r.algorithmPermitted && issuer.keyUsable ==>
      (VerifiedBy(c, r, issuer, now).Ok? <==> exists s :: Authorised(c, r, issuer, now, s))
  {
    ConsiderAllSound(c, r, issuer, now, r.certs);
    if Direct(c, r, issuer, now) {
      assert Authorised(c, r, issuer, now, issuer);
    }
  }

  // ---------- stapled_status_for ----------

  /** The first entry whose certID names this certificate. */
  function FirstMatch(c: Crypto, singles: seq<SingleResponse>, leaf: Certificate, issuer: Certificate): Option<SingleResponse> {
    if singles == [] then None
    else if CertIdMatches(c, singles[0], leaf, issuer) then Some(singles[0])
    else FirstMatch(c, singles[1..], leaf, issuer)
  }

  /** What one staple says: its first matching entry, if the staple is signed and the entry fresh. */
  function Says(c: Crypto, r: Response, leaf: Certificate, issuer: Certificate, now: int): Option<Status> {
    match FirstMatch(c, r.singles, leaf, issuer)
    case None => None
    case Some(single) =>
      match VerifiedBy(c, r, issuer, now)
      case Err(_) => None
      case Ok(window) => if Fresh(single, now, window) then Some(single.status) else None
  }

  /** The first status that says anything. */
  function FirstSaid(c: Crypto, staples: seq<Response>, leaf: Certificate, issuer: Certificate, now: int): Option<Status> {
    if staples == [] then None
    else if Says(c, staples[0], leaf, issuer, now).Some? then Says(c, staples[0], leaf, issuer, now)
    else FirstSaid(c, staples[1..], leaf, issuer, now)
  }

  predicate ProvesRevoked(c: Crypto, staples: seq<Response>, leaf: Certificate, issuer: Certificate, now: int) {
    exists r :: r in staples && Says(c, r, leaf, issuer, now) == Some(Revoked)
  }

  function StatusOf(c: Crypto, staples: seq<Response>, leaf: Certificate, issuer: Certificate, now: int): Option<Status> {
    if ProvesRevoked(c, staples, leaf, issuer, now) then Some(Revoked) else FirstSaid(c, staples, leaf, issuer, now)
  }

  /** A valid revocation proof wins wherever it stands; otherwise the first staple that says anything decides. */
  method StapledStatusFor(c: Crypto, staples: seq<Response>, leaf: Certificate, issuer: Certificate, now: int)
    returns (status: Option<Status>)
    ensures status == StatusOf(c, staples, leaf, issuer, now)
    ensures status.None? <==> forall r, st :: r in staples ==> !Honoured(c, r, leaf, issuer, now, st)
    ensures status == Some(Revoked) <==> exists r :: r in staples && Honoured(c, r, leaf, issuer, now, Revoked)
    ensures status.Some? && status != Some(Revoked) ==>
      exists k: nat :: FirstHonoured(c, staples, leaf, issuer, now, status.value, k)
  {
    hide VerifiedBy, Fresh, FirstMatch, Honoured, FirstHonoured;
    NoStatusExactly(c, staples, leaf, issuer, now);
    forall st {
      StatusExactly(c, staples, leaf, issuer, now, st);
    }
    var firstNonRevoked: Option<Status> := None;
    assert staples[0..] == staples;
    for i := 0 to |staples|
      invariant firstNonRevoked != Some(Revoked)
      invariant forall r :: r in staples[..i] ==> Says(c, r, leaf, issuer, now) != Some(Revoked)
      invariant FirstSaid(c, staples, leaf, issuer, now) ==
        if firstNonRevoked.Some? then firstNonRevoked else FirstSaid(c, staples[i..], leaf, issuer, now)
    {
      assert staples[i..][0] == staples[i] && staples[i..][1..] == staples[i + 1..];
      assert staples[..i + 1] == staples[..i] + [staples[i]];
      var single := FirstMatch(c, staples[i].singles, leaf, issuer);
      if single.None? {
        continue;
      }
      var window := VerifyOcspSignature(c, staples[i], issuer, now);
      if window.Err? || !Fresh(single.value, now, window.value) {
        continue;
      }
      if single.value.status == Revoked {
        assert staples[i] in staples;
        return Some(Revoked);
      }
      if firstNonRevoked.None? {
        firstNonRevoked := Some(single.value.status);
      }
    }
    assert staples[..|staples|] == staples;
    return firstNonRevoked;
  }

  lemma {:induction false} FirstSaidIsSaid(c: Crypto, staples: seq<Response>, leaf: Certificate, issuer: Certificate, now: int)
    ensures FirstSaid(c, staples, leaf, issuer, now).Some? <==>
      exists r :: r in staples && Says(c, r, leaf, issuer, now).Some?
    ensures FirstSaid(c, staples, leaf, issuer, now) == Some(Revoked) ==> ProvesRevoked(c, staples, leaf, issuer, now)
  {
    hide Says;
    if staples != [] {
      HeadOrTail(staples);
      FirstSaidIsSaid(c, staples[1..], leaf, issuer, now);
    }
  }

  /** Revoked exactly when some staple proves it: no order and no further staples can hide a proof or make one up. */
  lemma RevokedExactly(c: Crypto, staples: seq<Response>, more: seq<Response>, leaf: Certificate, issuer: Certificate, now: int)
    ensures StatusOf(c, staples, leaf, issuer, now) == Some(Revoked) <==> ProvesRevoked(c, staples, leaf, issuer, now)
    ensures multiset(more) == multiset(staples) ==>
      (StatusOf(c, more, leaf, issuer, now) == Some(Revoked) <==> StatusOf(c, staples, leaf, issuer, now) == Some(Revoked))
    ensures StatusOf(c, staples, leaf, issuer, now) == Some(Revoked) ==>
      StatusOf(c, staples + more, leaf, issuer, now) == StatusOf(c, more + staples, leaf, issuer, now) == Some(Revoked)
  {
    hide Says;
    FirstSaidIsSaid(c, staples, leaf, issuer, now);
    FirstSaidIsSaid(c, more, leaf, issuer, now);
    if multiset(more) == multiset(staples) {
      assert forall r :: r in more <==> r in multiset(more);
      assert forall r :: r in staples <==> r in multiset(staples);
    }
    assert forall r :: r in staples ==> r in staples + more && r in more + staples;
  }

  // ---------- When a staple is honoured, in terms of its fields ----------

  /** The entry's certID is the hash of the certificate's issuer name and of the issuer's key, and its serial number. */
  ghost predicate Names(c: Crypto, s: SingleResponse, leaf: Certificate, issuer: Certificate) {
    && leaf.issuer.Some? && s.serial == leaf.serial
    && (s.hashName == Sha1 ==>
          s.issuerNameHash == c.sha1(leaf.issuer.value) && s.issuerKeyHash == c.sha1(issuer.keyBits))
    && (s.hashName == Sha256 ==>
          s.issuerNameHash == c.sha256(leaf.issuer.value) && s.issuerKeyHash == c.sha256(issuer.keyBits))
    && (s.hashName == Sha1 || s.hashName == Sha256)
  }

  /** Not from the future, and at most up to the next update or, where none is announced, for seven days. */
  ghost predicate Current(s: SingleResponse, now: int) {
    && s.thisUpdate.Some? && s.thisUpdate.value <= now
    && match s.nextUpdate {
      case None => now <= s.thisUpdate.value + 604800
      case Some(None) => false
      case Some(Some(next)) => now <= next
    }
  }

  ghost predicate ValidAt(cert: Certificate, now: int) {
    cert.notBefore.Some? && cert.notAfter.Some? && cert.notBefore.value <= now <= cert.notAfter.value
  }

  ghost predicate IsResponder(c: Crypto, id: ResponderId, cert: Certificate) {
    match id
    case ByName(name) => name.Some? && cert.subject == name
    case ByKey(hash) => hash == c.sha1(cert.keyBits)
  }

  /** The certificate names the issuer as its own, by name and by key where it says so, and the issuer signed it. */
  ghost predicate IssuedBy(c: Crypto, cert: Certificate, issuer: Certificate) {
    && issuer.subject.Some? && cert.issuer == issuer.subject
    && (cert.aki.Some? && issuer.ski.Some? ==> cert.aki == issuer.ski)
    && (cert.aki.Some? && issuer.ski.None? ==> cert.aki.value == c.sha1(issuer.keyBits))
    && cert.signaturePermitted && cert.tbsEncodes && c.issued(cert, issuer)
  }

  ghost predicate SignedUnder(c: Crypto, r: Response, signer: Certificate, now: int) {
    IsResponder(c, r.responder, signer) && ValidAt(signer, now) && c.signed(r, signer)
  }

  /** Signed by a responder that the issuer made one and that needs no check itself. */
  ghost predicate SignedByDelegate(c: Crypto, r: Response, cert: Certificate, issuer: Certificate, now: int) {
    && SignedUnder(c, r, cert, now) && IssuedBy(c, cert, issuer)
    && cert.extensionsParse && cert.ocspSigning && cert.noCheck && cert.keyUsable
  }

  /** A name that has to be compared cannot be encoded: no later certificate is looked at. */
  ghost predicate Stops(c: Crypto, r: Response, cert: Certificate, issuer: Certificate) {
    || (r.responder.ByName? && (r.responder.name.None? || cert.subject.None?))
    || (IsResponder(c, r.responder, cert) && (cert.issuer.None? || issuer.subject.None?))
  }

  ghost predicate DelegateAt(c: Crypto, r: Response, issuer: Certificate, now: int, certs: seq<Certificate>, k: nat) {
    k < |certs| && SignedByDelegate(c, r, certs[k], issuer, now) && forall j :: 0 <= j < k ==> !Stops(c, r, certs[j], issuer)
  }

  /** The response is signed by the issuer itself or by a responder of its own. */
  ghost predicate WellSigned(c: Crypto, r: Response, issuer: Certificate, now: int) {
    && r.tbsEncodes && r.algorithmPermitted && issuer.keyUsable
    && (r.responder.ByName? ==> r.responder.name.Some? && issuer.subject.Some?)
    && (SignedUnder(c, r, issuer, now) || exists k: nat :: DelegateAt(c, r, issuer, now, r.certs, k))
  }

  lemma ConsiderExactly(c: Crypto, r: Response, issuer: Certificate, now: int, cert: Certificate)
    ensures Consider(c, r, issuer, now, cert).Abort? <==> Stops(c, r, cert, issuer)
    ensures Consider(c, r, issuer, now, cert).Accepted? <==> SignedByDelegate(c, r, cert, issuer, now)
    ensures Consider(c, r, issuer, now, cert).Accepted? ==>
      Some(Consider(c, r, issuer, now, cert).window.0) == cert.notBefore
      && Some(Consider(c, r, issuer, now, cert).window.1) == cert.notAfter
  {
  }

  lemma {:induction false} ConsiderAllExactly(c: Crypto, r: Response, issuer: Certificate, now: int, certs: seq<Certificate>)
    ensures ConsiderAll(c, r, issuer, now, certs).Ok? <==> exists k: nat :: DelegateAt(c, r, issuer, now, certs, k)
    ensures ConsiderAll(c, r, issuer, now, certs).Ok? ==> Within(now, ConsiderAll(c, r, issuer, now, certs).value)
  {
    hide Consider, SignedByDelegate, Stops;
    if certs != [] {
      ConsiderExactly(c, r, issuer, now, certs[0]);
      ConsiderAllExactly(c, r, issuer, now, certs[1..]);
      if SignedByDelegate(c, r, certs[0], issuer, now) {
        DelegateValid(c, r, certs[0], issuer, now);
        assert DelegateAt(c, r, issuer, now, certs, 0);
      } else if !Stops(c, r, certs[0], issuer) {
        forall k: nat ensures DelegateAt(c, r, issuer, now, certs, k + 1) <==> DelegateAt(c, r, issuer, now, certs[1..], k) {
          DelegateBehind(c, r, issuer, now, certs, k);
        }
        if k: nat :| DelegateAt(c, r, issuer, now, certs, k) {
          assert DelegateAt(c, r, issuer, now, certs[1..], k - 1);
        }
      }
    }
  }

  lemma DelegateValid(c: Crypto, r: Response, cert: Certificate, issuer: Certificate, now: int)
    requires SignedByDelegate(c, r, cert, issuer, now)
    ensures ValidAt(cert, now)
  {
  }

  lemma {:induction false} DelegateBehind(c: Crypto, r: Response, issuer: Certificate, now: int, certs: seq<Certificate>, k: nat)
    requires certs != [] && !Stops(c, r, certs[0], issuer)
    ensures DelegateAt(c, r, issuer, now, certs, k + 1) <==> DelegateAt(c, r, issuer, now, certs[1..], k)
  {
    hide SignedByDelegate, Stops;
    var rest := certs[1..];
    assert forall j :: 0 <= j < |rest| ==> rest[j] == certs[j + 1];
    if DelegateAt(c, r, issuer, now, rest, k) {
      forall j | 0 <= j < k + 1 ensures !Stops(c, r, certs[j], issuer) {
        if j > 0 {
          assert !Stops(c, r, rest[j - 1], issuer);
        }
      }
    }
  }

  lemma {:induction false} WellSignedExactly(c: Crypto, r: Response, issuer: Certificate, now: int)
    ensures VerifiedBy(c, r, issuer, now).Ok? <==> WellSigned(c, r, issuer, now)
    ensures VerifiedBy(c, r, issuer, now).Ok? ==> Within(now, VerifiedBy(c, r, issuer, now).value)
  {
    hide ConsiderAll, DelegateAt;
    ConsiderAllExactly(c, r, issuer, now, r.certs);
  }

  ghost predicate FirstNaming(c: Crypto, singles: seq<SingleResponse>, leaf: Certificate, issuer: Certificate, i: nat) {
    && i < |singles| && Names(c, singles[i], leaf, issuer)
    && forall j :: 0 <= j < i ==> !Names(c, singles[j], leaf, issuer)
  }

  lemma {:induction false} FirstMatchExactly(c: Crypto, singles: seq<SingleResponse>, leaf: Certificate, issuer: Certificate)
    ensures FirstMatch(c, singles, leaf, issuer).None? ==> forall s :: s in singles ==> !Names(c, s, leaf, issuer)
    ensures FirstMatch(c, singles, leaf, issuer).Some? ==>
      exists i: nat :: FirstNaming(c, singles, leaf, issuer, i) && FirstMatch(c, singles, leaf, issuer) == Some(singles[i])
  {
    hide Names, CertIdMatches;
    if singles != [] {
      NamesExactly(c, singles[0], leaf, issuer);
      if Names(c, singles[0], leaf, issuer) {
        assert FirstNaming(c, singles, leaf, issuer, 0);
      } else {
        FirstMatchExactly(c, singles[1..], leaf, issuer);
        HeadOrTail(singles);
        if FirstMatch(c, singles, leaf, issuer).Some? {
          var i: nat :| FirstNaming(c, singles[1..], leaf, issuer, i) && FirstMatch(c, singles, leaf, issuer) == Some(singles[1..][i]);
          forall j | 0 <= j < i + 1 ensures !Names(c, singles[j], leaf, issuer) {
            assert j > 0 ==> singles[j] == singles[1..][j - 1];
          }
          assert FirstNaming(c, singles, leaf, issuer, i + 1);
        }
      }
    }
  }

  lemma NamesExactly(c: Crypto, s: SingleResponse, leaf: Certificate, issuer: Certificate)
    ensures CertIdMatches(c, s, leaf, issuer) <==> Names(c, s, leaf, issuer)
  {
  }

  /** The first entry that names the certificate has this status, is current, and stands in a well signed response. */
  ghost predicate Honoured(c: Crypto, r: Response, leaf: Certificate, issuer: Certificate, now: int, status: Status) {
    && WellSigned(c, r, issuer, now)
    && exists i: nat :: FirstNaming(c, r.singles, leaf, issuer, i) && Current(r.singles[i], now) && r.singles[i].status == status
  }

  /** What one staple says is what it can be honoured for. */
  lemma {:induction false} SaysExactly(c: Crypto, r: Response, leaf: Certificate, issuer: Certificate, now: int, status: Status)
    ensures Says(c, r, leaf, issuer, now) == Some(status) <==> Honoured(c, r, leaf, issuer, now, status)
  {
    hide Names, FirstMatch, VerifiedBy, WellSigned;
    WellSignedExactly(c, r, issuer, now);
    FirstMatchExactly(c, r.singles, leaf, issuer);
  }

  /** The first staple that is honoured for anything is honoured for this. */
  ghost predicate FirstHonoured(
    c: Crypto, staples: seq<Response>, leaf: Certificate, issuer: Certificate, now: int, status: Status, k: nat)
  {
    && k < |staples| && Honoured(c, staples[k], leaf, issuer, now, status)
    && forall j, other :: 0 <= j < k ==> !Honoured(c, staples[j], leaf, issuer, now, other)
  }

  lemma {:induction false} FirstSaidExactly(
    c: Crypto, staples: seq<Response>, leaf: Certificate, issuer: Certificate, now: int, status: Status)
    ensures FirstSaid(c, staples, leaf, issuer, now) == Some(status) <==>
      exists k: nat :: FirstHonoured(c, staples, leaf, issuer, now, status, k)
  {
    hide Says, Honoured;
    if staples != [] {
      var rest := staples[1..];
      forall other ensures Says(c, staples[0], leaf, issuer, now) == Some(other) <==> Honoured(c, staples[0], leaf, issuer, now, other) {
        SaysExactly(c, staples[0], leaf, issuer, now, other);
      }
      FirstSaidExactly(c, rest, leaf, issuer, now, status);
      if Says(c, staples[0], leaf, issuer, now).Some? {
        if Says(c, staples[0], leaf, issuer, now) == Some(status) {
          assert FirstHonoured(c, staples, leaf, issuer, now, status, 0);
        }
      } else {
        forall k: nat
          ensures FirstHonoured(c, staples, leaf, issuer, now, status, k + 1) <==> FirstHonoured(c, rest, leaf, issuer, now, status, k)
        {
          FirstHonouredBehind(c, staples, leaf, issuer, now, status, k);
        }
        if k: nat :| FirstHonoured(c, staples, leaf, issuer, now, status, k) {
          assert FirstHonoured(c, rest, leaf, issuer, now, status, k - 1);
        }
      }
    }
  }

  lemma {:induction false} FirstHonouredBehind(
    c: Crypto, staples: seq<Response>, leaf: Certificate, issuer: Certificate, now: int, status: Status, k: nat)
    requires staples != [] && forall other :: !Honoured(c, staples[0], leaf, issuer, now, other)
    ensures FirstHonoured(c, staples, leaf, issuer, now, status, k + 1) <==>
      FirstHonoured(c, staples[1..], leaf, issuer, now, status, k)
  {
    hide Honoured;
    var rest := staples[1..];
    assert forall j :: 0 <= j < |rest| ==> rest[j] == staples[j + 1];
    if FirstHonoured(c, rest, leaf, issuer, now, status, k) {
      forall j, other | 0 <= j < k + 1 ensures !Honoured(c, staples[j], leaf, issuer, now, other) {
        if j > 0 {
          assert !Honoured(c, rest[j - 1], leaf, issuer, now, other);
        }
      }
    }
  }

  /** Revoked as soon as one staple is honoured for it, else what the first staple honoured at all is honoured for. */
  lemma {:induction false} StatusExactly(
    c: Crypto, staples: seq<Response>, leaf: Certificate, issuer: Certificate, now: int, status: Status)
    ensures StatusOf(c, staples, leaf, issuer, now) == Some(Revoked) <==>
      exists r :: r in staples && Honoured(c, r, leaf, issuer, now, Revoked)
    ensures StatusOf(c, staples, leaf, issuer, now) == Some(status) && status != Revoked <==>
      (forall r :: r in staples ==> !Honoured(c, r, leaf, issuer, now, Revoked))
      && exists k: nat :: FirstHonoured(c, staples, leaf, issuer, now, status, k)
  {
    hide Says, Honoured, FirstSaid, FirstHonoured;
    forall r ensures Says(c, r, leaf, issuer, now) == Some(Revoked) <==> Honoured(c, r, leaf, issuer, now, Revoked) {
      SaysExactly(c, r, leaf, issuer, now, Revoked);
    }
    FirstSaidExactly(c, staples, leaf, issuer, now, status);
    FirstSaidIsSaid(c, staples, leaf, issuer, now);
    if k: nat :| FirstHonoured(c, staples, leaf, issuer, now, status, k) {
      FirstHonouredIn(c, staples, leaf, issuer, now, status, k);
    }
  }

  lemma FirstHonouredIn(
    c: Crypto, staples: seq<Response>, leaf: Certificate, issuer: Certificate, now: int, status: Status, k: nat)
    requires FirstHonoured(c, staples, leaf, issuer, now, status, k)
    ensures exists r :: r in staples && Honoured(c, r, leaf, issuer, now, status)
  {
    hide Honoured;
    assert staples[k] in staples;
  }

  /** No status exactly when no staple is honoured; so none when every entry that names the certificate has expired. */
  lemma {:induction false} NoStatusExactly(c: Crypto, staples: seq<Response>, leaf: Certificate, issuer: Certificate, now: int)
    ensures StatusOf(c, staples, leaf, issuer, now).None? <==>
      forall r, status :: r in staples ==> !Honoured(c, r, leaf, issuer, now, status)
    ensures (forall r, s :: r in staples && s in r.singles && Names(c, s, leaf, issuer) ==> !Current(s, now)) ==>
      StatusOf(c, staples, leaf, issuer, now).None?
  {
    hide Says, FirstSaid, WellSigned, Names, Current;
    forall r, status ensures Says(c, r, leaf, issuer, now) == Some(status) <==> Honoured(c, r, leaf, issuer, now, status) {
      SaysExactly(c, r, leaf, issuer, now, status);
    }
    FirstSaidIsSaid(c, staples, leaf, issuer, now);
  }

  // ---------- apply_stapled_ocsp ----------

  /** The status of chain element i, checked against the next element. */
  function ElementStatus(c: Crypto, staples: seq<Response>, chain: seq<Certificate>, now: int, i: nat): Option<Status>
    requires i + 1 < |chain|
  {
    StatusOf(c, staples, chain[i], chain[i + 1], now)
  }

  /** The subjects of revoked elements from i on, in chain order; the trust anchor is never checked. */
  function RevokedFrom(c: Crypto, staples: seq<Response>, chain: seq<Certificate>, now: int, i: nat): seq<Certificate>
    decreases |chain| - i
  {
    if i + 1 >= |chain| then []
    else
      var rest := RevokedFrom(c, staples, chain, now, i + 1);
      if ElementStatus(c, staples, chain, now, i) == Some(Revoked) then [chain[i]] + rest else rest
  }

  function ChainStatus(c: Crypto, staples: seq<Response>, chain: seq<Certificate>, now: int): Option<Status> {
    if RevokedFrom(c, staples, chain, now, 0) != [] then Some(Revoked)
    else if |chain| >= 2 then ElementStatus(c, staples, chain, now, 0)
    else None
  }

  method ApplyStapledOcsp(c: Crypto, staples: seq<Response>, chain: seq<Certificate>, now: int, errors0: seq<Certificate>)
    returns (status: Option<Status>, errors: seq<Certificate>)
    ensures status == ChainStatus(c, staples, chain, now)
    ensures errors == errors0 + RevokedFrom(c, staples, chain, now, 0)
  {
    hide ElementStatus, Honoured, FirstHonoured;
    errors := errors0;
    if |staples| == 0 {
      NoStaples(c, chain, now, 0);
      return None, errors;
    }
    var leafStatus: Option<Status> := None;
    var anyRevoked := false;
    var n := if |chain| == 0 then 0 else |chain| - 1;
    for i := 0 to n
      invariant errors + RevokedFrom(c, staples, chain, now, i) == errors0 + RevokedFrom(c, staples, chain, now, 0)
      invariant anyRevoked ==> RevokedFrom(c, staples, chain, now, 0) != []
      invariant !anyRevoked ==> RevokedFrom(c, staples, chain, now, 0) == RevokedFrom(c, staples, chain, now, i)
      invariant leafStatus == if i == 0 then None else ElementStatus(c, staples, chain, now, 0)
    {
      var status := StapledStatusFor(c, staples, chain[i], chain[i + 1], now);
      ElementIs(c, staples, chain, now, i);
      if status.None? {
        continue;
      }
      if status == Some(Revoked) {
        anyRevoked := true;
        assert errors + ([chain[i]] + RevokedFrom(c, staples, chain, now, i + 1))
            == errors + [chain[i]] + RevokedFrom(c, staples, chain, now, i + 1);
        errors := errors + [chain[i]];
      }
      if i == 0 {
        leafStatus := status;
      }
    }
    assert RevokedFrom(c, staples, chain, now, n) == [];
    status := if anyRevoked then Some(Revoked) else leafStatus;
  }

  lemma ElementIs(c: Crypto, staples: seq<Response>, chain: seq<Certificate>, now: int, i: nat)
    requires i + 1 < |chain|
    ensures ElementStatus(c, staples, chain, now, i) == StatusOf(c, staples, chain[i], chain[i + 1], now)
  {
  }

  lemma {:induction false} NoStaples(c: Crypto, chain: seq<Certificate>, now: int, i: nat)
    ensures RevokedFrom(c, [], chain, now, i) == []
    ensures i + 1 < |chain| ==> ElementStatus(c, [], chain, now, i) == None
    decreases |chain| - i
  {
    if i + 1 < |chain| {
      NoStaples(c, chain, now, i + 1);
    }
  }

  lemma {:induction false} RevokedFromExactly(c: Crypto, staples: seq<Response>, chain: seq<Certificate>, now: int, i: nat)
    ensures RevokedFrom(c, staples, chain, now, i) != [] <==>
      exists j :: i <= j && j + 1 < |chain| && ElementStatus(c, staples, chain, now, j) == Some(Revoked)
    decreases |chain| - i
  {
    hide ElementStatus;
    if i + 1 < |chain| {
      RevokedFromExactly(c, staples, chain, now, i + 1);
    }
  }

  /** A staple is honoured for the revocation of element j, which has an issuer in the chain. */
  ghost predicate RevokedAt(c: Crypto, staples: seq<Response>, chain: seq<Certificate>, now: int, j: nat) {
    j + 1 < |chain| && exists r :: r in staples && Honoured(c, r, chain[j], chain[j + 1], now, Revoked)
  }

  /** `found` lists the revoked elements from i on, one after the other, each once, by their positions `at`. */
  ghost predicate Listed(
    c: Crypto, staples: seq<Response>, chain: seq<Certificate>, now: int, i: nat, at: seq<nat>, found: seq<Certificate>)
  {
    && |at| == |found|
    && (forall k, l :: 0 <= k < l < |at| ==> at[k] < at[l])
    && (forall k :: 0 <= k < |at| ==> at[k] < |chain| && found[k] == chain[at[k]])
    && (forall j: nat :: j in at <==> i <= j && RevokedAt(c, staples, chain, now, j))
  }

  lemma {:induction false} RevokedFromListed(c: Crypto, staples: seq<Response>, chain: seq<Certificate>, now: int, i: nat)
    ensures exists at :: Listed(c, staples, chain, now, i, at, RevokedFrom(c, staples, chain, now, i))
    decreases |chain| - i
  {
    hide ElementStatus, RevokedAt;
    if i + 1 >= |chain| {
      NoneBehind(c, staples, chain, now, i);
      assert Listed(c, staples, chain, now, i, [], RevokedFrom(c, staples, chain, now, i));
    } else {
      RevokedFromListed(c, staples, chain, now, i + 1);
      var rest := RevokedFrom(c, staples, chain, now, i + 1);
      var at :| Listed(c, staples, chain, now, i + 1, at, rest);
      ElementRevoked(c, staples, chain, now, i);
      ListedStep(c, staples, chain, now, i, at, rest);
      var more := if RevokedAt(c, staples, chain, now, i) then [i] + at else at;
      assert Listed(c, staples, chain, now, i, more, RevokedFrom(c, staples, chain, now, i));
    }
  }

  lemma NoneBehind(c: Crypto, staples: seq<Response>, chain: seq<Certificate>, now: int, i: nat)
    requires i + 1 >= |chain|
    ensures forall j: nat :: RevokedAt(c, staples, chain, now, j) ==> j < i
  {
    hide Honoured;
  }

  lemma ElementRevoked(c: Crypto, staples: seq<Response>, chain: seq<Certificate>, now: int, i: nat)
    requires i + 1 < |chain|
    ensures ElementStatus(c, staples, chain, now, i) == Some(Revoked) <==> RevokedAt(c, staples, chain, now, i)
  {
    hide StatusOf, Honoured;
    StatusExactly(c, staples, chain[i], chain[i + 1], now, Revoked);
  }

  lemma {:induction false} ListedStep(
    c: Crypto, staples: seq<Response>, chain: seq<Certificate>, now: int, i: nat, at: seq<nat>, rest: seq<Certificate>)
    requires i + 1 < |chain| && Listed(c, staples, chain, now, i + 1, at, rest)
    ensures !RevokedAt(c, staples, chain, now, i) ==> Listed(c, staples, chain, now, i, at, rest)
    ensures RevokedAt(c, staples, chain, now, i) ==> Listed(c, staples, chain, now, i, [i] + at, [chain[i]] + rest)
  {
    hide RevokedAt;
    var more := [i] + at;
    assert forall j: nat :: j in more <==> j == i || j in at;
    forall l | 0 < l < |more| ensures more[l] == at[l - 1] && i < more[l] {
      assert at[l - 1] in at;
    }
  }

  /** One error per revoked element in chain order; Revoked exactly when there is one, otherwise the leaf's status. */
  lemma {:induction false} ChainRevokedExactly(c: Crypto, staples: seq<Response>, chain: seq<Certificate>, now: int)
    ensures exists at :: Listed(c, staples, chain, now, 0, at, RevokedFrom(c, staples, chain, now, 0))
    ensures ChainStatus(c, staples, chain, now) == Some(Revoked) <==> exists j: nat :: RevokedAt(c, staples, chain, now, j)
    ensures ChainStatus(c, staples, chain, now) != Some(Revoked) && |chain| >= 2 ==>
      forall st :: ChainStatus(c, staples, chain, now) == Some(st) <==>
        exists k: nat :: FirstHonoured(c, staples, chain[0], chain[1], now, st, k)
    ensures |chain| < 2 ==> ChainStatus(c, staples, chain, now).None?
  {
    hide FirstHonoured, StatusOf, Honoured;
    RevokedFromExactly(c, staples, chain, now, 0);
    RevokedFromListed(c, staples, chain, now, 0);
    forall j: nat | j + 1 < |chain|
      ensures ElementStatus(c, staples, chain, now, j) == Some(Revoked) <==> RevokedAt(c, staples, chain, now, j)
    {
      ElementRevoked(c, staples, chain, now, j);
    }
    if |chain| >= 2 {
      assert RevokedAt(c, staples, chain, now, 0) <==> exists r :: r in staples && Honoured(c, r, chain[0], chain[1], now, Revoked);
      forall st {
        StatusExactly(c, staples, chain[0], chain[1], now, st);
      }
    }
  }
}
