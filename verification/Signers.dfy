// The signer loop of signature verification (src/lib.rs:916-1060, 1075-1229, 1285-1539).
module Signers {
  import opened Octets
  import opened Arrangements
  import opened SignedAttributes
  import opened AttributeScan
  import opened Identifiers
  import ContentRepair
  import Sender
  import Ocsp

  // ---------- Data ----------

  /** A certificate of the message. The key is None when its SPKI cannot be read. */
  datatype Certificate = Certificate(
    x509: Ocsp.Certificate, issuer: Bytes, subject: Bytes, serial: Bytes, ski: Option<Bytes>, key: Option<Bytes>,
    emails: seq<string>, names: seq<string>)

  /** A SignerInfo; `algorithms` is the verdict of `check_algorithms`, warnings or a refusal. */
  datatype SignerInfo = SignerInfo(
    sid: CertId, version: nat, attrs: Option<seq<Attribute>>, digestAlg: Bytes, signatureAlg: Bytes, signature: Bytes,
    algorithms: Result<seq<string>, string>)

  /** What the signatures cover: external content, or the encapsulated eContent. */
  datatype Target = Detached(content: Bytes) | EContent(content: Bytes)

  datatype Failure =
    | Setup(what: string)
    | MissingFrom
    | VersionMismatch(expected: nat, actual: nat, idx: nat)
    | AlgorithmFailure(what: string)
    | AttributeFailure(fault: Fault, idx: nat)
    | SignerCertNotFound(idx: nat)
    | NeedsSignedAttrs
    | LooksLikeSignedAttrs
    | UnusableKey(idx: nat)
    | BadDigest(reason: SigError)
    | BadSignature(reason: SigError)
    | WildDuckWorkaround
    | ChainValidation(idx: nat)
    | StapledOcspRevoked(subject: Ocsp.Certificate)

  datatype Note = CaseNote(mismatch: Sender.CaseMismatch) | SigningTimeNote | InnerDateNote

  datatype Checks = Checks(digestMatches: bool, signatureMatches: bool)

  datatype Entry = Entry(
    leaf: Certificate, checks: Checks, chain: seq<Ocsp.Certificate>, trusted: bool,
    revocation: Option<Ocsp.Status>, valid: bool, signingTime: Option<int>, notes: seq<Note>)

  /** The From header and date shown to the user. */
  datatype Shown = Shown(address: Option<string>, comment: Option<string>, date: Option<int>)

  datatype From = From(address: Option<string>, name: Option<string>)

  /** One verification: the primitives, the SignedData's certificates and staples, and what its signatures cover. */
  datatype Context = Context(
    digest: (Bytes, Bytes) -> Option<Bytes>,                  // algorithm, octets
    verifies: (Bytes, Bytes, Bytes, Bytes, Bytes) -> bool,    // key, digest and signature algorithm, signature, octets
    chainOf: (Certificate, seq<Certificate>) -> Option<seq<Ocsp.Certificate>>,
    looksLikeSignedAttrs: Bytes -> bool,
    toALabel: string -> string,
    crypto: Ocsp.Crypto, now: int, certs: seq<Certificate>, staples: seq<Ocsp.Response>,
    target: Target, boundary: Option<Bytes>,
    innerFrom: Option<From>, innerDate: Option<int>, outerDate: Option<int>)

  class Report {
    var signers: seq<Entry>
    var failures: seq<Failure>
    var content: Option<Bytes>
    var shown: Shown

    constructor (content0: Option<Bytes>, shown0: Shown)
      ensures signers == [] && failures == [] && content == content0 && shown == shown0
    {
      signers, failures, content, shown := [], [], content0, shown0;
    }
  }

  // ---------- Candidate keys ----------

  /** The certificate carries the signer's identifier. */
  predicate Identifies(sid: CertId, cert: Certificate) { Names(sid, cert.issuer, cert.serial, cert.ski) }

  function Candidates(sid: CertId, certs: seq<Certificate>): seq<Certificate> {
    if certs == [] then []
    else (if Identifies(sid, certs[0]) then [certs[0]] else []) + Candidates(sid, certs[1..])
  }

  /** The signer names the certificate. */
  predicate NamesCert(sid: CertId, cert: Certificate) {
    match sid
    case IssuerAndSerial(issuer, serial) => cert.issuer == issuer && cert.serial == serial
    case SubjectKeyId(ski) => cert.ski == Some(ski)
  }

  lemma {:induction false} CandidatesExactly(sid: CertId, certs: seq<Certificate>)
    ensures forall c :: c in Candidates(sid, certs) <==>
      c in certs && NamesCert(sid, c)
  {
    if certs != [] {
      CandidatesExactly(sid, certs[1..]);
      HeadOrTail(certs);
    }
  }

  // ---------- One key against one signer ----------

  function Checker(x: Context, key: Bytes, digestAlg: Bytes, signatureAlg: Bytes, signature: Bytes): Bytes -> bool {
    octets => x.verifies(key, digestAlg, signatureAlg, signature, octets)
  }

  function DigestOf(x: Context, s: SignerInfo, content: Bytes): Result<(), SigError> {
    VerifyMessageDigest(s.attrs, x.digest(s.digestAlg, content))
  }

  function Repaired(x: Context): Bytes { ContentRepair.Repaired(x.target.content, x.boundary) }

  function SignatureOf(x: Context, key: Bytes, s: SignerInfo): Result<(), SigError> {
    VerifyEContentSignature(Checker(x, key, s.digestAlg, s.signatureAlg, s.signature), s.attrs, x.target.content)
  }

  /** The digest attribute covers the content, or (detached) the content as WildDuck should have sent it. */
  predicate DigestMatches(x: Context, s: SignerInfo) {
    DigestOf(x, s, x.target.content).Ok? || (x.target.Detached? && DigestOf(x, s, Repaired(x)).Ok?)
  }

  predicate Verifies(x: Context, key: Bytes, s: SignerInfo) {
    SignatureOf(x, key, s).Ok? && (s.attrs.Some? ==> DigestMatches(x, s))
  }

  /** The signer verifies only over the repaired content. */
  predicate OnlyRepaired(x: Context, s: SignerInfo) {
    x.target.Detached? && DigestOf(x, s, x.target.content).Err?
  }

  /** `precheck_signer` */
  function Precheck(x: Context, s: SignerInfo): Option<Failure> {
    if s.attrs.Some? then None
    else if x.target.Detached? then Some(NeedsSignedAttrs)
    else if x.looksLikeSignedAttrs(x.target.content) then Some(LooksLikeSignedAttrs)
    else None
  }

  function ErrorsOf(r: Result<(), SigError>, asDigest: bool): seq<Failure> {
    match r
    case Ok(_) => []
    case Err(e) => [if asDigest then BadDigest(e) else BadSignature(e)]
  }

  function CandidateFailures(x: Context, key: Bytes, s: SignerInfo): seq<Failure> {
    var digest := ErrorsOf(DigestOf(x, s, x.target.content), true);
    var signature := ErrorsOf(SignatureOf(x, key, s), false);
    if x.target.EContent? then (if s.attrs.Some? then digest else []) + signature
    else if Verifies(x, key, s) then (if OnlyRepaired(x, s) then [WildDuckWorkaround] else [])
    else signature + digest
  }

  /** `verify_candidate` */
  method VerifyCandidate(x: Context, key: Bytes, s: SignerInfo, report: Report) returns (ok: bool, checks: Checks)
    requires Precheck(x, s).None?
    modifies report
    ensures ok == Verifies(x, key, s)
    ensures ok ==> checks == Checks(s.attrs.Some?, true)
    ensures report.failures == old(report.failures) + CandidateFailures(x, key, s)
    ensures report.content == if ok && OnlyRepaired(x, s) then Some(Repaired(x)) else old(report.content)
    ensures report.signers == old(report.signers) && report.shown == old(report.shown)
  {
    hide VerifyMessageDigest, VerifyEContentSignature, VerifyDetachedSignature, ContentRepair.Repaired;
    checks := Checks(false, false);
    var valid := Checker(x, key, s.digestAlg, s.signatureAlg, s.signature);
    match x.target {
      case Detached(content) =>
        DetachedIsSigned(valid, s.attrs.value, content);
        var deferred: seq<Failure> := [];
        var digest := VerifyMessageDigest(s.attrs, x.digest(s.digestAlg, content));
        if digest.Ok? {
          checks := checks.(digestMatches := true);
        } else {
          deferred := [BadDigest(digest.error)];
        }
        var signature := VerifyDetachedSignature(valid, s.attrs.value);
        if signature.Ok? {
          checks := checks.(signatureMatches := true);
        } else {
          report.failures := report.failures + [BadSignature(signature.error)];
        }
        if checks.signatureMatches && checks.digestMatches {
          return true, checks;
        }
        var normalized := ContentRepair.NormalizeContent(content, x.boundary);
        var again := VerifyMessageDigest(s.attrs, x.digest(s.digestAlg, normalized));
        if again.Ok? {
          checks := checks.(digestMatches := true);
        }
        if checks.digestMatches && checks.signatureMatches {
          report.content := Some(normalized);
          report.failures := report.failures + [WildDuckWorkaround];
          return true, checks;
        }
        report.failures := report.failures + deferred;
        return false, checks;
      case EContent(content) =>
        if s.attrs.Some? {
          var digest := VerifyMessageDigest(s.attrs, x.digest(s.digestAlg, content));
          if digest.Ok? {
            checks := checks.(digestMatches := true);
          } else {
            report.failures := report.failures + [BadDigest(digest.error)];
          }
        }
        var signature := VerifyEContentSignature(valid, s.attrs, content);
        if signature.Ok? {
          checks := checks.(signatureMatches := true);
        } else {
          report.failures := report.failures + [BadSignature(signature.error)];
        }
        return checks.signatureMatches && (s.attrs.None? || checks.digestMatches), checks;
    }
  }

  lemma DetachedIsSigned(valid: Bytes -> bool, attrs: seq<Attribute>, content: Bytes)
    ensures VerifyDetachedSignature(valid, attrs) == VerifyEContentSignature(valid, Some(attrs), content)
  {
  }

  // ---------- The search for a signer's certificate ----------

  predicate KeyVerifies(x: Context, cert: Certificate, s: SignerInfo) {
    cert.key.Some? && Verifies(x, cert.key.value, s)
  }

  function FirstVerifying(x: Context, s: SignerInfo, candidates: seq<Certificate>): Option<Certificate> {
    if candidates == [] then None
    else if KeyVerifies(x, candidates[0], s) then Some(candidates[0])
    else FirstVerifying(x, s, candidates[1..])
  }

  function SearchFailures(x: Context, s: SignerInfo, idx: nat, candidates: seq<Certificate>): seq<Failure> {
    if candidates == [] then []
    else if candidates[0].key.None? then [UnusableKey(idx)] + SearchFailures(x, s, idx, candidates[1..])
    else if Verifies(x, candidates[0].key.value, s) then CandidateFailures(x, candidates[0].key.value, s)
    else CandidateFailures(x, candidates[0].key.value, s) + SearchFailures(x, s, idx, candidates[1..])
  }

  lemma {:induction false} FirstVerifyingExactly(x: Context, s: SignerInfo, candidates: seq<Certificate>)
    ensures FirstVerifying(x, s, candidates).Some? <==> exists c :: c in candidates && KeyVerifies(x, c, s)
    ensures FirstVerifying(x, s, candidates).Some? ==>
      var c := FirstVerifying(x, s, candidates).value; c in candidates && KeyVerifies(x, c, s)
  {
    hide KeyVerifies;
    if candidates != [] {
      HeadOrTail(candidates);
      FirstVerifyingExactly(x, s, candidates[1..]);
    }
  }

  lemma {:induction false} SearchStep(x: Context, s: SignerInfo, idx: nat, candidates: seq<Certificate>, i: nat)
    requires i < |candidates|
    ensures var c := candidates[i];
      && FirstVerifying(x, s, candidates[i..]) ==
           (if KeyVerifies(x, c, s) then Some(c) else FirstVerifying(x, s, candidates[i + 1..]))
      && SearchFailures(x, s, idx, candidates[i..]) ==
           (if c.key.None? then [UnusableKey(idx)] + SearchFailures(x, s, idx, candidates[i + 1..])
            else if KeyVerifies(x, c, s) then CandidateFailures(x, c.key.value, s)
            else CandidateFailures(x, c.key.value, s) + SearchFailures(x, s, idx, candidates[i + 1..]))
  {
    assert candidates[i..][0] == candidates[i] && candidates[i..][1..] == candidates[i + 1..];
  }

  method FindSignerCertificate(x: Context, s: SignerInfo, idx: nat, candidates: seq<Certificate>, report: Report)
    returns (found: Option<(Certificate, Checks)>)
    requires Precheck(x, s).None?
    modifies report
    ensures found == match FirstVerifying(x, s, candidates)
                     case None => None
                     case Some(c) => Some((c, Checks(s.attrs.Some?, true)))
    ensures report.failures == old(report.failures) + SearchFailures(x, s, idx, candidates)
    ensures report.content == if found.Some? && OnlyRepaired(x, s) then Some(Repaired(x)) else old(report.content)
    ensures report.signers == old(report.signers) && report.shown == old(report.shown)
  {
    hide Precheck, Verifies, OnlyRepaired, Repaired, CandidateFailures, FirstVerifying, SearchFailures;
    assert candidates[0..] == candidates;
    for i := 0 to |candidates|
      invariant FirstVerifying(x, s, candidates) == FirstVerifying(x, s, candidates[i..])
      invariant report.failures + SearchFailures(x, s, idx, candidates[i..])
             == old(report.failures) + SearchFailures(x, s, idx, candidates)
      invariant report.content == old(report.content)
      invariant report.signers == old(report.signers) && report.shown == old(report.shown)
    {
      var cert := candidates[i];
      SearchStep(x, s, idx, candidates, i);
      ghost var before, rest := report.failures, SearchFailures(x, s, idx, candidates[i + 1..]);
      if cert.key.None? {
        Associate(before, [UnusableKey(idx)], rest);
        report.failures := report.failures + [UnusableKey(idx)];
        continue;
      }
      Associate(before, CandidateFailures(x, cert.key.value, s), rest);
      var ok, checks := VerifyCandidate(x, cert.key.value, s, report);
      if ok {
        return Some((cert, checks));
      }
    }
    assert candidates[|candidates|..] == [];
    NothingLeft(x, s, idx);
    Associate(report.failures, [], []);
    return None;
  }

  lemma {:induction false} NothingLeft(x: Context, s: SignerInfo, idx: nat)
    ensures FirstVerifying(x, s, []) == None && SearchFailures(x, s, idx, []) == []
  {
  }

  // ---------- Chains ----------

  /** The certificates offered as intermediates: neither the leaf nor self-issued. */
  function Intermediates(leaf: Certificate, certs: seq<Certificate>): seq<Certificate> {
    if certs == [] then []
    else (if certs[0] != leaf && certs[0].issuer != certs[0].subject then [certs[0]] else []) + Intermediates(leaf, certs[1..])
  }

  function ChainOf(x: Context, leaf: Certificate): Option<seq<Ocsp.Certificate>> {
    x.chainOf(leaf, Intermediates(leaf, x.certs))
  }

  function Revocation(x: Context, leaf: Certificate): Option<Ocsp.Status> {
    match ChainOf(x, leaf)
    case None => None
    case Some(chain) => Ocsp.ChainStatus(x.crypto, x.staples, chain, x.now)
  }

  function RevokedErrors(certs: seq<Ocsp.Certificate>): seq<Failure> {
    Map((c: Ocsp.Certificate) => StapledOcspRevoked(c), certs)
  }

  function ChainFailures(x: Context, leaf: Certificate, idx: nat): seq<Failure> {
    match ChainOf(x, leaf)
    case None => [ChainValidation(idx)]
    case Some(chain) => RevokedErrors(Ocsp.RevokedFrom(x.crypto, x.staples, chain, x.now, 0))
  }

  predicate Trusted(x: Context, leaf: Certificate) {
    ChainOf(x, leaf).Some? && Revocation(x, leaf) != Some(Ocsp.Revoked)
  }

  /** `validate_chain` */
  method ValidateChain(x: Context, leaf: Certificate, idx: nat)
    returns (chain: seq<Ocsp.Certificate>, trusted: bool, status: Option<Ocsp.Status>, failures: seq<Failure>)
    ensures trusted == Trusted(x, leaf) && status == Revocation(x, leaf) && failures == ChainFailures(x, leaf, idx)
    ensures chain == match ChainOf(x, leaf) case None => [] case Some(c) => c
  {
    hide Ocsp.ChainStatus, Ocsp.RevokedFrom;
    match ChainOf(x, leaf) {
      case None =>
        return [], false, None, [ChainValidation(idx)];
      case Some(verified) =>
        var revocation, revoked := Ocsp.ApplyStapledOcsp(x.crypto, x.staples, verified, x.now, []);
        assert [] + Ocsp.RevokedFrom(x.crypto, x.staples, verified, x.now, 0)
            == Ocsp.RevokedFrom(x.crypto, x.staples, verified, x.now, 0);
        return verified, revocation != Some(Ocsp.Revoked), revocation, RevokedErrors(revoked);
    }
  }

  /** Position j of the certificates is offered as an intermediate: neither the leaf nor self-issued. */
  predicate OfferedAt(leaf: Certificate, certs: seq<Certificate>, j: nat) {
    j < |certs| && certs[j] != leaf && certs[j].issuer != certs[j].subject
  }

  /** The certificates that are offered, in their order, by their positions `at`. */
  ghost predicate Offered(leaf: Certificate, certs: seq<Certificate>, at: seq<nat>, offered: seq<Certificate>) {
    && |at| == |offered|
    && (forall k, l :: 0 <= k < l < |at| ==> at[k] < at[l])
    && (forall k :: 0 <= k < |at| ==> at[k] < |certs| && offered[k] == certs[at[k]])
    && (forall j: nat :: j in at <==> OfferedAt(leaf, certs, j))
  }

  lemma {:induction false} IntermediatesOffered(leaf: Certificate, certs: seq<Certificate>)
    ensures exists at :: Offered(leaf, certs, at, Intermediates(leaf, certs))
  {
    hide *;
    if certs == [] {
      NoneOffered(leaf);
      assert Offered(leaf, certs, [], Intermediates(leaf, certs));
    } else {
      var n := |certs| - 1;
      var front, last := certs[..n], certs[n];
      assert certs == front + [last];
      IntermediatesOffered(leaf, front);
      IntermediatesSnoc(leaf, front, last);
      var at, offered :| offered == Intermediates(leaf, front) && Offered(leaf, front, at, offered);
      OfferedSnoc(leaf, front, last, at, offered);
      OfferedLast(leaf, front, last);
      if OfferedAt(leaf, certs, n) {
        assert Offered(leaf, certs, at + [n], Intermediates(leaf, certs));
      } else {
        assert offered + [] == offered;
        assert Offered(leaf, certs, at, Intermediates(leaf, certs));
      }
    }
  }

  lemma {:induction false} NoneOffered(leaf: Certificate)
    ensures Offered(leaf, [], [], Intermediates(leaf, []))
  {
  }

  lemma OfferedLast(leaf: Certificate, front: seq<Certificate>, last: Certificate)
    ensures OfferedAt(leaf, front + [last], |front|) <==> last != leaf && last.issuer != last.subject
  {
  }

  lemma {:induction false} IntermediatesSnoc(leaf: Certificate, front: seq<Certificate>, last: Certificate)
    ensures Intermediates(leaf, front + [last])
         == Intermediates(leaf, front) + (if last != leaf && last.issuer != last.subject then [last] else [])
  {
    if front == [] {
      assert front + [last] == [last];
    } else {
      IntermediatesSnoc(leaf, front[1..], last);
      assert (front + [last])[1..] == front[1..] + [last];
    }
  }

  lemma {:induction false} OfferedSnoc(leaf: Certificate, front: seq<Certificate>, last: Certificate, at: seq<nat>, offered: seq<Certificate>)
    requires Offered(leaf, front, at, offered)
    ensures var certs, n := front + [last], |front|;
      && (!OfferedAt(leaf, certs, n) ==> Offered(leaf, certs, at, offered))
      && (OfferedAt(leaf, certs, n) ==> Offered(leaf, certs, at + [n], offered + [last]))
  {
    var certs, n := front + [last], |front|;
    forall j: nat ensures OfferedAt(leaf, certs, j) <==> OfferedAt(leaf, front, j) || (j == n && OfferedAt(leaf, certs, n)) {
    }
    assert forall j: nat :: j in at + [n] <==> j in at || j == n;
  }

  /** No staple is honoured for the revocation of an element that has an issuer in the chain. */
  ghost predicate NoneRevoked(x: Context, chain: seq<Ocsp.Certificate>) {
    forall j: nat :: !Ocsp.RevokedAt(x.crypto, x.staples, chain, x.now, j)
  }

  /** Trust means a verified chain in which no staple proves an element below the anchor revoked. */
  lemma TrustedExactly(x: Context, leaf: Certificate)
    ensures Trusted(x, leaf) <==> ChainOf(x, leaf).Some? && NoneRevoked(x, ChainOf(x, leaf).value)
  {
    hide Ocsp.ChainStatus, Ocsp.RevokedAt, Intermediates;
    if ChainOf(x, leaf).Some? {
      Ocsp.ChainRevokedExactly(x.crypto, x.staples, ChainOf(x, leaf).value, x.now);
    }
  }

  // ---------- Entries ----------

  /** `check_date_mismatch`: both dates known and more than an hour apart. */
  predicate DatesDiffer(a: Option<int>, b: Option<int>) {
    a.Some? && b.Some? && !(-3600 <= a.value - b.value <= 3600)
  }

  function TimeNotes(x: Context, signingTime: Option<int>): seq<Note> {
    if DatesDiffer(signingTime, x.outerDate) then [SigningTimeNote] else []
  }

  /** The entry of a signer whose key verified, before the sender is resolved. */
  function BaseEntry(x: Context, s: SignerInfo, leaf: Certificate): Entry {
    var time := SigningTimeOf(s.attrs);
    Entry(leaf, Checks(s.attrs.Some?, true), match ChainOf(x, leaf) case None => [] case Some(c) => c,
          Trusted(x, leaf), Revocation(x, leaf), Trusted(x, leaf), time, TimeNotes(x, time))
  }

  /** The certificate that vouches for a signer, if the signer passes. */
  function SignerLeaf(x: Context, s: SignerInfo): Option<Certificate> {
    if s.algorithms.Err? || Precheck(x, s).Some? then None else FirstVerifying(x, s, Candidates(s.sid, x.certs))
  }

  /** RFC 5652, section 5.3: the version follows from the kind of identifier. */
  function VersionFailures(s: SignerInfo, idx: nat): seq<Failure> {
    var expected := if s.sid.IssuerAndSerial? then 1 else 3;
    if s.version != expected then [VersionMismatch(expected, s.version, idx)] else []
  }

  function AlgorithmFailures(s: SignerInfo): seq<Failure> {
    match s.algorithms
    case Err(refusal) => [AlgorithmFailure(refusal)]
    case Ok(warnings) => Map((w: string) => AlgorithmFailure(w), warnings)
  }

  function AttributeFailures(faults: seq<Fault>, idx: nat): seq<Failure> {
    Map((f: Fault) => AttributeFailure(f, idx), faults)
  }

  /** What the SignerInfo itself gives rise to, before any certificate is looked for. */
  function OwnFailures(s: SignerInfo, idx: nat): seq<Failure> {
    VersionFailures(s, idx) + AlgorithmFailures(s)
    + (if s.algorithms.Err? then [] else AttributeFailures(AttributeFaults(s.attrs, s.digestAlg, s.signatureAlg), idx))
  }

  function SignerFailures(x: Context, s: SignerInfo, idx: nat): seq<Failure> {
    OwnFailures(s, idx) + LaterFailures(x, s, idx)
  }

  function LaterFailures(x: Context, s: SignerInfo, idx: nat): seq<Failure> {
    var candidates := Candidates(s.sid, x.certs);
    if s.algorithms.Err? then []
    else if candidates == [] then [SignerCertNotFound(idx)]
    else match Precheck(x, s)
      case Some(f) => [f]
      case None =>
        SearchFailures(x, s, idx, candidates) +
          match SignerLeaf(x, s) case None => [] case Some(leaf) => ChainFailures(x, leaf, idx)
  }

  /** `prepare_signer`: the signing time and the candidates, or None for a signer that is skipped. */
  method PrepareSigner(x: Context, s: SignerInfo, idx: nat, report: Report)
    returns (r: Option<(Option<int>, seq<Certificate>)>)
    modifies report
    ensures r == if s.algorithms.Err? || Candidates(s.sid, x.certs) == [] then None
                 else Some((SigningTimeOf(s.attrs), Candidates(s.sid, x.certs)))
    ensures report.failures == old(report.failures) + OwnFailures(s, idx) +
      (if s.algorithms.Ok? && Candidates(s.sid, x.certs) == [] then [SignerCertNotFound(idx)] else [])
    ensures report.signers == old(report.signers) && report.content == old(report.content) && report.shown == old(report.shown)
  {
    hide AttributeFailures, Candidates, VersionFailures, AlgorithmFailures;
    ghost var before := report.failures;
    report.failures := report.failures + VersionFailures(s, idx);
    report.failures := report.failures + AlgorithmFailures(s);
    Associate(before, VersionFailures(s, idx), AlgorithmFailures(s));
    if s.algorithms.Err? {
      Associate(VersionFailures(s, idx) + AlgorithmFailures(s), [], []);
      Associate(report.failures, [], []);
      return None;
    }
    var faults, signingTime := ScanAttributes(s.attrs, s.digestAlg, s.signatureAlg);
    report.failures := report.failures + AttributeFailures(faults, idx);
    Associate(before, VersionFailures(s, idx) + AlgorithmFailures(s), AttributeFailures(faults, idx));
    Associate(report.failures, [], []);
    var candidates := Candidates(s.sid, x.certs);
    if |candidates| == 0 {
      report.failures := report.failures + [SignerCertNotFound(idx)];
      return None;
    }
    return Some((signingTime, candidates));
  }

  function ClaimOf(x: Context, from: From, leaf: Certificate): Sender.Claim {
    Sender.Claim(from.address, from.name, leaf.emails, leaf.names)
  }

  /** What a valid signer's certificate confirms of the inner From header. */
  function ConfirmedBy(x: Context, leaf: Certificate): Sender.Match {
    if !Trusted(x, leaf) || x.innerFrom.None? then Sender.Unmatched
    else Sender.Confirmed(x.toALabel, ClaimOf(x, x.innerFrom.value, leaf))
  }

  function CaseNotes(ws: seq<Sender.CaseMismatch>): seq<Note> { Map((w: Sender.CaseMismatch) => CaseNote(w), ws) }

  /** The notes that resolving the sender adds to an entry. */
  function SenderNotes(x: Context, leaf: Certificate, m: Sender.Match): seq<Note> {
    if !Trusted(x, leaf) then []
    else (if m.Full? || ConfirmedBy(x, leaf).Unmatched? then []
          else CaseNotes(Sender.CaseWarnings(x.toALabel, ClaimOf(x, x.innerFrom.value, leaf))))
         + (if DatesDiffer(x.outerDate, x.innerDate) then [InnerDateNote] else [])
  }

  function FullEntry(x: Context, s: SignerInfo, leaf: Certificate, m: Sender.Match): Entry {
    var e := BaseEntry(x, s, leaf);
    e.(notes := e.notes + SenderNotes(x, leaf, m))
  }

  /** What is shown once the sender is resolved this far. */
  function ShownFor(x: Context, m: Sender.Match, outer: Shown): Shown {
    match m
    case Unmatched => outer
    case AddressOnly(address) => Shown(Some(address), None, x.innerDate)
    case Full(address, name) => Shown(Some(address), Some(name), x.innerDate)
  }

  /** `resolve_sender` */
  method ResolveSender(x: Context, entry: Entry, resolver: Sender.SenderResolver, report: Report, ghost outer: Shown)
    returns (full: Entry)
    requires resolver.Valid() && report.shown == ShownFor(x, resolver.Resolved(), outer)
    requires entry.valid == Trusted(x, entry.leaf)
    modifies resolver, report`shown
    ensures full == entry.(notes := entry.notes + SenderNotes(x, entry.leaf, old(resolver.Resolved())))
    ensures resolver.Valid()
    ensures resolver.Resolved() == Sender.Next(old(resolver.Resolved()), ConfirmedBy(x, entry.leaf))
    ensures report.shown == ShownFor(x, resolver.Resolved(), outer)
  {
    hide Trusted, Sender.Confirmed, Sender.CaseWarnings;
    full := entry;
    if !entry.valid {
      assert full.notes + [] == full.notes;
      return;
    }
    ghost var m := resolver.Resolved();
    ghost var caseNotes: seq<Note> := [];
    if x.innerFrom.Some? {
      var claim := ClaimOf(x, x.innerFrom.value, entry.leaf);
      var updated, warnings := resolver.Update(x.toALabel, claim);
      full := full.(notes := full.notes + CaseNotes(warnings));
      caseNotes := CaseNotes(warnings);
      if updated {
        report.shown := Shown(resolver.fromAddress, resolver.fromComment, x.innerDate);
      }
    }
    ghost var dateNotes := if DatesDiffer(x.outerDate, x.innerDate) then [InnerDateNote] else [];
    assert SenderNotes(x, entry.leaf, m) == caseNotes + dateNotes;
    if DatesDiffer(x.outerDate, x.innerDate) {
      full := full.(notes := full.notes + [InnerDateNote]);
    }
    assert full.notes == entry.notes + (caseNotes + dateNotes);
  }

  // ---------- The loop over the signers ----------

  function Moved(x: Context, s: SignerInfo, m: Sender.Match): Sender.Match {
    match SignerLeaf(x, s) case None => m case Some(leaf) => Sender.Next(m, ConfirmedBy(x, leaf))
  }

  function Entries(x: Context, signers: seq<SignerInfo>, m: Sender.Match): seq<Entry> {
    if signers == [] then []
    else
      var rest := Entries(x, signers[1..], Moved(x, signers[0], m));
      match SignerLeaf(x, signers[0])
      case None => rest
      case Some(leaf) => [FullEntry(x, signers[0], leaf, m)] + rest
  }

  function AllFailures(x: Context, signers: seq<SignerInfo>, idx: nat): seq<Failure> {
    if signers == [] then [] else SignerFailures(x, signers[0], idx) + AllFailures(x, signers[1..], idx + 1)
  }

  function ResolvedAfter(x: Context, signers: seq<SignerInfo>, m: Sender.Match): Sender.Match {
    if signers == [] then m else ResolvedAfter(x, signers[1..], Moved(x, signers[0], m))
  }

  /** Some signer that passes does so only over the repaired content. */
  predicate RepairUsed(x: Context, signers: seq<SignerInfo>) {
    exists s :: s in signers && SignerLeaf(x, s).Some? && OnlyRepaired(x, s)
  }

  lemma {:induction false} LoopStep(x: Context, signers: seq<SignerInfo>, i: nat, m: Sender.Match)
    requires i < |signers|
    ensures var s := signers[i];
      && AllFailures(x, signers[i..], i) == SignerFailures(x, s, i) + AllFailures(x, signers[i + 1..], i + 1)
      && ResolvedAfter(x, signers[i..], m) == ResolvedAfter(x, signers[i + 1..], Moved(x, s, m))
      && Entries(x, signers[i..], m) ==
           (match SignerLeaf(x, s) case None => [] case Some(leaf) => [FullEntry(x, s, leaf, m)])
           + Entries(x, signers[i + 1..], Moved(x, s, m))
  {
    hide SignerLeaf, FullEntry, SignerFailures, Moved;
    assert signers[i..][0] == signers[i] && signers[i..][1..] == signers[i + 1..];
  }

  lemma RepairStep(x: Context, signers: seq<SignerInfo>, i: nat)
    requires i < |signers|
    ensures !RepairUsed(x, signers[..0])
    ensures RepairUsed(x, signers[..i + 1]) <==>
      RepairUsed(x, signers[..i]) || (SignerLeaf(x, signers[i]).Some? && OnlyRepaired(x, signers[i]))
  {
    hide SignerLeaf, OnlyRepaired;
    assert signers[..i + 1] == signers[..i] + [signers[i]];
  }

  /** One turn of the loop. */
  method VerifySigner(x: Context, s: SignerInfo, idx: nat, resolver: Sender.SenderResolver, report: Report, ghost outer: Shown)
    requires resolver.Valid() && report.shown == ShownFor(x, resolver.Resolved(), outer)
    modifies resolver, report
    ensures resolver.Valid() && resolver.Resolved() == Moved(x, s, old(resolver.Resolved()))
    ensures report.shown == ShownFor(x, resolver.Resolved(), outer)
    ensures report.failures == old(report.failures) + SignerFailures(x, s, idx)
    ensures report.content ==
      if SignerLeaf(x, s).Some? && OnlyRepaired(x, s) then Some(Repaired(x)) else old(report.content)
    ensures report.signers == old(report.signers) +
      match SignerLeaf(x, s) case None => [] case Some(leaf) => [FullEntry(x, s, leaf, old(resolver.Resolved()))]
  {
    hide Trusted, ChainFailures, Revocation, ChainOf, Precheck, OnlyRepaired, Repaired, SearchFailures, FirstVerifying,
         Candidates, ShownFor, SenderNotes, ConfirmedBy, OwnFailures, SigningTimeOf, TimeNotes;
    Associate(report.signers, [], []);
    NothingLeft(x, s, idx);
    ghost var before, own := report.failures, OwnFailures(s, idx);
    Associate(before, own, [SignerCertNotFound(idx)]);
    Associate(before + own, [], []);
    Associate(own, [], []);
    var prepared := PrepareSigner(x, s, idx, report);
    if prepared.None? {
      return;
    }
    var signingTime, candidates := prepared.value.0, prepared.value.1;
    var refused := Precheck(x, s);
    if refused.Some? {
      report.failures := report.failures + [refused.value];
      Associate(before, own, [refused.value]);
      return;
    }
    var found := FindSignerCertificate(x, s, idx, candidates, report);
    ghost var searched := SearchFailures(x, s, idx, candidates);
    Associate(before, own, searched);
    if found.None? {
      Associate(searched, [], []);
      return;
    }
    var leaf, checks := found.value.0, found.value.1;
    var entry := Entry(leaf, checks, [], false, None, false, signingTime, TimeNotes(x, signingTime));
    var chain, trusted, status, failures := ValidateChain(x, leaf, idx);
    entry := entry.(chain := chain, trusted := trusted, revocation := status);
    report.failures := report.failures + failures;
    Associate(before + own, searched, failures);
    Associate(before, own, searched + failures);
    var cryptoValid := checks.signatureMatches && (checks.digestMatches || s.attrs.None?);
    entry := entry.(valid := cryptoValid && trusted);
    entry := ResolveSender(x, entry, resolver, report, outer);
    report.signers := report.signers + [entry];
  }

  /** The loop of `verify_signed_data`. */
  method VerifySigners(x: Context, signers: seq<SignerInfo>, report: Report)
    modifies report
    ensures report.signers == old(report.signers) + Entries(x, signers, Sender.Unmatched)
    ensures report.failures == old(report.failures) + AllFailures(x, signers, 0)
    ensures report.content == if RepairUsed(x, signers) then Some(Repaired(x)) else old(report.content)
    ensures ShownAfter(x, Entries(x, signers, Sender.Unmatched), old(report.shown), report.shown)
  {
    hide SignerLeaf, FullEntry, SignerFailures, Moved, Entries, AllFailures, ResolvedAfter, RepairUsed, Repaired, OnlyRepaired,
         ShownAfter;
    ShownExactly(x, signers, report.shown);
    var resolver := new Sender.SenderResolver();
    assert signers[0..] == signers;
    NoSigners(x, 0, Sender.Unmatched);
    assert signers[..0] == [];
    for i := 0 to |signers|
      invariant fresh(resolver) && resolver.Valid()
      invariant report.shown == ShownFor(x, resolver.Resolved(), old(report.shown))
      invariant ResolvedAfter(x, signers, Sender.Unmatched) == ResolvedAfter(x, signers[i..], resolver.Resolved())
      invariant report.signers + Entries(x, signers[i..], resolver.Resolved())
             == old(report.signers) + Entries(x, signers, Sender.Unmatched)
      invariant report.failures + AllFailures(x, signers[i..], i) == old(report.failures) + AllFailures(x, signers, 0)
      invariant report.content == if RepairUsed(x, signers[..i]) then Some(Repaired(x)) else old(report.content)
    {
      LoopStep(x, signers, i, resolver.Resolved());
      RepairStep(x, signers, i);
      Associate(report.failures, SignerFailures(x, signers[i], i), AllFailures(x, signers[i + 1..], i + 1));
      ghost var m := resolver.Resolved();
      Associate(report.signers,
        match SignerLeaf(x, signers[i]) case None => [] case Some(leaf) => [FullEntry(x, signers[i], leaf, m)],
        Entries(x, signers[i + 1..], Moved(x, signers[i], m)));
      VerifySigner(x, signers[i], i, resolver, report, old(report.shown));
    }
    NoSigners(x, |signers|, resolver.Resolved());
    assert signers[|signers|..] == [];
    assert signers[..|signers|] == signers;
    Associate(report.failures, [], []);
    Associate(report.signers, [], []);
  }

  lemma {:induction false} NoSigners(x: Context, idx: nat, m: Sender.Match)
    ensures Entries(x, [], m) == [] && AllFailures(x, [], idx) == [] && ResolvedAfter(x, [], m) == m && !RepairUsed(x, [])
  {
  }

  // ---------- verify_signed_data ----------

  /** What is looked at before the loop: each None means that the step succeeds. */
  datatype Preparation = Preparation(
    isData: bool, wrongVersion: Option<string>, noCaCerts: Option<string>, innerParses: bool, noVerifier: Option<string>)
  {
    predicate Ready() { isData && noCaCerts.None? && innerParses && noVerifier.None? }

    /** The outer From and Date have replaced what the report showed before. */
    predicate OuterShown() { isData && noCaCerts.None? }
  }

  function OuterShown(x: Context, outerFrom: Option<From>, shown: Shown): Shown {
    match outerFrom
    case None => shown.(date := x.outerDate)
    case Some(from) =>
      Shown(match from.address case None => None case Some(a) => Some(x.toALabel(a)), from.name, x.outerDate)
  }

  /** The outer From, its domain as A-label, and the outer date; without a From its fields stay as they were. */
  predicate OuterSender(x: Context, outerFrom: Option<From>, before: Shown, outer: Shown) {
    && outer.date == x.outerDate
    && (outerFrom.None? ==> outer.address == before.address && outer.comment == before.comment)
    && (outerFrom.Some? ==>
          && outer.comment == outerFrom.value.name
          && (outerFrom.value.address.None? ==> outer.address.None?)
          && (outerFrom.value.address.Some? ==> outer.address == Some(x.toALabel(outerFrom.value.address.value))))
  }

  lemma OuterShownExactly(x: Context, outerFrom: Option<From>, before: Shown)
    ensures OuterSender(x, outerFrom, before, OuterShown(x, outerFrom, before))
  {
  }

  function Told(why: Option<string>): seq<Failure> { match why case None => [] case Some(w) => [Setup(w)] }

  /** The failures of the preparation, in order. */
  function PreparationFailures(p: Preparation, outerFrom: Option<From>): seq<Failure> {
    if !p.isData then [Setup("eContentType")]
    else if p.noCaCerts.Some? then Told(p.wrongVersion) + Told(p.noCaCerts)
    else
      var told := Told(p.wrongVersion) + (if outerFrom.None? then [MissingFrom] else []);
      if !p.innerParses then told + [Setup("inner message")] else told + Told(p.noVerifier)
  }

  /** `prepare_signed_data_verification` */
  method Prepare(x: Context, p: Preparation, outerFrom: Option<From>, report: Report) returns (ready: bool)
    modifies report
    ensures ready == (p.isData && p.noCaCerts.None? && p.innerParses)
    ensures report.signers == old(report.signers)
    ensures report.failures == old(report.failures) + PreparationFailures(if ready then p.(noVerifier := None) else p, outerFrom)
    ensures report.content == if p.isData then Some(x.target.content) else old(report.content)
    ensures report.shown == if p.OuterShown() then OuterShown(x, outerFrom, old(report.shown)) else old(report.shown)
  {
    ghost var before := report.failures;
    if !p.isData {
      report.failures := report.failures + [Setup("eContentType")];
      return false;
    }
    report.failures := report.failures + Told(p.wrongVersion);
    report.content := Some(x.target.content);
    if p.noCaCerts.Some? {
      report.failures := report.failures + [Setup(p.noCaCerts.value)];
      Associate(before, Told(p.wrongVersion), Told(p.noCaCerts));
      return false;
    }
    match outerFrom {
      case Some(from) =>
        report.shown := report.shown.(
          address := match from.address case None => None case Some(a) => Some(x.toALabel(a)),
          comment := from.name);
        Associate(before, Told(p.wrongVersion), []);
      case None =>
        report.failures := report.failures + [MissingFrom];
        Associate(before, Told(p.wrongVersion), [MissingFrom]);
    }
    report.shown := report.shown.(date := x.outerDate);
    ghost var told := Told(p.wrongVersion) + (if outerFrom.None? then [MissingFrom] else []);
    assert report.failures == before + told;
    if !p.innerParses {
      report.failures := report.failures + [Setup("inner message")];
      Associate(before, told, [Setup("inner message")]);
      return false;
    }
    Associate(before, told, []);
    return true;
  }

  /** `verify_signed_data`: without a complete preparation no signer is reported, and the report says why. */
  method VerifySignedData(x: Context, p: Preparation, outerFrom: Option<From>, signers: seq<SignerInfo>, report: Report)
    modifies report
    ensures report.signers == old(report.signers) + (if p.Ready() then Entries(x, signers, Sender.Unmatched) else [])
    ensures report.failures == old(report.failures) + PreparationFailures(p, outerFrom)
                               + (if p.Ready() then AllFailures(x, signers, 0) else [])
    ensures report.content == (
      if !p.isData then old(report.content)
      else if p.Ready() && RepairUsed(x, signers) then Some(Repaired(x)) else Some(x.target.content))
    ensures !p.isData || p.noCaCerts.Some? ==> report.shown == old(report.shown)
    ensures p.isData && p.noCaCerts.None? ==>
      exists outer :: OuterSender(x, outerFrom, old(report.shown), outer)
        && (if p.Ready() then ShownAfter(x, Entries(x, signers, Sender.Unmatched), outer, report.shown) else report.shown == outer)
  {
    hide Entries, AllFailures, RepairUsed, Repaired, ShownAfter, OuterShown, OuterSender, PreparationFailures;
    ghost var outer := OuterShown(x, outerFrom, report.shown);
    OuterShownExactly(x, outerFrom, report.shown);
    ghost var before := report.failures;
    Associate(before, PreparationFailures(p, outerFrom), []);
    Associate(report.signers, [], []);
    var ready := Prepare(x, p, outerFrom, report);
    if !ready {
      return;
    }
    if p.noVerifier.Some? {
      VerifierMissing(p, outerFrom);
      Associate(before, PreparationFailures(p.(noVerifier := None), outerFrom), [Setup(p.noVerifier.value)]);
      report.failures := report.failures + [Setup(p.noVerifier.value)];
      return;
    }
    assert p.(noVerifier := None) == p;
    VerifySigners(x, signers, report);
  }

  lemma VerifierMissing(p: Preparation, outerFrom: Option<From>)
    requires p.isData && p.noCaCerts.None? && p.innerParses && p.noVerifier.Some?
    ensures PreparationFailures(p, outerFrom)
         == PreparationFailures(p.(noVerifier := None), outerFrom) + [Setup(p.noVerifier.value)]
  {
  }

  /** An incomplete preparation is always told. */
  lemma PreparationTold(p: Preparation, outerFrom: Option<From>)
    ensures !p.Ready() ==> PreparationFailures(p, outerFrom) != []
    ensures PreparationFailures(p, outerFrom) == [] <==> p.Ready() && p.wrongVersion.None? && outerFrom.Some?
  {
  }

  // ---------- What every run guarantees ----------

  /** The octets a signer's signature covers: the content, or all signed attributes. */
  ghost predicate Covered(x: Context, s: SignerInfo, octets: Bytes) {
    match s.attrs case None => octets == x.target.content case Some(all) => SetOfAll(all, octets)
  }

  /** The signer has one digest attribute, with one value, which is the digest of this content. */
  ghost predicate DigestCovers(x: Context, s: SignerInfo, content: Bytes) {
    s.attrs.Some? && x.digest(s.digestAlg, content).Some? && OneDigest(s.attrs.value, [x.digest(s.digestAlg, content)])
  }

  /** The certificate is the signer's, and its key verifies the signature over what the message shows. */
  ghost predicate Vouches(x: Context, s: SignerInfo, cert: Certificate) {
    && cert in x.certs && NamesCert(s.sid, cert) && cert.key.Some?
    && (exists octets :: Covered(x, s, octets) && x.verifies(cert.key.value, s.digestAlg, s.signatureAlg, s.signature, octets))
    && (s.attrs.None? ==> x.target.EContent? && !x.looksLikeSignedAttrs(x.target.content))
    && (s.attrs.Some? ==>
          || DigestCovers(x, s, x.target.content)
          || (x.target.Detached? && DigestCovers(x, s, ContentRepair.Repaired(x.target.content, x.boundary))))
  }

  lemma SignatureOfExactly(x: Context, s: SignerInfo, key: Bytes)
    ensures SignatureOf(x, key, s).Ok? <==>
      exists octets :: Covered(x, s, octets) && x.verifies(key, s.digestAlg, s.signatureAlg, s.signature, octets)
  {
    hide SetOfAll, SignedOctets;
    if s.attrs.Some? {
      forall octets ensures SignedOctets(s.attrs.value) == Some(octets) <==> SetOfAll(s.attrs.value, octets) {
        SignedOctetsExactly(s.attrs.value, octets);
      }
    }
  }

  lemma DigestOfExactly(x: Context, s: SignerInfo, content: Bytes)
    ensures DigestOf(x, s, content).Ok? <==> DigestCovers(x, s, content)
  {
    hide OneDigest, VerifyMessageDigest;
    MessageDigestExactly(s.attrs, x.digest(s.digestAlg, content));
  }

  lemma KeyVerifiesExactly(x: Context, s: SignerInfo, cert: Certificate)
    requires Precheck(x, s).None? && cert in x.certs && NamesCert(s.sid, cert)
    ensures KeyVerifies(x, cert, s) <==> Vouches(x, s, cert)
  {
    hide DigestOf, DigestCovers, ContentRepair.Repaired, SignatureOf, Covered;
    if cert.key.Some? {
      SignatureOfExactly(x, s, cert.key.value);
    }
    DigestOfExactly(x, s, x.target.content);
    DigestOfExactly(x, s, Repaired(x));
  }

  /** A signer is reported exactly when some certificate vouches for it. */
  lemma SignerLeafExactly(x: Context, s: SignerInfo)
    ensures SignerLeaf(x, s).Some? <==> s.algorithms.Ok? && exists cert :: Vouches(x, s, cert)
    ensures SignerLeaf(x, s).Some? ==> Vouches(x, s, SignerLeaf(x, s).value)
  {
    if Precheck(x, s).None? {
      hide Vouches, KeyVerifies, Precheck, Candidates, FirstVerifying;
      CandidatesExactly(s.sid, x.certs);
      FirstVerifyingExactly(x, s, Candidates(s.sid, x.certs));
      forall cert | cert in x.certs && NamesCert(s.sid, cert) ensures KeyVerifies(x, cert, s) <==> Vouches(x, s, cert) {
        KeyVerifiesExactly(x, s, cert);
      }
      forall cert | Vouches(x, s, cert) ensures cert in x.certs && NamesCert(s.sid, cert) {
        VouchesMeans(x, s, cert);
      }
    } else {
      forall cert ensures !Vouches(x, s, cert) {
      }
    }
  }

  lemma VouchesMeans(x: Context, s: SignerInfo, cert: Certificate)
    requires Vouches(x, s, cert)
    ensures cert in x.certs && NamesCert(s.sid, cert)
  {
  }

  /** The indices, from i on, of the signers that are reported. */
  function PassedFrom(x: Context, signers: seq<SignerInfo>, i: nat): seq<nat>
    requires i <= |signers|
    decreases |signers| - i
  {
    if i == |signers| then []
    else (if SignerLeaf(x, signers[i]).Some? then [i] else []) + PassedFrom(x, signers, i + 1)
  }

  /** The chain the verifier finds with all other certificates that are not self-issued, and what the staples say of it. */
  ghost predicate TruthfulChain(x: Context, e: Entry) {
    exists at, offered :: Offered(e.leaf, x.certs, at, offered)
      && match x.chainOf(e.leaf, offered) {
        case None => e.chain == [] && e.revocation.None? && !e.trusted
        case Some(chain) =>
          && e.chain == chain
          && e.revocation == Ocsp.ChainStatus(x.crypto, x.staples, chain, x.now)
          && (e.trusted <==> NoneRevoked(x, chain))
      }
  }

  /** What an entry says is true of its signer. */
  ghost predicate Truthful(x: Context, s: SignerInfo, e: Entry) {
    && Vouches(x, s, e.leaf)
    && e.checks == Checks(s.attrs.Some?, true)
    && TruthfulChain(x, e)
    && e.valid == e.trusted
    && e.signingTime == SigningTimeOf(s.attrs)
  }

  lemma EntryTruthful(x: Context, s: SignerInfo, m: Sender.Match)
    requires SignerLeaf(x, s).Some?
    ensures Truthful(x, s, FullEntry(x, s, SignerLeaf(x, s).value, m))
  {
    hide SignerLeaf, Vouches, SenderNotes, Offered, Intermediates, NoneRevoked, SigningTimeOf, Ocsp.ChainStatus, Trusted;
    var leaf := SignerLeaf(x, s).value;
    SignerLeafExactly(x, s);
    TrustedExactly(x, leaf);
    IntermediatesOffered(leaf, x.certs);
    TrustedHasChain(x, leaf);
  }

  lemma TrustedHasChain(x: Context, leaf: Certificate)
    ensures Trusted(x, leaf) ==> ChainOf(x, leaf).Some?
  {
  }

  ghost predicate Increasing(at: seq<nat>, from: nat, to: nat) {
    && (forall j :: 0 <= j < |at| ==> from <= at[j] < to)
    && (forall j, k :: 0 <= j < k < |at| ==> at[j] < at[k])
  }

  lemma {:induction false} PassedInOrder(x: Context, signers: seq<SignerInfo>, i: nat)
    requires i <= |signers|
    ensures Increasing(PassedFrom(x, signers, i), i, |signers|)
    ensures forall k :: i <= k < |signers| ==> (k in PassedFrom(x, signers, i) <==> SignerLeaf(x, signers[k]).Some?)
    decreases |signers| - i
  {
    hide SignerLeaf;
    if i < |signers| {
      PassedInOrder(x, signers, i + 1);
    }
  }

  lemma PassedStep(x: Context, signers: seq<SignerInfo>, i: nat)
    requires i < |signers|
    ensures PassedFrom(x, signers, i) == (if SignerLeaf(x, signers[i]).Some? then [i] else []) + PassedFrom(x, signers, i + 1)
  {
  }

  /** Entry j is truthful about the signer at at[j]. */
  ghost predicate Follow(x: Context, signers: seq<SignerInfo>, i: nat, at: seq<nat>, es: seq<Entry>) {
    |es| == |at| && forall j :: 0 <= j < |es| ==> i <= at[j] < |signers| && Truthful(x, signers[at[j]], es[j])
  }

  lemma FollowStep(x: Context, signers: seq<SignerInfo>, i: nat, at: seq<nat>, es: seq<Entry>)
    requires i < |signers| && Follow(x, signers, i + 1, at, es)
    ensures Follow(x, signers, i, [] + at, [] + es)
    ensures forall e :: Truthful(x, signers[i], e) ==> Follow(x, signers, i, [i] + at, [e] + es)
  {
    hide Truthful;
  }

  lemma {:induction false} EntriesFollow(x: Context, signers: seq<SignerInfo>, i: nat, m: Sender.Match)
    requires i <= |signers|
    ensures Follow(x, signers, i, PassedFrom(x, signers, i), Entries(x, signers[i..], m))
    decreases |signers| - i
  {
    if i == |signers| {
      assert signers[i..] == [];
    } else {
      hide *;
      LoopStep(x, signers, i, m);
      PassedStep(x, signers, i);
      var next := Moved(x, signers[i], m);
      EntriesFollow(x, signers, i + 1, next);
      FollowStep(x, signers, i, PassedFrom(x, signers, i + 1), Entries(x, signers[i + 1..], next));
      if SignerLeaf(x, signers[i]).Some? {
        EntryTruthful(x, signers[i], m);
      }
    }
  }

  /**
   * Entries follow the order of the SignerInfos; exactly the signers somebody vouches for have one,
   * and each entry is truthful about its own signer.
   */
  lemma {:induction false} ReportedExactly(x: Context, signers: seq<SignerInfo>)
    ensures var es, at := Entries(x, signers, Sender.Unmatched), PassedFrom(x, signers, 0);
      && |es| == |at| && Increasing(at, 0, |signers|)
      && (forall k :: 0 <= k < |signers| ==>
            (k in at <==> signers[k].algorithms.Ok? && exists cert :: Vouches(x, signers[k], cert)))
      && (forall j :: 0 <= j < |es| ==> 0 <= at[j] < |signers| && Truthful(x, signers[at[j]], es[j]))
  {
    hide Truthful, Vouches, SignerLeaf, Entries, PassedFrom;
    assert signers[0..] == signers;
    EntriesFollow(x, signers, 0, Sender.Unmatched);
    PassedInOrder(x, signers, 0);
    forall k | 0 <= k < |signers|
      ensures SignerLeaf(x, signers[k]).Some? <==> signers[k].algorithms.Ok? && exists cert :: Vouches(x, signers[k], cert)
    {
      SignerLeafExactly(x, signers[k]);
    }
  }

  // ---------- The failures, in terms of the signers ----------

  /** The first of these certificates that the signer names and whose key verifies. */
  ghost predicate FirstOf(x: Context, s: SignerInfo, certs: seq<Certificate>, k: nat) {
    && k < |certs| && NamesCert(s.sid, certs[k]) && KeyVerifies(x, certs[k], s)
    && forall j :: 0 <= j < k ==> !(NamesCert(s.sid, certs[j]) && KeyVerifies(x, certs[j], s))
  }

  lemma {:induction false} LeafIsFirst(x: Context, s: SignerInfo, certs: seq<Certificate>)
    ensures var leaf := FirstVerifying(x, s, Candidates(s.sid, certs));
      leaf.Some? ==> exists k: nat :: FirstOf(x, s, certs, k) && leaf == Some(certs[k])
  {
    hide KeyVerifies;
    if certs != [] {
      var rest := certs[1..];
      LeafIsFirst(x, s, rest);
      CandidatesStep(s.sid, certs);
      assert forall j :: 0 <= j < |rest| ==> rest[j] == certs[j + 1];
      if NamesCert(s.sid, certs[0]) && KeyVerifies(x, certs[0], s) {
        assert FirstOf(x, s, certs, 0);
      } else if FirstVerifying(x, s, Candidates(s.sid, rest)).Some? {
        var k: nat :| FirstOf(x, s, rest, k) && FirstVerifying(x, s, Candidates(s.sid, rest)) == Some(rest[k]);
        forall j | 0 <= j < k + 1 ensures !(NamesCert(s.sid, certs[j]) && KeyVerifies(x, certs[j], s)) {
          if j > 0 {
            assert !(NamesCert(s.sid, rest[j - 1]) && KeyVerifies(x, rest[j - 1], s));
          }
        }
        assert FirstOf(x, s, certs, k + 1);
      }
    }
  }

  lemma {:induction false} CandidatesStep(sid: CertId, certs: seq<Certificate>)
    requires certs != []
    ensures Candidates(sid, certs) == if NamesCert(sid, certs[0]) then [certs[0]] + Candidates(sid, certs[1..]) else Candidates(sid, certs[1..])
  {
  }

  /** A search tells of unusable keys, digests and signatures, and of the workaround exactly when it was needed. */
  lemma {:induction false} SearchKinds(x: Context, s: SignerInfo, idx: nat, candidates: seq<Certificate>)
    ensures forall f :: f in SearchFailures(x, s, idx, candidates) ==>
      f == UnusableKey(idx) || f.BadDigest? || f.BadSignature? || f.WildDuckWorkaround?
    ensures WildDuckWorkaround in SearchFailures(x, s, idx, candidates) <==>
      FirstVerifying(x, s, candidates).Some? && OnlyRepaired(x, s)
  {
    hide DigestOf, SignatureOf, Verifies, OnlyRepaired;
    if candidates != [] {
      SearchKinds(x, s, idx, candidates[1..]);
      if candidates[0].key.Some? {
        CandidateKinds(x, candidates[0].key.value, s);
      }
    }
  }

  lemma CandidateKinds(x: Context, key: Bytes, s: SignerInfo)
    ensures forall f :: f in CandidateFailures(x, key, s) ==> f.BadDigest? || f.BadSignature? || f.WildDuckWorkaround?
    ensures WildDuckWorkaround in CandidateFailures(x, key, s) <==> Verifies(x, key, s) && OnlyRepaired(x, s)
    ensures Verifies(x, key, s) && !OnlyRepaired(x, s) ==> CandidateFailures(x, key, s) == []
    ensures CandidateFailures(x, key, s) == [] ==> Verifies(x, key, s)
  {
    hide Repaired, VerifyMessageDigest, VerifyEContentSignature;
  }

  ghost predicate RevokedElement(x: Context, chain: seq<Ocsp.Certificate>, c: Ocsp.Certificate) {
    exists j: nat :: j < |chain| && chain[j] == c && Ocsp.RevokedAt(x.crypto, x.staples, chain, x.now, j)
  }

  /** When one signer is told of which failure, apart from those of its keys, digests and signatures. */
  ghost predicate Tells(x: Context, s: SignerInfo, idx: nat, f: Failure) {
    match f
    case VersionMismatch(expected, actual, at) =>
      && at == idx && actual == s.version && actual != expected
      && (s.sid.IssuerAndSerial? ==> expected == 1) && (s.sid.SubjectKeyId? ==> expected == 3)
    case AlgorithmFailure(what) =>
      (s.algorithms.Err? && s.algorithms.error == what) || (s.algorithms.Ok? && what in s.algorithms.value)
    case AttributeFailure(fault, at) =>
      at == idx && s.algorithms.Ok? && s.attrs.Some? && Reported(s.attrs.value, fault, s.digestAlg, s.signatureAlg)
    case SignerCertNotFound(at) =>
      at == idx && s.algorithms.Ok? && forall c :: c in x.certs ==> !NamesCert(s.sid, c)
    case NeedsSignedAttrs =>
      s.algorithms.Ok? && s.attrs.None? && x.target.Detached? && exists c :: c in x.certs && NamesCert(s.sid, c)
    case LooksLikeSignedAttrs =>
      && s.algorithms.Ok? && s.attrs.None? && x.target.EContent? && x.looksLikeSignedAttrs(x.target.content)
      && exists c :: c in x.certs && NamesCert(s.sid, c)
    case WildDuckWorkaround =>
      SignerLeaf(x, s).Some? && s.attrs.Some? && x.target.Detached? && !DigestCovers(x, s, x.target.content)
    case ChainValidation(at) =>
      at == idx && SignerLeaf(x, s).Some? && ChainOf(x, SignerLeaf(x, s).value).None?
    case StapledOcspRevoked(subject) =>
      && SignerLeaf(x, s).Some? && ChainOf(x, SignerLeaf(x, s).value).Some?
      && RevokedElement(x, ChainOf(x, SignerLeaf(x, s).value).value, subject)
    case _ => false
  }

  predicate OfSigner(f: Failure) { f.VersionMismatch? || f.AlgorithmFailure? || f.AttributeFailure? }

  predicate OfSearch(f: Failure) { f.UnusableKey? || f.BadDigest? || f.BadSignature? || f.WildDuckWorkaround? }

  predicate OfChain(f: Failure) { f.ChainValidation? || f.StapledOcspRevoked? }

  lemma InMap<A, B>(f: A -> B, s: seq<A>, y: B)
    ensures y in Map(f, s) <==> exists a :: a in s && f(a) == y
  {
    if y in Map(f, s) {
      var k :| 0 <= k < |s| && Map(f, s)[k] == y;
      assert s[k] in s;
    }
    if a :| a in s && f(a) == y {
      var k :| 0 <= k < |s| && s[k] == a;
      assert Map(f, s)[k] == y;
    }
  }

  lemma VersionTells(x: Context, s: SignerInfo, idx: nat, f: Failure)
    ensures f in VersionFailures(s, idx) <==> f.VersionMismatch? && Tells(x, s, idx, f)
  {
  }

  lemma AlgorithmTells(x: Context, s: SignerInfo, idx: nat, f: Failure)
    ensures f in AlgorithmFailures(s) <==> f.AlgorithmFailure? && Tells(x, s, idx, f)
  {
    hide Map;
    if s.algorithms.Ok? {
      InMap((w: string) => AlgorithmFailure(w), s.algorithms.value, f);
    }
  }

  lemma AttributeTells(x: Context, s: SignerInfo, idx: nat, f: Failure)
    requires s.algorithms.Ok?
    ensures f in AttributeFailures(AttributeFaults(s.attrs, s.digestAlg, s.signatureAlg), idx) <==>
      f.AttributeFailure? && Tells(x, s, idx, f)
  {
    hide Map, AttributeFaults, AttributeScan.Reported;
    var faults := AttributeFaults(s.attrs, s.digestAlg, s.signatureAlg);
    InMap((g: Fault) => AttributeFailure(g, idx), faults, f);
    if s.attrs.Some? {
      forall g ensures g in faults <==> AttributeScan.Reported(s.attrs.value, g, s.digestAlg, s.signatureAlg) {
        AttributeScan.ReportedExactly(s.attrs.value, s.digestAlg, s.signatureAlg, g);
      }
    } else {
      NoFaults(s.digestAlg, s.signatureAlg);
    }
  }

  lemma NoFaults(digestAlg: Bytes, signatureAlg: Bytes)
    ensures AttributeFaults(None, digestAlg, signatureAlg) == []
  {
  }

  lemma OwnTells(x: Context, s: SignerInfo, idx: nat, f: Failure)
    ensures f in OwnFailures(s, idx) <==> OfSigner(f) && Tells(x, s, idx, f)
  {
    hide VersionFailures, AlgorithmFailures, AttributeFailures, AttributeScan.Reported;
    VersionTells(x, s, idx, f);
    AlgorithmTells(x, s, idx, f);
    if s.algorithms.Ok? {
      AttributeTells(x, s, idx, f);
    }
  }

  lemma {:induction false} ChainTells(x: Context, s: SignerInfo, idx: nat, f: Failure)
    requires SignerLeaf(x, s).Some?
    ensures f in ChainFailures(x, SignerLeaf(x, s).value, idx) <==> OfChain(f) && Tells(x, s, idx, f)
  {
    hide SignerLeaf, ChainOf, RevokedElement, Ocsp.RevokedFrom, Map;
    var leaf := SignerLeaf(x, s).value;
    if ChainOf(x, leaf).Some? {
      var chain := ChainOf(x, leaf).value;
      var found := Ocsp.RevokedFrom(x.crypto, x.staples, chain, x.now, 0);
      InMap((c: Ocsp.Certificate) => StapledOcspRevoked(c), found, f);
      forall c ensures c in found <==> RevokedElement(x, chain, c) {
        RevokedFound(x, chain, c);
      }
    }
  }

  lemma {:induction false} RevokedFound(x: Context, chain: seq<Ocsp.Certificate>, c: Ocsp.Certificate)
    ensures c in Ocsp.RevokedFrom(x.crypto, x.staples, chain, x.now, 0) <==> RevokedElement(x, chain, c)
  {
    hide Ocsp.RevokedFrom, Ocsp.Honoured;
    var found := Ocsp.RevokedFrom(x.crypto, x.staples, chain, x.now, 0);
    Ocsp.RevokedFromListed(x.crypto, x.staples, chain, x.now, 0);
    var at :| Ocsp.Listed(x.crypto, x.staples, chain, x.now, 0, at, found);
    if c in found {
      var k :| 0 <= k < |found| && found[k] == c;
      assert at[k] in at;
    }
    if j: nat :| j < |chain| && chain[j] == c && Ocsp.RevokedAt(x.crypto, x.staples, chain, x.now, j) {
      var k :| 0 <= k < |at| && at[k] == j;
      assert found[k] == c;
    }
  }

  lemma {:induction false} SearchTells(x: Context, s: SignerInfo, idx: nat, f: Failure)
    requires s.algorithms.Ok? && Precheck(x, s).None? && Candidates(s.sid, x.certs) != []
    requires !f.UnusableKey? && !f.BadDigest? && !f.BadSignature?
    ensures f in SearchFailures(x, s, idx, Candidates(s.sid, x.certs)) <==> f.WildDuckWorkaround? && Tells(x, s, idx, f)
  {
    hide Candidates, SearchFailures, FirstVerifying, DigestCovers, DigestOf;
    SearchKinds(x, s, idx, Candidates(s.sid, x.certs));
    DigestOfExactly(x, s, x.target.content);
  }

  /** Nothing is told of keys and chains before a key is looked at. */
  lemma EarlyTells(x: Context, s: SignerInfo, idx: nat, f: Failure)
    ensures s.algorithms.Err? || Candidates(s.sid, x.certs) == [] || Precheck(x, s).Some? ==> !SignerLeaf(x, s).Some?
    ensures !SignerLeaf(x, s).Some? && (OfSearch(f) || OfChain(f)) ==> !Tells(x, s, idx, f)
  {
  }

  lemma {:induction false} LaterTells(x: Context, s: SignerInfo, idx: nat, f: Failure)
    requires !f.UnusableKey? && !f.BadDigest? && !f.BadSignature?
    ensures f in LaterFailures(x, s, idx) <==> !OfSigner(f) && Tells(x, s, idx, f)
  {
    hide Candidates, ChainFailures, SearchFailures, SignerLeaf, ChainOf, DigestCovers, AttributeScan.Reported, RevokedElement;
    var candidates := Candidates(s.sid, x.certs);
    CandidatesExactly(s.sid, x.certs);
    EarlyTells(x, s, idx, f);
    if candidates != [] {
      assert candidates[0] in x.certs && NamesCert(s.sid, candidates[0]);
      if s.algorithms.Ok? && Precheck(x, s).None? {
        SearchTells(x, s, idx, f);
        if SignerLeaf(x, s).Some? {
          ChainTells(x, s, idx, f);
        }
      }
    }
  }

  /** A failure of another kind than those of keys, digests and signatures is told exactly when its reason holds. */
  lemma {:induction false} ToldExactly(x: Context, s: SignerInfo, idx: nat, f: Failure)
    requires !f.UnusableKey? && !f.BadDigest? && !f.BadSignature?
    ensures f in SignerFailures(x, s, idx) <==> Tells(x, s, idx, f)
  {
    hide OwnFailures, LaterFailures, Tells;
    OwnTells(x, s, idx, f);
    LaterTells(x, s, idx, f);
  }

  lemma {:induction false} AllToldExactly(x: Context, signers: seq<SignerInfo>, idx: nat, f: Failure)
    ensures f in AllFailures(x, signers, idx) <==> exists k :: 0 <= k < |signers| && f in SignerFailures(x, signers[k], idx + k)
  {
    hide SignerFailures;
    if signers != [] {
      AllToldExactly(x, signers[1..], idx + 1, f);
      if k :| 0 <= k < |signers| && f in SignerFailures(x, signers[k], idx + k) {
        if k > 0 {
          assert f in SignerFailures(x, signers[1..][k - 1], idx + 1 + (k - 1));
        }
      }
      if k :| 0 <= k < |signers[1..]| && f in SignerFailures(x, signers[1..][k], idx + 1 + k) {
        assert f in SignerFailures(x, signers[k + 1], idx + (k + 1));
      }
    }
  }

  /** The first certificate the signer names. */
  ghost predicate FirstNamed(s: SignerInfo, certs: seq<Certificate>, k: nat) {
    k < |certs| && NamesCert(s.sid, certs[k]) && forall j :: 0 <= j < k ==> !NamesCert(s.sid, certs[j])
  }

  lemma {:induction false} FirstCandidate(s: SignerInfo, certs: seq<Certificate>)
    ensures Candidates(s.sid, certs) == [] <==> forall k: nat :: !FirstNamed(s, certs, k)
    ensures forall k: nat :: FirstNamed(s, certs, k) ==> Candidates(s.sid, certs)[0] == certs[k]
  {
    if certs != [] {
      var rest := certs[1..];
      CandidatesStep(s.sid, certs);
      FirstCandidate(s, rest);
      assert forall j :: 0 <= j < |rest| ==> rest[j] == certs[j + 1];
      hide Candidates;
      if NamesCert(s.sid, certs[0]) {
        assert FirstNamed(s, certs, 0);
      } else {
        forall k: nat ensures FirstNamed(s, certs, k + 1) <==> FirstNamed(s, rest, k) {
          FirstNamedBehind(s, certs, k);
        }
        forall k: nat | FirstNamed(s, certs, k) ensures k > 0 && FirstNamed(s, rest, k - 1) {
          assert k > 0;
          FirstNamedBehind(s, certs, k - 1);
        }
      }
    }
  }

  lemma {:induction false} FirstNamedBehind(s: SignerInfo, certs: seq<Certificate>, k: nat)
    requires certs != [] && !NamesCert(s.sid, certs[0])
    ensures FirstNamed(s, certs, k + 1) <==> FirstNamed(s, certs[1..], k)
  {
    var rest := certs[1..];
    assert forall j :: 0 <= j < |rest| ==> rest[j] == certs[j + 1];
    if FirstNamed(s, rest, k) {
      forall j | 0 <= j < k + 1 ensures !NamesCert(s.sid, certs[j]) {
        if j > 0 {
          assert !NamesCert(s.sid, rest[j - 1]);
        }
      }
    }
  }

  /** Version, algorithms and attributes are as they should be. */
  ghost predicate WellFormed(s: SignerInfo) {
    && (s.sid.IssuerAndSerial? ==> s.version == 1) && (s.sid.SubjectKeyId? ==> s.version == 3)
    && s.algorithms == Ok([])
    && (s.attrs.Some? ==> forall f :: !Reported(s.attrs.value, f, s.digestAlg, s.signatureAlg))
  }

  /** The first certificate it names vouches for the content as it is, and has a chain in which nothing is revoked. */
  ghost predicate Clean(x: Context, s: SignerInfo) {
    && WellFormed(s)
    && exists k: nat :: FirstNamed(s, x.certs, k) && Vouches(x, s, x.certs[k])
         && (s.attrs.Some? ==> DigestCovers(x, s, x.target.content))
         && ChainOf(x, x.certs[k]).Some? && NoneRevoked(x, ChainOf(x, x.certs[k]).value)
  }

  lemma {:induction false} WellFormedExactly(s: SignerInfo, idx: nat)
    ensures OwnFailures(s, idx) == [] <==> WellFormed(s)
  {
    hide VersionFailures, AlgorithmFailures, AttributeFaults, AttributeScan.Reported;
    VersionFailuresExactly(s, idx);
    AlgorithmsExactly(s);
    if s.attrs.Some? {
      var faults := AttributeFaults(s.attrs, s.digestAlg, s.signatureAlg);
      forall f ensures f in faults <==> AttributeScan.Reported(s.attrs.value, f, s.digestAlg, s.signatureAlg) {
        AttributeScan.ReportedExactly(s.attrs.value, s.digestAlg, s.signatureAlg, f);
      }
      assert faults != [] ==> faults[0] in faults;
    } else {
      NoFaults(s.digestAlg, s.signatureAlg);
    }
  }

  lemma AlgorithmsExactly(s: SignerInfo)
    ensures AlgorithmFailures(s) == [] <==> s.algorithms == Ok([])
  {
  }

  lemma ChainClean(x: Context, leaf: Certificate, idx: nat)
    ensures ChainFailures(x, leaf, idx) == [] <==> ChainOf(x, leaf).Some? && NoneRevoked(x, ChainOf(x, leaf).value)
  {
    hide ChainOf, Ocsp.RevokedFrom, Ocsp.RevokedAt;
    if ChainOf(x, leaf).Some? {
      var chain := ChainOf(x, leaf).value;
      Ocsp.RevokedFromListed(x.crypto, x.staples, chain, x.now, 0);
      var found := Ocsp.RevokedFrom(x.crypto, x.staples, chain, x.now, 0);
      var at :| Ocsp.Listed(x.crypto, x.staples, chain, x.now, 0, at, found);
      assert at != [] ==> at[0] in at;
    }
  }

  lemma {:induction false} SearchClean(x: Context, s: SignerInfo, idx: nat, candidates: seq<Certificate>)
    requires candidates != []
    ensures SearchFailures(x, s, idx, candidates) == [] <==> KeyVerifies(x, candidates[0], s) && !OnlyRepaired(x, s)
    ensures KeyVerifies(x, candidates[0], s) ==> FirstVerifying(x, s, candidates) == Some(candidates[0])
  {
    hide Verifies, OnlyRepaired, CandidateFailures;
    if candidates[0].key.Some? {
      CandidateKinds(x, candidates[0].key.value, s);
    }
  }

  lemma {:induction false} LaterClean(x: Context, s: SignerInfo, idx: nat)
    requires s.algorithms.Ok?
    ensures LaterFailures(x, s, idx) == [] <==>
      && Precheck(x, s).None? && Candidates(s.sid, x.certs) != []
      && var first := Candidates(s.sid, x.certs)[0];
      KeyVerifies(x, first, s) && !OnlyRepaired(x, s) && ChainOf(x, first).Some? && NoneRevoked(x, ChainOf(x, first).value)
  {
    hide Candidates, SearchFailures, FirstVerifying, KeyVerifies, OnlyRepaired, ChainFailures, ChainOf, NoneRevoked;
    var candidates := Candidates(s.sid, x.certs);
    if candidates != [] {
      SearchClean(x, s, idx, candidates);
      ChainClean(x, candidates[0], idx);
    }
  }

  lemma UnrepairedExactly(x: Context, s: SignerInfo, cert: Certificate)
    requires KeyVerifies(x, cert, s) && Precheck(x, s).None?
    ensures OnlyRepaired(x, s) <==> s.attrs.Some? && !DigestCovers(x, s, x.target.content)
  {
    hide DigestCovers, DigestOf, SignatureOf;
    DigestOfExactly(x, s, x.target.content);
  }

  /** A signer gives rise to no failure exactly when it is clean. */
  lemma {:induction false} CleanExactly(x: Context, s: SignerInfo, idx: nat)
    ensures SignerFailures(x, s, idx) == [] <==> Clean(x, s)
  {
    hide WellFormed, OwnFailures, LaterFailures, Candidates, KeyVerifies, ChainOf, NoneRevoked, DigestCovers, Vouches, DigestOf,
         FirstNamed, Precheck, OnlyRepaired;
    WellFormedExactly(s, idx);
    WellFormedMeans(s);
    FirstCandidate(s, x.certs);
    if s.algorithms.Ok? {
      LaterClean(x, s, idx);
      if k: nat :| FirstNamed(s, x.certs, k) {
        FirstNamedMeans(s, x.certs, k);
        var first := x.certs[k];
        VouchesExactly(x, s, first);
        if Precheck(x, s).None? && KeyVerifies(x, first, s) {
          UnrepairedExactly(x, s, first);
        }
        forall l: nat | FirstNamed(s, x.certs, l) ensures l < |x.certs| && x.certs[l] == first {
          FirstNamedMeans(s, x.certs, l);
        }
      }
    }
  }

  lemma FirstNamedMeans(s: SignerInfo, certs: seq<Certificate>, k: nat)
    requires FirstNamed(s, certs, k)
    ensures k < |certs| && certs[k] in certs && NamesCert(s.sid, certs[k])
  {
  }

  lemma WellFormedMeans(s: SignerInfo)
    ensures WellFormed(s) ==> s.algorithms.Ok?
  {
  }

  lemma VouchesExactly(x: Context, s: SignerInfo, cert: Certificate)
    requires cert in x.certs && NamesCert(s.sid, cert)
    ensures Vouches(x, s, cert) <==> Precheck(x, s).None? && KeyVerifies(x, cert, s)
  {
    if Precheck(x, s).None? {
      hide Vouches, KeyVerifies, Precheck;
      KeyVerifiesExactly(x, s, cert);
    } else {
      hide DigestCovers, Covered, KeyVerifies;
    }
  }

  /** Nothing at all is told of the signers exactly when every one of them is clean. */
  lemma {:induction false} AllClean(x: Context, signers: seq<SignerInfo>, idx: nat)
    ensures AllFailures(x, signers, idx) == [] <==> forall s :: s in signers ==> Clean(x, s)
  {
    hide SignerFailures, Clean;
    if signers != [] {
      HeadOrTail(signers);
      CleanExactly(x, signers[0], idx);
      AllClean(x, signers[1..], idx + 1);
    }
  }

  /** Two known instants more than an hour apart. */
  predicate HourApart(a: Option<int>, b: Option<int>) {
    a.Some? && b.Some? && (a.value - b.value > 3600 || b.value - a.value > 3600)
  }

  lemma CaseNotesExactly(x: Context, leaf: Certificate, n: Note)
    requires x.innerFrom.Some?
    ensures var claim := ClaimOf(x, x.innerFrom.value, leaf);
      n in CaseNotes(Sender.CaseWarnings(x.toALabel, claim)) <==>
        n.CaseNote? && Sender.CaseWarnings(x.toALabel, claim) == [n.mismatch]
  {
    hide Sender.CaseWarnings, Map, ClaimOf;
    var claim := ClaimOf(x, x.innerFrom.value, leaf);
    var ws := Sender.CaseWarnings(x.toALabel, claim);
    InMap((w: Sender.CaseMismatch) => CaseNote(w), ws, n);
    Sender.CaseWarningsExactly(x.toALabel, claim, Sender.CaseMismatch("", ""));
    assert |ws| == 1 ==> ws == [ws[0]];
  }

  lemma SenderNotesExactly(x: Context, leaf: Certificate, m: Sender.Match, n: Note)
    ensures n in SenderNotes(x, leaf, m) <==>
      && Trusted(x, leaf)
      && (if n.CaseNote? then
            !m.Full? && x.innerFrom.Some? && Sender.HasAddress(x.toALabel, ClaimOf(x, x.innerFrom.value, leaf))
            && Sender.CaseWarnings(x.toALabel, ClaimOf(x, x.innerFrom.value, leaf)) == [n.mismatch]
          else n.InnerDateNote? && HourApart(x.outerDate, x.innerDate))
  {
    hide Trusted, Sender.Confirmed, Sender.CaseWarnings, Sender.HasAddress, CaseNotes, ClaimOf;
    if x.innerFrom.Some? {
      Sender.ConfirmedExactly(x.toALabel, ClaimOf(x, x.innerFrom.value, leaf));
      CaseNotesExactly(x, leaf, n);
    }
  }

  /** The notes of an entry: its dates, and the case of the sender's address while no full match is known. */
  lemma {:induction false} NotesExactly(x: Context, s: SignerInfo, leaf: Certificate, m: Sender.Match, n: Note)
    ensures var e := FullEntry(x, s, leaf, m);
      n in e.notes <==>
        match n {
          case SigningTimeNote => HourApart(e.signingTime, x.outerDate)
          case InnerDateNote => e.valid && HourApart(x.outerDate, x.innerDate)
          case CaseNote(w) =>
            e.valid && !m.Full? && x.innerFrom.Some? && Sender.HasAddress(x.toALabel, ClaimOf(x, x.innerFrom.value, leaf))
            && Sender.CaseWarnings(x.toALabel, ClaimOf(x, x.innerFrom.value, leaf)) == [w]
        }
  {
    hide Trusted, SenderNotes, Sender.CaseWarnings, Sender.HasAddress, ClaimOf, SigningTimeOf, ChainOf, Revocation;
    SenderNotesExactly(x, leaf, m, n);
  }

  /**
   * The content is replaced by the repaired one exactly when some signer is vouched for whose digest does not cover
   * the content as it is.
   */
  lemma {:induction false} RepairUsedExactly(x: Context, signers: seq<SignerInfo>)
    ensures RepairUsed(x, signers) <==>
      exists s :: s in signers && s.algorithms.Ok? && (exists cert :: Vouches(x, s, cert))
        && s.attrs.Some? && !DigestCovers(x, s, x.target.content)
  {
    hide SignerLeaf, Vouches, OnlyRepaired, DigestCovers;
    forall s | s in signers
      ensures SignerLeaf(x, s).Some? <==> s.algorithms.Ok? && exists cert :: Vouches(x, s, cert)
      ensures SignerLeaf(x, s).Some? ==> (OnlyRepaired(x, s) <==> s.attrs.Some? && !DigestCovers(x, s, x.target.content))
    {
      SignerLeafExactly(x, s);
      LeafUnrepaired(x, s);
    }
  }

  lemma LeafUnrepaired(x: Context, s: SignerInfo)
    ensures SignerLeaf(x, s).Some? ==> (OnlyRepaired(x, s) <==> s.attrs.Some? && !DigestCovers(x, s, x.target.content))
  {
    hide KeyVerifies, Precheck, Candidates, FirstVerifying, OnlyRepaired, DigestCovers;
    FirstVerifyingExactly(x, s, Candidates(s.sid, x.certs));
    if SignerLeaf(x, s).Some? {
      UnrepairedExactly(x, s, SignerLeaf(x, s).value);
    }
  }

  // ---------- The displayed sender ----------

  /** The claims of the valid signers, in order. */
  function ClaimsOf(x: Context, signers: seq<SignerInfo>): seq<Sender.Claim> {
    if signers == [] then []
    else
      var rest := ClaimsOf(x, signers[1..]);
      match SignerLeaf(x, signers[0])
      case None => rest
      case Some(leaf) =>
        if Trusted(x, leaf) && x.innerFrom.Some? then [ClaimOf(x, x.innerFrom.value, leaf)] + rest else rest
  }

  lemma {:induction false} ResolvedIsRun(x: Context, signers: seq<SignerInfo>, m: Sender.Match)
    ensures ResolvedAfter(x, signers, m) == Sender.Run(x.toALabel, ClaimsOf(x, signers), m)
  {
    hide SignerLeaf, Trusted, Sender.Confirmed;
    if signers != [] {
      ResolvedIsRun(x, signers[1..], Moved(x, signers[0], m));
      var rest := ClaimsOf(x, signers[1..]);
      if ClaimsOf(x, signers) != rest {
        assert ClaimsOf(x, signers)[1..] == rest;
      }
    }
  }

  /** The entry is valid and its certificate's claim is c. */
  predicate Claims(x: Context, e: Entry, c: Sender.Claim) {
    e.valid && x.innerFrom.Some? && c == ClaimOf(x, x.innerFrom.value, e.leaf)
  }

  lemma {:induction false} ClaimsOfEntries(x: Context, signers: seq<SignerInfo>, m: Sender.Match)
    ensures forall c :: c in ClaimsOf(x, signers) ==> exists e :: e in Entries(x, signers, m) && Claims(x, e, c)
    ensures forall e, c :: e in Entries(x, signers, m) && Claims(x, e, c) ==> c in ClaimsOf(x, signers)
  {
    hide SignerLeaf, Trusted, SenderNotes, Moved;
    if signers != [] {
      var s := signers[0];
      ClaimsOfEntries(x, signers[1..], Moved(x, s, m));
      if SignerLeaf(x, s).Some? {
        var e := FullEntry(x, s, SignerLeaf(x, s).value, m);
        assert Entries(x, signers, m)[0] == e;
        assert e.valid == Trusted(x, e.leaf);
        if e.valid && x.innerFrom.Some? {
          assert Claims(x, e, ClaimOf(x, x.innerFrom.value, e.leaf));
        }
      }
    }
  }

  /** What the entry's certificate confirms of the inner From, provided the entry is valid. */
  function EntryConfirms(x: Context, e: Entry): Sender.Match {
    if e.valid && x.innerFrom.Some? then Sender.Confirmed(x.toALabel, ClaimOf(x, x.innerFrom.value, e.leaf)) else Sender.Unmatched
  }

  /** Some valid entry's certificate confirms exactly this. */
  predicate Confirming(x: Context, es: seq<Entry>, v: Sender.Match) {
    exists e :: e in es && EntryConfirms(x, e) == v
  }

  /**
   * The displayed sender leaves the outer one exactly when a valid signer's certificate confirms the inner From,
   * and then it is what such a signer confirms; the name is shown exactly when one confirms it too.
   */
  lemma {:induction false} SenderSafety(x: Context, signers: seq<SignerInfo>)
    ensures var es, m := Entries(x, signers, Sender.Unmatched), ResolvedAfter(x, signers, Sender.Unmatched);
      && (m.Unmatched? <==> forall v :: Confirming(x, es, v) ==> v.Unmatched?)
      && (!m.Unmatched? ==> Confirming(x, es, m))
      && (m.Full? <==> exists v :: Confirming(x, es, v) && v.Full?)
  {
    hide *;
    var claims := ClaimsOf(x, signers);
    ResolvedIsRun(x, signers, Sender.Unmatched);
    Sender.ResolvedAmong(x.toALabel, claims);
    forall v: Sender.Match | !v.Unmatched?
      ensures Confirming(x, Entries(x, signers, Sender.Unmatched), v) <==> Sender.Among(x.toALabel, claims, v)
    {
      ConfirmationsOfEntries(x, signers, v);
    }
  }

  /** Valid entries and claims confirm the same. */
  lemma {:induction false} ConfirmationsOfEntries(x: Context, signers: seq<SignerInfo>, v: Sender.Match)
    requires !v.Unmatched?
    ensures Confirming(x, Entries(x, signers, Sender.Unmatched), v) <==> Sender.Among(x.toALabel, ClaimsOf(x, signers), v)
  {
    hide Entries, ClaimsOf, Sender.Confirmed;
    var claims, es := ClaimsOf(x, signers), Entries(x, signers, Sender.Unmatched);
    ClaimsOfEntries(x, signers, Sender.Unmatched);
    if Confirming(x, es, v) {
      var e :| e in es && EntryConfirms(x, e) == v;
      assert Claims(x, e, ClaimOf(x, x.innerFrom.value, e.leaf));
    }
    if Sender.Among(x.toALabel, claims, v) {
      var c :| c in claims && Sender.Confirmed(x.toALabel, c) == v;
      var e :| e in es && Claims(x, e, c);
    }
  }

  /** A valid signer whose certificate has the address of the inner From. */
  ghost predicate ConfirmsAddress(x: Context, e: Entry) {
    && e.valid && x.innerFrom.Some? && x.innerFrom.value.address.Some?
    && exists mail :: mail in e.leaf.emails && Sender.SameText(x.toALabel(mail), x.toALabel(x.innerFrom.value.address.value))
  }

  /** A certificate that has the name of the inner From. */
  ghost predicate ConfirmsName(x: Context, e: Entry) {
    && x.innerFrom.Some? && x.innerFrom.value.name.Some?
    && exists name :: name in e.leaf.names && Sender.SameText(name, x.innerFrom.value.name.value)
  }

  /**
   * The sender shown is the outer one unless a valid signer's certificate has the address of the inner From.
   * Then it is that address, with the inner date, and with the inner name exactly when one certificate has both.
   */
  ghost predicate ShownAfter(x: Context, es: seq<Entry>, outer: Shown, shown: Shown) {
    && ((forall e :: e in es ==> !ConfirmsAddress(x, e)) ==> shown == outer)
    && (forall e :: e in es && ConfirmsAddress(x, e) ==>
          && shown.address == x.innerFrom.value.address && shown.date == x.innerDate
          && (ConfirmsName(x, e) ==> shown.comment == x.innerFrom.value.name)
          && ((forall f :: f in es ==> !(ConfirmsAddress(x, f) && ConfirmsName(x, f))) ==> shown.comment == None))
  }

  lemma EntryConfirmsExactly(x: Context, e: Entry)
    ensures !ConfirmsAddress(x, e) ==> EntryConfirms(x, e) == Sender.Unmatched
    ensures ConfirmsAddress(x, e) && !ConfirmsName(x, e) ==>
      EntryConfirms(x, e) == Sender.AddressOnly(x.innerFrom.value.address.value)
    ensures ConfirmsAddress(x, e) && ConfirmsName(x, e) ==>
      EntryConfirms(x, e) == Sender.Full(x.innerFrom.value.address.value, x.innerFrom.value.name.value)
  {
    hide Sender.Confirmed, Sender.SameText;
    if x.innerFrom.Some? {
      Sender.ConfirmedExactly(x.toALabel, ClaimOf(x, x.innerFrom.value, e.leaf));
    }
  }

  lemma {:induction false} ShownExactly(x: Context, signers: seq<SignerInfo>, outer: Shown)
    ensures ShownAfter(x, Entries(x, signers, Sender.Unmatched), outer,
                       ShownFor(x, ResolvedAfter(x, signers, Sender.Unmatched), outer))
  {
    hide Entries, ResolvedAfter, ConfirmsAddress, ConfirmsName, EntryConfirms;
    var es, m := Entries(x, signers, Sender.Unmatched), ResolvedAfter(x, signers, Sender.Unmatched);
    SenderSafety(x, signers);
    forall e | e in es ensures EntryConfirms(x, e).Unmatched? <==> !ConfirmsAddress(x, e) {
      EntryConfirmsExactly(x, e);
    }
    if m.Unmatched? {
      forall e | e in es ensures !ConfirmsAddress(x, e) {
        assert Confirming(x, es, EntryConfirms(x, e));
      }
    } else {
      var d :| d in es && EntryConfirms(x, d) == m;
      ConfirmedIsShown(x, es, m, d, outer);
    }
  }

  lemma {:induction false} ConfirmedIsShown(x: Context, es: seq<Entry>, m: Sender.Match, d: Entry, outer: Shown)
    requires !m.Unmatched? && d in es && EntryConfirms(x, d) == m
    requires m.Full? <==> exists v :: Confirming(x, es, v) && v.Full?
    ensures ShownAfter(x, es, outer, ShownFor(x, m, outer))
  {
    hide EntryConfirms, ConfirmsName;
    EntryConfirmsExactly(x, d);
    assert ConfirmsAddress(x, d);
    forall e | e in es && ConfirmsAddress(x, e) && ConfirmsName(x, e) ensures m.Full? {
      EntryConfirmsExactly(x, e);
      assert Confirming(x, es, EntryConfirms(x, e));
    }
    if m.Full? {
      NameOfFull(x, d);
    }
  }

  lemma NameOfFull(x: Context, e: Entry)
    requires EntryConfirms(x, e).Full?
    ensures ConfirmsName(x, e) && x.innerFrom.value.name == Some(EntryConfirms(x, e).name)
  {
    hide EntryConfirms, ConfirmsAddress;
    EntryConfirmsExactly(x, e);
  }

  // ---------- Versions ----------

  /** Version 1 goes with issuer and serial number, version 3 with a subject key identifier. */
  lemma VersionFailuresExactly(s: SignerInfo, idx: nat)
    ensures VersionFailures(s, idx) == [] <==> s.version == match s.sid case IssuerAndSerial(_, _) => 1 case SubjectKeyId(_) => 3
    ensures VersionFailures(s, idx) != [] ==>
      VersionFailures(s, idx) == [VersionMismatch(match s.sid case IssuerAndSerial(_, _) => 1 case SubjectKeyId(_) => 3, s.version, idx)]
  {
  }

  // ---------- Reordered signed attributes ----------

  /** The same signer but for the order of its signed attributes. */
  predicate Reordered(a: SignerInfo, b: SignerInfo) {
    && b == a.(attrs := b.attrs)
    && (a.attrs.None? <==> b.attrs.None?)
    && (a.attrs.Some? ==> multiset(a.attrs.value) == multiset(b.attrs.value))
  }

  lemma ReorderedChecks(x: Context, a: SignerInfo, b: SignerInfo, key: Bytes)
    requires Reordered(a, b)
    ensures SignatureOf(x, key, a) == SignatureOf(x, key, b)
    ensures DigestOf(x, a, x.target.content) == DigestOf(x, b, x.target.content)
    ensures DigestOf(x, a, Repaired(x)) == DigestOf(x, b, Repaired(x))
  {
    hide VerifyMessageDigest, VerifyEContentSignature, Repaired;
    if a.attrs.Some? {
      var valid := Checker(x, key, a.digestAlg, a.signatureAlg, a.signature);
      VerificationIgnoresOrder(valid, a.attrs.value, b.attrs.value, x.target.content, x.digest(a.digestAlg, x.target.content));
      VerificationIgnoresOrder(valid, a.attrs.value, b.attrs.value, x.target.content, x.digest(a.digestAlg, Repaired(x)));
    }
  }

  lemma ReorderedCandidate(x: Context, a: SignerInfo, b: SignerInfo, key: Bytes)
    requires Reordered(a, b)
    ensures Verifies(x, key, a) == Verifies(x, key, b) && CandidateFailures(x, key, a) == CandidateFailures(x, key, b)
    ensures OnlyRepaired(x, a) == OnlyRepaired(x, b)
  {
    hide DigestOf, SignatureOf, Repaired;
    ReorderedChecks(x, a, b, key);
  }

  lemma {:induction false} ReorderedSearch(x: Context, a: SignerInfo, b: SignerInfo, idx: nat, candidates: seq<Certificate>)
    requires Reordered(a, b)
    ensures FirstVerifying(x, a, candidates) == FirstVerifying(x, b, candidates)
    ensures SearchFailures(x, a, idx, candidates) == SearchFailures(x, b, idx, candidates)
  {
    hide Verifies, CandidateFailures, Reordered;
    if candidates != [] {
      ReorderedSearch(x, a, b, idx, candidates[1..]);
      if candidates[0].key.Some? {
        ReorderedCandidate(x, a, b, candidates[0].key.value);
      }
    }
  }

  lemma ReorderedOwn(a: SignerInfo, b: SignerInfo, idx: nat)
    requires Reordered(a, b)
    ensures multiset(OwnFailures(a, idx)) == multiset(OwnFailures(b, idx))
  {
    if a.attrs.Some? {
      hide VersionFailures, AlgorithmFailures, AttributeFaults;
      ScanPermutes(a.attrs.value, b.attrs.value, a.digestAlg, a.signatureAlg);
      MapPermute((f: Fault) => AttributeFailure(f, idx), AttributeFaults(a.attrs, a.digestAlg, a.signatureAlg),
                 AttributeFaults(b.attrs, b.digestAlg, b.signatureAlg));
      var same := VersionFailures(a, idx) + AlgorithmFailures(a);
      assert VersionFailures(b, idx) + AlgorithmFailures(b) == same by { SameOwn(a, b, idx); }
    }
  }

  lemma SameOwn(a: SignerInfo, b: SignerInfo, idx: nat)
    requires b == a.(attrs := b.attrs)
    ensures VersionFailures(b, idx) == VersionFailures(a, idx) && AlgorithmFailures(b) == AlgorithmFailures(a)
  {
  }

  lemma ReorderedLater(x: Context, a: SignerInfo, b: SignerInfo, idx: nat)
    requires Reordered(a, b)
    ensures SignerLeaf(x, a) == SignerLeaf(x, b) && LaterFailures(x, a, idx) == LaterFailures(x, b, idx)
    ensures OnlyRepaired(x, a) == OnlyRepaired(x, b)
  {
    hide FirstVerifying, SearchFailures, ChainFailures, OnlyRepaired;
    ReorderedSearch(x, a, b, idx, Candidates(a.sid, x.certs));
    ReorderedCandidate(x, a, b, []);
  }

  /** Entries that differ at most in the signing time and the note it gives rise to. */
  predicate SameButTime(x: Context, a: Entry, b: Entry) {
    && b == a.(signingTime := b.signingTime, notes := b.notes)
    && TimeNotes(x, a.signingTime) <= a.notes && TimeNotes(x, b.signingTime) <= b.notes
    && a.notes[|TimeNotes(x, a.signingTime)|..] == b.notes[|TimeNotes(x, b.signingTime)|..]
  }

  lemma ReorderedEntry(x: Context, a: SignerInfo, b: SignerInfo, leaf: Certificate, m: Sender.Match)
    requires Reordered(a, b)
    ensures SameButTime(x, FullEntry(x, a, leaf, m), FullEntry(x, b, leaf, m))
    ensures SigningTimeOf(a.attrs) == SigningTimeOf(b.attrs) ==> FullEntry(x, a, leaf, m) == FullEntry(x, b, leaf, m)
  {
    hide SenderNotes, SigningTimeOf, TimeNotes, Trusted, Revocation, ChainOf;
    var e, f := FullEntry(x, a, leaf, m), FullEntry(x, b, leaf, m);
    assert e.notes[|TimeNotes(x, e.signingTime)|..] == SenderNotes(x, leaf, m);
    assert f.notes[|TimeNotes(x, f.signingTime)|..] == SenderNotes(x, leaf, m);
  }

  /** Pairwise the same signers but for the order of their signed attributes. */
  predicate AllReordered(a: seq<SignerInfo>, b: seq<SignerInfo>) {
    |a| == |b| && forall i :: 0 <= i < |a| ==> Reordered(a[i], b[i])
  }

  predicate SameTimes(a: seq<SignerInfo>, b: seq<SignerInfo>)
    requires |a| == |b|
  {
    forall i :: 0 <= i < |a| ==> SigningTimeOf(a[i].attrs) == SigningTimeOf(b[i].attrs)
  }

  predicate AllSameButTime(x: Context, a: seq<Entry>, b: seq<Entry>) {
    |a| == |b| && forall j :: 0 <= j < |a| ==> SameButTime(x, a[j], b[j])
  }

  lemma ReorderedTail(a: seq<SignerInfo>, b: seq<SignerInfo>)
    requires AllReordered(a, b) && a != []
    ensures b != [] && Reordered(a[0], b[0]) && AllReordered(a[1..], b[1..])
    ensures SameTimes(a, b) ==> SigningTimeOf(a[0].attrs) == SigningTimeOf(b[0].attrs) && SameTimes(a[1..], b[1..])
  {
    hide Reordered, SigningTimeOf;
  }

  lemma {:induction false} ReorderedEntries(x: Context, a: seq<SignerInfo>, b: seq<SignerInfo>, m: Sender.Match)
    requires AllReordered(a, b)
    ensures AllSameButTime(x, Entries(x, a, m), Entries(x, b, m))
    ensures SameTimes(a, b) ==> Entries(x, a, m) == Entries(x, b, m)
    ensures ResolvedAfter(x, a, m) == ResolvedAfter(x, b, m)
  {
    hide *;
    if a == [] || b == [] {
      NoneReordered(x, a, b, m);
    } else {
      ReorderedTail(a, b);
      ReorderedLater(x, a[0], b[0], 0);
      LoopStep(x, a, 0, m);
      LoopStep(x, b, 0, m);
      assert a[0..] == a && b[0..] == b;
      MovedByLeaf(x, a[0], b[0], m);
      var next := Moved(x, a[0], m);
      ReorderedEntries(x, a[1..], b[1..], next);
      if SignerLeaf(x, a[0]).Some? {
        var leaf := SignerLeaf(x, a[0]).value;
        ReorderedEntry(x, a[0], b[0], leaf, m);
        SameButTimeCons(x, FullEntry(x, a[0], leaf, m), FullEntry(x, b[0], leaf, m), Entries(x, a[1..], next), Entries(x, b[1..], next));
      } else {
        assert [] + Entries(x, a[1..], next) == Entries(x, a[1..], next);
        assert [] + Entries(x, b[1..], next) == Entries(x, b[1..], next);
      }
    }
  }

  lemma {:induction false} NoneReordered(x: Context, a: seq<SignerInfo>, b: seq<SignerInfo>, m: Sender.Match)
    requires AllReordered(a, b) && (a == [] || b == [])
    ensures AllSameButTime(x, Entries(x, a, m), Entries(x, b, m)) && a == b == []
  {
  }

  lemma MovedByLeaf(x: Context, a: SignerInfo, b: SignerInfo, m: Sender.Match)
    requires SignerLeaf(x, a) == SignerLeaf(x, b)
    ensures Moved(x, a, m) == Moved(x, b, m)
  {
    hide SignerLeaf;
  }

  lemma SameButTimeCons(x: Context, e: Entry, f: Entry, es: seq<Entry>, fs: seq<Entry>)
    requires SameButTime(x, e, f) && AllSameButTime(x, es, fs)
    ensures AllSameButTime(x, [e] + es, [f] + fs)
  {
    hide SameButTime;
  }

  lemma {:induction false} ReorderedFailures(x: Context, a: seq<SignerInfo>, b: seq<SignerInfo>, idx: nat)
    requires AllReordered(a, b)
    ensures multiset(AllFailures(x, a, idx)) == multiset(AllFailures(x, b, idx))
  {
    hide OwnFailures, LaterFailures, Reordered;
    if a != [] {
      ReorderedTail(a, b);
      ReorderedOwn(a[0], b[0], idx);
      ReorderedLater(x, a[0], b[0], idx);
      ReorderedFailures(x, a[1..], b[1..], idx + 1);
    }
  }

  lemma ReorderedRepair(x: Context, a: seq<SignerInfo>, b: seq<SignerInfo>)
    requires AllReordered(a, b)
    ensures RepairUsed(x, a) == RepairUsed(x, b)
  {
    hide SignerLeaf, OnlyRepaired, Reordered;
    forall i | 0 <= i < |a|
      ensures SignerLeaf(x, a[i]) == SignerLeaf(x, b[i]) && OnlyRepaired(x, a[i]) == OnlyRepaired(x, b[i])
    {
      ReorderedLater(x, a[i], b[i], 0);
    }
  }

  /**
   * The order of the signed attributes decides nothing but the signing time and the order of the failures:
   * the same signers are reported with the same certificate, checks, chain, validity and other notes,
   * the same failures occur, and content and sender are the same.
   */
  lemma {:induction false} AttributeOrder(x: Context, a: seq<SignerInfo>, b: seq<SignerInfo>)
    requires AllReordered(a, b)
    ensures AllSameButTime(x, Entries(x, a, Sender.Unmatched), Entries(x, b, Sender.Unmatched))
    ensures SameTimes(a, b) ==> Entries(x, a, Sender.Unmatched) == Entries(x, b, Sender.Unmatched)
    ensures multiset(AllFailures(x, a, 0)) == multiset(AllFailures(x, b, 0))
    ensures ResolvedAfter(x, a, Sender.Unmatched) == ResolvedAfter(x, b, Sender.Unmatched)
    ensures RepairUsed(x, a) == RepairUsed(x, b)
  {
    hide *;
    ReorderedEntries(x, a, b, Sender.Unmatched);
    ReorderedFailures(x, a, b, 0);
    ReorderedRepair(x, a, b);
  }

  /** With agreeing signing times no order of the attributes changes an entry. */
  lemma {:induction false} AgreedTimes(x: Context, a: seq<SignerInfo>, b: seq<SignerInfo>)
    requires AllReordered(a, b) && forall i :: 0 <= i < |a| && a[i].attrs.Some? ==> OneTime(a[i].attrs.value)
    ensures Entries(x, a, Sender.Unmatched) == Entries(x, b, Sender.Unmatched)
  {
    hide Entries, SigningTimeOf, OneTime;
    forall i | 0 <= i < |a| ensures SigningTimeOf(a[i].attrs) == SigningTimeOf(b[i].attrs) {
      assert Reordered(a[i], b[i]);
      if a[i].attrs.Some? {
        SameTime(a[i].attrs.value, b[i].attrs.value);
      }
    }
    AttributeOrder(x, a, b);
  }
}
