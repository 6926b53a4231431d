// How CMS names a certificate: SignerIdentifier and RecipientIdentifier (RFC 5652, sections 5.3 and 6.2.1).
module Identifiers {
  import opened Octets

  datatype CertId = IssuerAndSerial(issuer: Bytes, serial: Bytes) | SubjectKeyId(ski: Bytes)

  /** A certificate with this issuer, serial number and subject key identifier carries the identifier. */
  predicate Names(id: CertId, issuer: Bytes, serial: Bytes, ski: Option<Bytes>) {
    match id
    case IssuerAndSerial(i, s) => issuer == i && serial == s
    case SubjectKeyId(k) => ski == Some(k)
  }
}
