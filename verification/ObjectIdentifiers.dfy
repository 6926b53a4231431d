// Object identifiers by their arcs: content octets in base 128 (X.690, clause 8.19).
module ObjectIdentifiers {
  import opened Octets

  /** Digits of n before the last, each with bit 8 set. */
  function Leading(n: nat): Bytes {
    if n == 0 then [] else Leading(n / 128) + [(128 + n % 128) as byte]
  }

  /** One subidentifier: base 128, most significant digit first, bit 8 clear in the last octet only. */
  function Subidentifier(n: nat): Bytes { Leading(n / 128) + [(n % 128) as byte] }

  function Subidentifiers(ns: seq<nat>): Bytes {
    if ns == [] then [] else Subidentifier(ns[0]) + Subidentifiers(ns[1..])
  }

  /** The first two arcs share a subidentifier. */
  function OidContent(arcs: seq<nat>): Bytes
    requires |arcs| >= 2
  {
    Subidentifiers([40 * arcs[0] + arcs[1]] + arcs[2..])
  }

  /** Reads subidentifiers; `acc` holds the digits of one that has begun. None when the last one does not end. */
  function ReadSubidentifiers(s: Bytes, acc: Option<nat>): Option<seq<nat>> {
    if s == [] then (if acc.None? then Some([]) else None)
    else
      var n := (match acc case None => 0 case Some(a) => a) * 128 + s[0] as int % 128;
      if s[0] >= 128 then ReadSubidentifiers(s[1..], Some(n))
      else match ReadSubidentifiers(s[1..], None)
        case None => None
        case Some(ns) => Some([n] + ns)
  }

  lemma {:induction false} LeadingReads(n: nat, tail: Bytes)
    ensures n > 0 ==> ReadSubidentifiers(Leading(n) + tail, None) == ReadSubidentifiers(tail, Some(n))
  {
    if n > 0 {
      var d := (128 + n % 128) as byte;
      var front := Leading(n / 128);
      LeadingReads(n / 128, [d] + tail);
      assert front + [d] + tail == front + ([d] + tail);
      assert ([d] + tail)[1..] == tail;
      if n / 128 == 0 {
        assert front + ([d] + tail) == [d] + tail;
      }
    }
  }

  /** An octet without bit 8 ends the subidentifier. */
  lemma {:induction false} LastDigit(d: byte, acc: Option<nat>, tail: Bytes)
    requires d < 128
    ensures ReadSubidentifiers([d] + tail, acc) ==
      match ReadSubidentifiers(tail, None)
      case None => None
      case Some(ns) => Some([(match acc case None => 0 case Some(a) => a) * 128 + d as int] + ns)
  {
    assert ([d] + tail)[1..] == tail;
  }

  lemma NoLeading(d: Bytes)
    ensures Leading(0) + d == d
  {
  }

  lemma {:induction false} SubidentifierReads(n: nat, tail: Bytes)
    ensures ReadSubidentifiers(Subidentifier(n) + tail, None) ==
      match ReadSubidentifiers(tail, None) case None => None case Some(ns) => Some([n] + ns)
  {
    hide Leading, ReadSubidentifiers;
    var d := (n % 128) as byte;
    LeadingReads(n / 128, [d] + tail);
    assert Leading(n / 128) + [d] + tail == Leading(n / 128) + ([d] + tail);
    NoLeading([d] + tail);
    LastDigit(d, if n / 128 == 0 then None else Some(n / 128), tail);
  }

  /** The content octets are read back as the subidentifiers they were written for. */
  lemma {:induction false} SubidentifiersRead(ns: seq<nat>)
    ensures ReadSubidentifiers(Subidentifiers(ns), None) == Some(ns)
  {
    if ns != [] {
      SubidentifiersRead(ns[1..]);
      SubidentifierReads(ns[0], Subidentifiers(ns[1..]));
      assert ns == [ns[0]] + ns[1..];
    }
  }

  lemma {:induction false} SubidentifiersCons(n: nat, ns: seq<nat>)
    ensures Subidentifiers([n] + ns) == Subidentifier(n) + Subidentifiers(ns) && Subidentifiers([]) == []
  {
    assert ([n] + ns)[1..] == ns;
  }

  lemma FirstArcs(p: nat, q: nat, r: nat, t: nat)
    requires p <= 2 && r <= 2 && (p < 2 ==> q < 40) && (r < 2 ==> t < 40)
    ensures 40 * p + q == 40 * r + t <==> p == r && q == t
  {
  }

  /** Different object identifiers have different content octets. */
  lemma OidContentUnique(a: seq<nat>, b: seq<nat>)
    requires |a| >= 2 && |b| >= 2 && a[0] <= 2 && b[0] <= 2 && (a[0] < 2 ==> a[1] < 40) && (b[0] < 2 ==> b[1] < 40)
    ensures OidContent(a) == OidContent(b) <==> a == b
  {
    hide Subidentifiers, ReadSubidentifiers;
    var x, y := [40 * a[0] + a[1]] + a[2..], [40 * b[0] + b[1]] + b[2..];
    SubidentifiersRead(x);
    SubidentifiersRead(y);
    FirstArcs(a[0], a[1], b[0], b[1]);
    if x == y {
      assert x[0] == y[0] && x[1..] == a[2..] && y[1..] == b[2..];
      assert a == [a[0], a[1]] + a[2..] && b == [b[0], b[1]] + b[2..];
    }
  }
}
