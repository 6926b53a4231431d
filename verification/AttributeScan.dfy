// The walk of `prepare_signer` over the signed attributes (src/lib.rs:951-1032), and what their order decides.
module AttributeScan {
  import opened Octets
  import opened Arrangements
  import opened SignedAttributes

  datatype Fault =
    | ContentTypeMismatch
    | MalformedContentType
    | DigestAlgMismatch
    | SignatureAlgMismatch
    | UnsupportedSigningCertificate
    | MissingContentType
    | RepeatedContentType
    | RepeatedSmimeCapabilities
    | RepeatedSigningTime

  // ---------- One attribute ----------

  function FaultsOf(a: Attribute, digestAlg: Bytes, signatureAlg: Bytes): seq<Fault> {
    match a.content
    case ContentType(isData) =>
      if |isData| != 1 || isData[0].None? then [MalformedContentType]
      else if !isData[0].value then [ContentTypeMismatch]
      else []
    case AlgorithmProtection(ps) =>
      if |ps| != 1 || ps[0].None? then []
      else
        (if ps[0].value.digestAlg != digestAlg then [DigestAlgMismatch] else [])
        + (if ps[0].value.signatureAlg.Some? && ps[0].value.signatureAlg.value != signatureAlg then [SignatureAlgMismatch] else [])
    case SigningCertificate => [UnsupportedSigningCertificate]
    case _ => []
  }

  function Faults(digestAlg: Bytes, signatureAlg: Bytes): Attribute -> seq<Fault> {
    a => FaultsOf(a, digestAlg, signatureAlg)
  }

  /** The time an attribute sets: only a single value that parses counts, and it may be no instant. */
  function TimeOf(a: Attribute): seq<Option<int>> {
    if a.content.SigningTime? && |a.content.times| == 1 && a.content.times[0].Some? then [a.content.times[0].value] else []
  }

  function ContentTypeMark(a: Attribute): seq<()> { if a.content.ContentType? then [()] else [] }

  function CapabilitiesMark(a: Attribute): seq<()> { if a.content.SmimeCapabilities? then [()] else [] }

  function SigningTimeMark(a: Attribute): seq<()> { if a.content.SigningTime? then [()] else [] }

  // ---------- All attributes ----------

  /** Each type that must occur once, or at most once. */
  function CardinalityFaults(attrs: seq<Attribute>): seq<Fault> {
    var types := |Collect(ContentTypeMark, attrs)|;
    (if types == 0 then [MissingContentType] else [])
    + (if types > 1 then [RepeatedContentType] else [])
    + (if |Collect(CapabilitiesMark, attrs)| > 1 then [RepeatedSmimeCapabilities] else [])
    + (if |Collect(SigningTimeMark, attrs)| > 1 then [RepeatedSigningTime] else [])
  }

  function AttributeFaults(attrs: Option<seq<Attribute>>, digestAlg: Bytes, signatureAlg: Bytes): seq<Fault> {
    match attrs
    case None => []
    case Some(all) => Collect(Faults(digestAlg, signatureAlg), all) + CardinalityFaults(all)
  }

  /** The times that are set, in order; a later one replaces an earlier one. */
  function Times(attrs: seq<Attribute>): seq<Option<int>> { Collect(TimeOf, attrs) }

  function LastTime(times: seq<Option<int>>): Option<int> {
    if times == [] then None else times[|times| - 1]
  }

  function SigningTimeOf(attrs: Option<seq<Attribute>>): Option<int> {
    match attrs case None => None case Some(all) => LastTime(Times(all))
  }

  lemma NothingCollected<B>(f: Attribute -> seq<B>, attrs: seq<Attribute>)
    ensures Collect(f, attrs[..0]) == [] && attrs[..|attrs|] == attrs
  {
  }

  lemma LastTimeStep(times: seq<Option<int>>, more: seq<Option<int>>)
    requires |more| <= 1
    ensures LastTime(times + more) == if more == [] then LastTime(times) else more[0]
  {
    assert times + [] == times;
  }

  method ScanAttributes(attrs: Option<seq<Attribute>>, digestAlg: Bytes, signatureAlg: Bytes)
    returns (faults: seq<Fault>, signingTime: Option<int>)
    ensures faults == AttributeFaults(attrs, digestAlg, signatureAlg)
    ensures signingTime == SigningTimeOf(attrs)
  {
    hide Collect, LastTime, FaultsOf;
    faults, signingTime := [], None;
    if attrs.None? {
      return;
    }
    var all := attrs.value;
    var contentTypes, capabilities, signingTimes := 0, 0, 0;
    var f := Faults(digestAlg, signatureAlg);
    NothingCollected(f, all);
    NothingCollected(TimeOf, all);
    NothingCollected(ContentTypeMark, all);
    NothingCollected(CapabilitiesMark, all);
    NothingCollected(SigningTimeMark, all);
    NoTime();
    for i := 0 to |all|
      invariant faults == Collect(f, all[..i])
      invariant signingTime == LastTime(Collect(TimeOf, all[..i]))
      invariant contentTypes == |Collect(ContentTypeMark, all[..i])|
      invariant capabilities == |Collect(CapabilitiesMark, all[..i])|
      invariant signingTimes == |Collect(SigningTimeMark, all[..i])|
    {
      var a := all[i];
      CollectStep(f, all, i);
      CollectStep(TimeOf, all, i);
      CollectStep(ContentTypeMark, all, i);
      CollectStep(CapabilitiesMark, all, i);
      CollectStep(SigningTimeMark, all, i);
      LastTimeStep(Collect(TimeOf, all[..i]), TimeOf(a));
      faults := faults + FaultsOf(a, digestAlg, signatureAlg);
      match a.content {
        case ContentType(_) =>
          contentTypes := contentTypes + 1;
        case SigningTime(times) =>
          signingTimes := signingTimes + 1;
          if |times| == 1 && times[0].Some? {
            signingTime := times[0].value;
          }
        case SmimeCapabilities =>
          capabilities := capabilities + 1;
        case _ =>
      }
    }
    ghost var own := faults;
    faults := faults + (if contentTypes == 0 then [MissingContentType] else []);
    faults := faults + (if contentTypes > 1 then [RepeatedContentType] else []);
    faults := faults + (if capabilities > 1 then [RepeatedSmimeCapabilities] else []);
    faults := faults + (if signingTimes > 1 then [RepeatedSigningTime] else []);
    assert faults == own + CardinalityFaults(all);
  }

  lemma NoTime()
    ensures LastTime([]) == None
  {
  }

  // ---------- What is reported, in terms of the attributes ----------

  /** Why one attribute by itself is reported with this fault. */
  ghost predicate Breaks(a: Attribute, f: Fault, digestAlg: Bytes, signatureAlg: Bytes) {
    match f
    case ContentTypeMismatch => a.content == ContentType([Some(false)])
    case MalformedContentType =>
      a.content.ContentType? && a.content != ContentType([Some(false)]) && a.content != ContentType([Some(true)])
    case DigestAlgMismatch =>
      a.content.AlgorithmProtection? && exists p :: a.content == AlgorithmProtection([Some(p)]) && p.digestAlg != digestAlg
    case SignatureAlgMismatch =>
      a.content.AlgorithmProtection?
      && exists p :: a.content == AlgorithmProtection([Some(p)]) && p.signatureAlg.Some? && p.signatureAlg != Some(signatureAlg)
    case UnsupportedSigningCertificate => a.content.SigningCertificate?
    case _ => false
  }

  /** The faults of one attribute, each once, the digest algorithm before the signature algorithm. */
  lemma FaultsExactly(a: Attribute, digestAlg: Bytes, signatureAlg: Bytes)
    ensures forall f :: f in FaultsOf(a, digestAlg, signatureAlg) <==> Breaks(a, f, digestAlg, signatureAlg)
    ensures |FaultsOf(a, digestAlg, signatureAlg)| > 1 ==> FaultsOf(a, digestAlg, signatureAlg) == [DigestAlgMismatch, SignatureAlgMismatch]
  {
    match a.content
    case ContentType(isData) =>
      assert |isData| == 1 ==> isData == [isData[0]];
    case AlgorithmProtection(ps) =>
      assert |ps| == 1 ==> ps == [ps[0]];
    case _ =>
  }

  ghost predicate Repeated(kind: Attribute -> bool, attrs: seq<Attribute>) {
    exists i, j :: 0 <= i < j < |attrs| && kind(attrs[i]) && kind(attrs[j])
  }

  /** Marks count the attributes of a kind. */
  lemma {:induction false} MarksExactly(mark: Attribute -> seq<()>, kind: Attribute -> bool, attrs: seq<Attribute>)
    requires forall a :: mark(a) == if kind(a) then [()] else []
    ensures |Collect(mark, attrs)| == 0 <==> forall a :: a in attrs ==> !kind(a)
    ensures |Collect(mark, attrs)| > 1 <==> Repeated(kind, attrs)
  {
    if attrs != [] {
      var rest := attrs[1..];
      HeadOrTail(attrs);
      MarksExactly(mark, kind, rest);
      assert mark(attrs[0]) == if kind(attrs[0]) then [()] else [];
      assert forall i :: 0 <= i < |rest| ==> rest[i] == attrs[i + 1];
      if Repeated(kind, rest) {
        var i, j :| 0 <= i < j < |rest| && kind(rest[i]) && kind(rest[j]);
        assert kind(attrs[i + 1]) && kind(attrs[j + 1]);
      }
      if kind(attrs[0]) && |Collect(mark, rest)| > 0 {
        var a :| a in rest && kind(a);
        var j :| 0 <= j < |rest| && rest[j] == a;
        assert kind(attrs[0]) && kind(attrs[j + 1]);
      }
      if Repeated(kind, attrs) && !Repeated(kind, rest) {
        var i, j :| 0 <= i < j < |attrs| && kind(attrs[i]) && kind(attrs[j]);
        assert kind(rest[j - 1]) && rest[j - 1] in rest;
        if i > 0 {
          assert kind(rest[i - 1]) && kind(rest[j - 1]);
        }
      }
    }
  }

  ghost predicate IsContentType(a: Attribute) { a.content.ContentType? }

  ghost predicate IsSmimeCapabilities(a: Attribute) { a.content.SmimeCapabilities? }

  ghost predicate IsSigningTime(a: Attribute) { a.content.SigningTime? }

  /** An attribute by itself, a missing type or a repeated one. */
  ghost predicate Reported(attrs: seq<Attribute>, f: Fault, digestAlg: Bytes, signatureAlg: Bytes) {
    match f
    case MissingContentType => forall a :: a in attrs ==> !IsContentType(a)
    case RepeatedContentType => Repeated(IsContentType, attrs)
    case RepeatedSmimeCapabilities => Repeated(IsSmimeCapabilities, attrs)
    case RepeatedSigningTime => Repeated(IsSigningTime, attrs)
    case _ => exists a :: a in attrs && Breaks(a, f, digestAlg, signatureAlg)
  }

  lemma CardinalityExactly(attrs: seq<Attribute>, digestAlg: Bytes, signatureAlg: Bytes)
    ensures forall f :: f in CardinalityFaults(attrs) <==>
      (f.MissingContentType? || f.RepeatedContentType? || f.RepeatedSmimeCapabilities? || f.RepeatedSigningTime?)
      && Reported(attrs, f, digestAlg, signatureAlg)
  {
    hide Repeated, Collect;
    MarksExactly(ContentTypeMark, IsContentType, attrs);
    MarksExactly(CapabilitiesMark, IsSmimeCapabilities, attrs);
    MarksExactly(SigningTimeMark, IsSigningTime, attrs);
  }

  /** Everything that is reported, and why. */
  lemma {:induction false} ReportedExactly(attrs: seq<Attribute>, digestAlg: Bytes, signatureAlg: Bytes, f: Fault)
    ensures f in AttributeFaults(Some(attrs), digestAlg, signatureAlg) <==> Reported(attrs, f, digestAlg, signatureAlg)
  {
    hide Repeated, Collect, FaultsOf, Breaks, CardinalityFaults;
    CardinalityExactly(attrs, digestAlg, signatureAlg);
    CollectMembers(Faults(digestAlg, signatureAlg), attrs, f);
    forall a ensures f in FaultsOf(a, digestAlg, signatureAlg) <==> Breaks(a, f, digestAlg, signatureAlg) {
      FaultsExactly(a, digestAlg, signatureAlg);
    }
    if f.MissingContentType? || f.RepeatedContentType? || f.RepeatedSmimeCapabilities? || f.RepeatedSigningTime? {
      NoCardinality(f, digestAlg, signatureAlg);
    }
  }

  lemma NoCardinality(f: Fault, digestAlg: Bytes, signatureAlg: Bytes)
    requires f.MissingContentType? || f.RepeatedContentType? || f.RepeatedSmimeCapabilities? || f.RepeatedSigningTime?
    ensures forall a :: !Breaks(a, f, digestAlg, signatureAlg)
  {
  }

  /** The last attribute with one signing time that reads decides, whatever that time is. */
  ghost predicate LastReadable(attrs: seq<Attribute>, i: nat, t: Option<int>) {
    && i < |attrs| && attrs[i].content == SigningTime([Some(t)])
    && forall j, u :: i < j < |attrs| ==> attrs[j].content != SigningTime([Some(u)])
  }

  lemma TimeExactly(a: Attribute)
    ensures forall t :: a.content == SigningTime([Some(t)]) <==> TimeOf(a) == [t]
    ensures (forall t :: a.content != SigningTime([Some(t)])) <==> TimeOf(a) == []
    ensures |TimeOf(a)| <= 1
  {
    if a.content.SigningTime? && |a.content.times| == 1 && a.content.times[0].Some? {
      assert a.content.times == [Some(a.content.times[0].value)];
      assert a.content == SigningTime([Some(a.content.times[0].value)]);
    }
  }

  lemma {:induction false} SigningTimeExactly(attrs: seq<Attribute>)
    ensures forall i: nat, t :: LastReadable(attrs, i, t) ==> SigningTimeOf(Some(attrs)) == t
    ensures (forall a, t :: a in attrs ==> a.content != SigningTime([Some(t)])) ==> Times(attrs) == [] && SigningTimeOf(Some(attrs)) == None
  {
    hide TimeOf, Collect;
    NothingCollected(TimeOf, attrs);
    if attrs != [] {
      var n := |attrs| - 1;
      var front, a := attrs[..n], attrs[n];
      assert attrs == front + [a];
      CollectStep(TimeOf, attrs, n);
      assert attrs[..n + 1] == attrs;
      TimeExactly(a);
      LastTimeStep(Times(front), TimeOf(a));
      SigningTimeExactly(front);
      forall i: nat, t | LastReadable(attrs, i, t) ensures SigningTimeOf(Some(attrs)) == t {
        if i < n {
          assert forall u :: attrs[n].content != SigningTime([Some(u)]);
          assert LastReadable(front, i, t);
        }
      }
    }
  }

  // ---------- What the order of the attributes decides ----------

  /** The same faults in some order, the same cardinality faults, and the same times in some order. */
  lemma ScanPermutes(a: seq<Attribute>, b: seq<Attribute>, digestAlg: Bytes, signatureAlg: Bytes)
    requires multiset(a) == multiset(b)
    ensures multiset(AttributeFaults(Some(a), digestAlg, signatureAlg)) == multiset(AttributeFaults(Some(b), digestAlg, signatureAlg))
    ensures CardinalityFaults(a) == CardinalityFaults(b)
    ensures multiset(Times(a)) == multiset(Times(b))
  {
    hide Collect, FaultsOf, CardinalityFaults;
    CollectPermute(Faults(digestAlg, signatureAlg), a, b);
    CollectPermute(TimeOf, a, b);
    CardinalityPermutes(a, b);
  }

  lemma CardinalityPermutes(a: seq<Attribute>, b: seq<Attribute>)
    requires multiset(a) == multiset(b)
    ensures CardinalityFaults(a) == CardinalityFaults(b)
  {
    hide Collect;
    SameCount(ContentTypeMark, a, b);
    SameCount(CapabilitiesMark, a, b);
    SameCount(SigningTimeMark, a, b);
  }

  lemma {:induction false} SameCount<B>(f: Attribute -> seq<B>, a: seq<Attribute>, b: seq<Attribute>)
    requires multiset(a) == multiset(b)
    ensures |Collect(f, a)| == |Collect(f, b)|
  {
    CollectPermute(f, a, b);
    SameLength(Collect(f, a), Collect(f, b));
  }

  /** All attributes that set a time set the same one. */
  predicate OneTime(attrs: seq<Attribute>) {
    forall t, u :: t in Times(attrs) && u in Times(attrs) ==> t == u
  }

  /** An arrangement in which a given time is set last. */
  lemma SetLast(attrs: seq<Attribute>, t: Option<int>) returns (p: seq<Attribute>)
    requires t in Times(attrs)
    ensures multiset(p) == multiset(attrs) && SigningTimeOf(Some(p)) == t
  {
    hide Collect;
    CollectMembers(TimeOf, attrs, t);
    var a :| a in attrs && t in TimeOf(a);
    var front, back := SplitAt(attrs, a);
    p := front + back + [a];
    CollectAppend(TimeOf, front + back, [a]);
    CollectOne(TimeOf, a);
  }

  /** The signing time is the same for every order exactly when all attributes that set one agree. */
  lemma SigningTimeFixed(attrs: seq<Attribute>)
    ensures OneTime(attrs) <==>
      forall p :: multiset(p) == multiset(attrs) ==> SigningTimeOf(Some(p)) == SigningTimeOf(Some(attrs))
  {
    if OneTime(attrs) {
      forall p | multiset(p) == multiset(attrs) ensures SigningTimeOf(Some(p)) == SigningTimeOf(Some(attrs)) {
        SameTime(attrs, p);
      }
    } else {
      var t, u :| t in Times(attrs) && u in Times(attrs) && t != u;
      var p := SetLast(attrs, t);
      var q := SetLast(attrs, u);
    }
  }

  lemma SameTime(attrs: seq<Attribute>, p: seq<Attribute>)
    requires OneTime(attrs) && multiset(p) == multiset(attrs)
    ensures SigningTimeOf(Some(p)) == SigningTimeOf(Some(attrs))
  {
    hide Collect;
    CollectPermute(TimeOf, p, attrs);
    var x, y := Times(p), Times(attrs);
    SameLength(x, y);
    if x != [] {
      var t := x[|x| - 1];
      assert t in multiset(x) && t in y;
      var u := y[|y| - 1];
      assert u in y;
    }
  }

  /** Two signing times: the last one counts, and both orders report one repetition and nothing else. */
  lemma LastSigningTimeWins(t: int, u: int)
    ensures var a, b := Attribute(None, SigningTime([Some(Some(t))])), Attribute(None, SigningTime([Some(Some(u))]));
      && SigningTimeOf(Some([a, b])) == Some(u) && SigningTimeOf(Some([b, a])) == Some(t)
      && forall d, s :: AttributeFaults(Some([a, b]), d, s) == AttributeFaults(Some([b, a]), d, s)
                        == [MissingContentType, RepeatedSigningTime]
  {
    var a, b := Attribute(None, SigningTime([Some(Some(t))])), Attribute(None, SigningTime([Some(Some(u))]));
    TwoCollected(TimeOf, a, b);
    TwoCollected(ContentTypeMark, a, b);
    TwoCollected(CapabilitiesMark, a, b);
    TwoCollected(SigningTimeMark, a, b);
    forall d, s
      ensures AttributeFaults(Some([a, b]), d, s) == AttributeFaults(Some([b, a]), d, s) == [MissingContentType, RepeatedSigningTime]
    {
      TwoCollected(Faults(d, s), a, b);
    }
  }

  lemma TwoCollected<B>(f: Attribute -> seq<B>, a: Attribute, b: Attribute)
    ensures Collect(f, [a, b]) == f(a) + f(b) && Collect(f, [b, a]) == f(b) + f(a)
  {
    assert [a, b] == [a] + [b] && [b, a] == [b] + [a];
    CollectAppend(f, [a], [b]);
    CollectAppend(f, [b], [a]);
    CollectOne(f, a);
    CollectOne(f, b);
  }

  /** Faults are reported in attribute order, so another order can report them in another sequence. */
  lemma FaultsFollowOrder(digestAlg: Bytes, signatureAlg: Bytes)
    ensures var a, b := Attribute(None, ContentType([])), Attribute(None, SigningCertificate);
      && AttributeFaults(Some([a, b]), digestAlg, signatureAlg) == [MalformedContentType, UnsupportedSigningCertificate]
      && AttributeFaults(Some([b, a]), digestAlg, signatureAlg) == [UnsupportedSigningCertificate, MalformedContentType]
  {
    var a, b := Attribute(None, ContentType([])), Attribute(None, SigningCertificate);
    TwoCollected(Faults(digestAlg, signatureAlg), a, b);
    TwoCollected(ContentTypeMark, a, b);
    TwoCollected(CapabilitiesMark, a, b);
    TwoCollected(SigningTimeMark, a, b);
  }
}
