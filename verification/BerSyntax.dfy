// BER elements as concrete syntax trees, their octets, and the parser of src/utils.rs as a function.
module BerSyntax {
  import opened Arrangements
  import opened Octets
  import opened LengthCodec

  /** One encoded element. Tag and length octets are kept as they stand in the input. */
  datatype Ber =
    | Primitive(tag: Bytes, len: Bytes, content: Bytes)
    | Definite(tag: Bytes, len: Bytes, kids: seq<Ber>)
    | Indefinite(tag: Bytes, kids: seq<Ber>)

  const MAX_BER_DEPTH: nat := 64
  const INDEFINITE: byte := 0x80
  const EOC: Bytes := [0, 0]

  /** `tag_byte & 0x20 != 0` */
  predicate Constructed(tagByte: byte) { tagByte / 0x20 % 2 == 1 }

  /** `tag_byte & 0x1f == 0x1f` */
  predicate MultiByteTag(tagByte: byte) { tagByte % 0x20 == 0x1F }

  // ---------- The grammar ----------

  /** Identifier octets: one octet, or 0x1f in the low bits and a tail whose last octet alone is below 0x80. */
  predicate IsTag(tag: Bytes) {
    if tag != [] && MultiByteTag(tag[0]) then
      |tag| >= 2 && tag[|tag| - 1] < 0x80 && forall i :: 1 <= i < |tag| - 1 ==> tag[i] >= 0x80
    else
      |tag| == 1
  }

  /** The octets of an element. */
  function Unparse(b: Ber): (s: Bytes)
    decreases b, 1
  {
    match b
    case Primitive(tag, len, content) => tag + len + content
    case Definite(tag, len, kids) => tag + len + UnparseAll(kids)
    case Indefinite(tag, kids) => tag + [INDEFINITE] + UnparseAll(kids) + EOC
  }

  function UnparseAll(bs: seq<Ber>): Bytes
    decreases bs, 0
  {
    if bs == [] then [] else Unparse(bs[0]) + UnparseAll(bs[1..])
  }

  /** Well-formed BER, X.690 clauses 8.1.2 to 8.1.5; an end-of-contents marker cannot be a child of an indefinite element. */
  predicate Wf(b: Ber)
    decreases b, 1
  {
    IsTag(b.tag) && (b.Primitive? <==> !Constructed(b.tag[0])) &&
    match b
    case Primitive(tag, len, content) => IsLength(len, |content|)
    case Definite(tag, len, kids) => IsLength(len, |UnparseAll(kids)|) && WfAll(kids)
    case Indefinite(tag, kids) => WfAll(kids) && NoneIsEoc(kids)
  }

  predicate WfAll(bs: seq<Ber>)
    decreases bs, 0
  {
    bs == [] || (Wf(bs[0]) && WfAll(bs[1..]))
  }

  predicate NoneIsEoc(bs: seq<Ber>)
    decreases bs, 0
  {
    bs == [] || (!(EOC <= Unparse(bs[0])) && NoneIsEoc(bs[1..]))
  }

  /** No element lies more than MAX_BER_DEPTH levels below the root when b itself is at `depth`. */
  predicate Fits(b: Ber, depth: nat)
    decreases b, 1
  {
    depth <= MAX_BER_DEPTH && (b.Primitive? || FitsAll(b.kids, depth + 1))
  }

  predicate FitsAll(bs: seq<Ber>, depth: nat)
    decreases bs, 0
  {
    bs == [] || (Fits(bs[0], depth) && FitsAll(bs[1..], depth))
  }

  // ---------- The parser ----------

  /** Octets up to and including the first one below 0x80. */
  function SkipTag(s: Bytes): (r: Option<nat>)
    ensures r.Some? ==> 0 < r.value <= |s|
    ensures r.Some? ==> s[r.value - 1] < 0x80 && forall i :: 0 <= i < r.value - 1 ==> s[i] >= 0x80
  {
    if s == [] then None
    else if s[0] < 0x80 then Some(1)
    else match SkipTag(s[1..])
      case None => None
      case Some(n) => Some(n + 1)
  }

  function TagLength(s: Bytes): (r: Option<nat>)
    ensures r.Some? ==> r.value <= |s| && IsTag(s[..r.value])
  {
    if s == [] then None
    else if !MultiByteTag(s[0]) then Some(1)
    else match SkipTag(s[1..])
      case None => None
      case Some(n) => Some(n + 1)
  }

  /** Identifier and length octets split off, with the content a definite length delimits. */
  datatype Header =
    | DefiniteHeader(tag: Bytes, len: Bytes, content: Bytes, rest: Bytes)
    | IndefiniteHeader(tag: Bytes, rest: Bytes)
  {
    function Octets(): Bytes {
      match this
      case DefiniteHeader(_, _, _, _) => tag + len + content + rest
      case IndefiniteHeader(_, _) => tag + [INDEFINITE] + rest
    }

    predicate Wf() {
      IsTag(tag) && (DefiniteHeader? ==> IsLength(len, |content|))
    }
  }

  function ReadHeader(s: Bytes): (r: Option<Header>)
    ensures r.Some? ==> r.value.Wf() && |r.value.rest| < |s| && (r.value.DefiniteHeader? ==> |r.value.content| < |s|)
  {
    match TagLength(s)
    case None => None
    case Some(t) =>
      var tag, body := s[..t], s[t..];
      if body == [] then None
      else if body[0] == INDEFINITE then Some(IndefiniteHeader(tag, body[1..]))
      else match ReadLength(body)
        case None => None
        case Some((n, k)) =>
          if k + n > |body| then None
          else Some(DefiniteHeader(tag, body[..k], body[k..k + n], body[k + n..]))
  }

  /** One element at the head of s, and what follows it (src/utils.rs:67-181, without the re-emission). */
  function Read(s: Bytes, depth: nat): (r: Option<(Ber, Bytes)>)
    ensures r.Some? ==> |r.value.1| < |s|
    decreases |s|, 0
  {
    if depth > MAX_BER_DEPTH then None
    else match ReadHeader(s)
      case None => None
      case Some(IndefiniteHeader(tag, body)) =>
        if !Constructed(tag[0]) then None
        else (match ReadUntilEoc(body, depth + 1)
          case None => None
          case Some((kids, rest)) => Some((Indefinite(tag, kids), rest)))
      case Some(DefiniteHeader(tag, len, content, rest)) =>
        if !Constructed(tag[0]) then Some((Primitive(tag, len, content), rest))
        else (match ReadAll(content, depth + 1)
          case None => None
          case Some(kids) => Some((Definite(tag, len, kids), rest)))
  }

  /** Elements up to an end-of-contents marker, which is consumed. */
  function ReadUntilEoc(s: Bytes, depth: nat): (r: Option<(seq<Ber>, Bytes)>)
    ensures r.Some? ==> |r.value.1| <= |s|
    decreases |s|, 1
  {
    if EOC <= s then Some(([], s[2..]))
    else match Read(s, depth)
      case None => None
      case Some((b, rest)) =>
        match ReadUntilEoc(rest, depth)
        case None => None
        case Some((bs, end)) => Some(([b] + bs, end))
  }

  /** Elements that fill s exactly. */
  function ReadAll(s: Bytes, depth: nat): Option<seq<Ber>>
    decreases |s|, 1
  {
    if s == [] then Some([])
    else match Read(s, depth)
      case None => None
      case Some((b, rest)) =>
        match ReadAll(rest, depth)
        case None => None
        case Some(bs) => Some([b] + bs)
  }

  // ---------- Soundness: what is read is the element the input starts with ----------

  lemma JoinParts(s: Bytes, i: nat, j: nat)
    requires i <= j <= |s|
    ensures s[..i] + s[i..j] + s[j..] == s
  {
  }

  lemma ReadHeaderSound(s: Bytes)
    requires ReadHeader(s).Some?
    ensures s == ReadHeader(s).value.Octets()
  {
    hide ReadLength, TagLength;
    var t := TagLength(s).value;
    var tag, body := s[..t], s[t..];
    assert s == tag + body;
    if body[0] == INDEFINITE {
      assert body == [INDEFINITE] + body[1..];
    } else {
      var (n, k) := ReadLength(body).value;
      ThreeParts(tag, body, k, k + n);
    }
  }

  lemma ThreeParts(front: Bytes, s: Bytes, i: nat, j: nat)
    requires i <= j <= |s|
    ensures front + s == front + s[..i] + s[i..j] + s[j..]
  {
    JoinParts(s, i, j);
    AssociateFour(front, s[..i], s[i..j], s[j..]);
  }

  lemma {:induction false} ReadSound(s: Bytes, depth: nat)
    requires Read(s, depth).Some?
    ensures var (b, rest) := Read(s, depth).value;
      s == Unparse(b) + rest && Wf(b) && Fits(b, depth)
    decreases |s|, 0
  {
    ReadHeaderSound(s);
    match ReadHeader(s)
    case Some(IndefiniteHeader(tag, body)) =>
      ReadUntilEocSound(body, depth + 1);
      var (kids, rest) := ReadUntilEoc(body, depth + 1).value;
      AssociateFour(tag + [INDEFINITE], UnparseAll(kids), EOC, rest);
    case Some(DefiniteHeader(tag, len, content, rest)) =>
      if Constructed(tag[0]) {
        ReadAllSound(content, depth + 1);
      }
  }

  lemma {:induction false} ReadUntilEocSound(s: Bytes, depth: nat)
    requires ReadUntilEoc(s, depth).Some?
    ensures var (bs, rest) := ReadUntilEoc(s, depth).value;
      && s == UnparseAll(bs) + EOC + rest && WfAll(bs) && FitsAll(bs, depth)
      && NoneIsEoc(bs)
    decreases |s|, 1
  {
    var (bs, rest) := ReadUntilEoc(s, depth).value;
    if EOC <= s {
      assert s == EOC + s[2..];
    } else {
      ReadSound(s, depth);
      var (b, tail) := Read(s, depth).value;
      ReadUntilEocSound(tail, depth);
      var more := ReadUntilEoc(tail, depth).value.0;
      WfSize(b);
      EocAhead(Unparse(b), tail);
      ConsFacts(b, more, depth);
      AssociateFour(Unparse(b), UnparseAll(more), EOC, rest);
    }
  }

  lemma {:induction false} ConsFacts(b: Ber, bs: seq<Ber>, depth: nat)
    ensures UnparseAll([b] + bs) == Unparse(b) + UnparseAll(bs)
    ensures WfAll([b] + bs) <==> Wf(b) && WfAll(bs)
    ensures NoneIsEoc([b] + bs) <==> !(EOC <= Unparse(b)) && NoneIsEoc(bs)
    ensures FitsAll([b] + bs, depth) <==> Fits(b, depth) && FitsAll(bs, depth)
  {
    assert ([b] + bs)[1..] == bs;
  }

  /** Two octets decide whether a marker comes next. */
  lemma EocAhead(a: Bytes, tail: Bytes)
    requires |a| >= 2
    ensures EOC <= a + tail <==> EOC <= a
  {
    assert (a + tail)[..2] == a[..2];
  }

  lemma {:induction false} ReadAllSound(s: Bytes, depth: nat)
    requires ReadAll(s, depth).Some?
    ensures var bs := ReadAll(s, depth).value;
      s == UnparseAll(bs) && WfAll(bs) && FitsAll(bs, depth)
    decreases |s|, 1
  {
    if s != [] {
      ReadSound(s, depth);
      var (b, tail) := Read(s, depth).value;
      ReadAllSound(tail, depth);
      assert ReadAll(s, depth).value[1..] == ReadAll(tail, depth).value;
    }
  }

  // ---------- Completeness: every well-formed element is read back ----------

  lemma {:induction false} SkipTagComplete(s: Bytes, n: nat)
    requires 0 < n <= |s| && s[n - 1] < 0x80 && forall i :: 0 <= i < n - 1 ==> s[i] >= 0x80
    ensures SkipTag(s) == Some(n)
  {
    if n > 1 {
      SkipTagComplete(s[1..], n - 1);
    }
  }

  lemma TagLengthComplete(tag: Bytes, rest: Bytes)
    requires IsTag(tag)
    ensures TagLength(tag + rest) == Some(|tag|)
  {
    var s := tag + rest;
    if MultiByteTag(tag[0]) {
      assert s[1..] == tag[1..] + rest;
      SkipTagComplete(s[1..], |tag| - 1);
    }
  }

  lemma ReadDefiniteHeader(tag: Bytes, len: Bytes, content: Bytes, rest: Bytes)
    requires IsTag(tag) && IsLength(len, |content|)
    ensures ReadHeader(tag + len + content + rest) == Some(DefiniteHeader(tag, len, content, rest))
  {
    hide LengthCodec.Value, TagLength, IsLength;
    var body := len + content + rest;
    assert tag + len + content + rest == tag + body;
    TagLengthComplete(tag, body);
    SliceParts(len, content, rest);
    NotIndefinite(len, |content|);
    ReadLengthExact(body, |content|, |len|);
    assert (tag + body)[|tag|..] == body;
  }

  lemma NotIndefinite(len: Bytes, n: nat)
    requires IsLength(len, n)
    ensures len != [] && len[0] != INDEFINITE
  {
  }

  lemma SliceParts(a: Bytes, b: Bytes, c: Bytes)
    ensures var s := a + b + c;
      s[..|a|] == a && s[|a|..|a| + |b|] == b && s[|a| + |b|..] == c
  {
  }

  lemma ReadIndefiniteHeader(tag: Bytes, body: Bytes)
    requires IsTag(tag)
    ensures ReadHeader(tag + [INDEFINITE] + body) == Some(IndefiniteHeader(tag, body))
  {
    var s := tag + [INDEFINITE] + body;
    assert s == tag + ([INDEFINITE] + body);
    TagLengthComplete(tag, [INDEFINITE] + body);
    assert s[..|tag|] == tag && s[|tag|..] == [INDEFINITE] + body;
  }

  lemma {:induction false} ReadComplete(b: Ber, rest: Bytes, depth: nat)
    requires Wf(b) && Fits(b, depth)
    ensures Read(Unparse(b) + rest, depth) == Some((b, rest))
    decreases b, 1
  {
    match b
    case Indefinite(tag, kids) =>
      var body := UnparseAll(kids) + EOC + rest;
      assert Unparse(b) + rest == tag + [INDEFINITE] + body;
      ReadIndefiniteHeader(tag, body);
      ReadUntilEocComplete(kids, rest, depth + 1);
    case Definite(tag, len, kids) =>
      ReadDefiniteHeader(tag, len, UnparseAll(kids), rest);
      ReadAllComplete(kids, depth + 1);
    case Primitive(tag, len, content) =>
      ReadDefiniteHeader(tag, len, content, rest);
  }

  lemma {:induction false} WfSize(b: Ber)
    requires Wf(b)
    ensures |Unparse(b)| >= 2
  {
  }

  lemma {:induction false} ReadUntilEocComplete(bs: seq<Ber>, rest: Bytes, depth: nat)
    requires WfAll(bs) && FitsAll(bs, depth) && NoneIsEoc(bs)
    ensures ReadUntilEoc(UnparseAll(bs) + EOC + rest, depth) == Some((bs, rest))
    decreases bs, 0
  {
    if bs == [] {
      assert UnparseAll(bs) + EOC + rest == EOC + rest;
    } else {
      var tail := UnparseAll(bs[1..]) + EOC + rest;
      ReadComplete(bs[0], tail, depth);
      ReadUntilEocComplete(bs[1..], rest, depth);
      UntilEocStep(bs, rest);
      hide *;
      ReadUntilEocStep(Unparse(bs[0]) + tail, depth);
      assert [bs[0]] + bs[1..] == bs;
    }
  }

  lemma {:induction false} UntilEocStep(bs: seq<Ber>, rest: Bytes)
    requires bs != [] && Wf(bs[0]) && NoneIsEoc(bs)
    ensures UnparseAll(bs) + EOC + rest == Unparse(bs[0]) + (UnparseAll(bs[1..]) + EOC + rest)
    ensures !(EOC <= Unparse(bs[0]) + (UnparseAll(bs[1..]) + EOC + rest))
  {
    WfSize(bs[0]);
    EocAhead(Unparse(bs[0]), UnparseAll(bs[1..]) + EOC + rest);
  }

  lemma {:induction false} ReadUntilEocStep(s: Bytes, depth: nat)
    requires !(EOC <= s)
    ensures Read(s, depth).Some? && ReadUntilEoc(Read(s, depth).value.1, depth).Some? ==>
      var (b, tail) := Read(s, depth).value;
      var (bs, rest) := ReadUntilEoc(tail, depth).value;
      ReadUntilEoc(s, depth) == Some(([b] + bs, rest))
  {
  }

  lemma {:induction false} ReadAllComplete(bs: seq<Ber>, depth: nat)
    requires WfAll(bs) && FitsAll(bs, depth)
    ensures ReadAll(UnparseAll(bs), depth) == Some(bs)
    decreases bs, 0
  {
    if bs != [] {
      WfSize(bs[0]);
      ReadComplete(bs[0], UnparseAll(bs[1..]), depth);
      ReadAllComplete(bs[1..], depth);
      assert [bs[0]] + bs[1..] == bs;
    }
  }

  /** The parser accepts exactly the inputs that start with one well-formed element within the depth limit. */
  lemma {:induction false} ReadExact(s: Bytes, depth: nat, b: Ber, rest: Bytes)
    ensures Read(s, depth) == Some((b, rest)) <==> s == Unparse(b) + rest && Wf(b) && Fits(b, depth)
  {
    if Read(s, depth) == Some((b, rest)) {
      ReadSound(s, depth);
    }
    if s == Unparse(b) + rest && Wf(b) && Fits(b, depth) {
      ReadComplete(b, rest, depth);
    }
  }

  /** BER is prefix-free: no encoding starts another one. */
  lemma {:induction false} PrefixFree(a: Ber, b: Ber, depth: nat)
    requires Wf(a) && Wf(b) && Fits(a, depth) && Fits(b, depth) && Unparse(a) <= Unparse(b)
    ensures a == b
  {
    var rest := Unparse(b)[|Unparse(a)|..];
    assert Unparse(b) == Unparse(a) + rest && Unparse(b) + [] == Unparse(b);
    ReadComplete(a, rest, depth);
    ReadComplete(b, [], depth);
  }
}
